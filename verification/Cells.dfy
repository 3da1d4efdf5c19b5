/**
 * item.go and store.go on values. A `Cell` is what an item says about itself, without its
 * links; a `DocState` is a whole replica: the per-client store, the linked lists, the
 * accumulated delete set and the IDs of the items whose `Deleted` flag is set.
 */
module Cells {
  import opened Wrappers
  import opened Values
  import opened Ids

  datatype Content =
    | Str(text: seq<Rune>)   // contentString
    | Val(value: Any)        // contentAny
    | Gone                   // contentDeleted
    | Other(ref: Byte)       // binary, embed, format, nested type

  /**
   * `left` and `right` are OriginLeft and OriginRight. `home` is the name of the parent type:
   * the name an item arrives with, and after integration the name of the type it resolved to.
   */
  datatype Cell = Cell(
    id: Id,
    len: nat,
    left: Option<Id>,
    right: Option<Id>,
    home: Option<Name>,
    sub: Option<Name>,
    content: Content)

  /** One linked list: a text or an array by its name, a map entry by its name and key. */
  datatype Key = Key(name: Name, sub: Option<Name>)

  datatype Range = Range(clock: nat, len: nat)

  type Store = map<nat, seq<Cell>>
  type Chains = map<Key, seq<Cell>>
  type DeleteSet = map<nat, seq<Range>>

  datatype DocState = DocState(store: Store, chains: Chains, ds: DeleteSet, dead: set<Id>)

  const EMPTY := DocState(map[], map[], map[], {})

  function End(c: Cell): nat {
    c.id.clock + c.len
  }

  /** The ID of the last unit of a cell, which is the origin of whatever is typed after it. */
  function LastId(c: Cell): Id
    requires c.len >= 1
  {
    Id(c.id.client, End(c) - 1)
  }

  predicate Covers(c: Cell, id: Id) {
    c.id.client == id.client && c.id.clock <= id.clock < End(c)
  }

  /** The first cell that covers `id`, or the length of the sequence if none does. */
  function IndexOf(cells: seq<Cell>, id: Id): (i: nat)
    ensures i <= |cells|
    ensures i < |cells| ==> Covers(cells[i], id)
    ensures forall j :: 0 <= j < i ==> !Covers(cells[j], id)
  {
    if cells == [] || Covers(cells[0], id) then 0 else 1 + IndexOf(cells[1..], id)
  }

  /** The first cell that covers `id`. */
  function Find(cells: seq<Cell>, id: Id): (c: Option<Cell>)
    ensures c.Some? ==> c.value in cells && Covers(c.value, id)
    ensures c.None? ==> forall d :: d in cells ==> !Covers(d, id)
  {
    if cells == [] then None
    else if Covers(cells[0], id) then Some(cells[0])
    else Find(cells[1..], id)
  }

  function ItemsOf(store: Store, client: nat): seq<Cell> {
    if client in store then store[client] else []
  }

  function ChainOf(chains: Chains, key: Key): seq<Cell> {
    if key in chains then chains[key] else []
  }

  function EndOf(cells: seq<Cell>): nat {
    if cells == [] then 0 else End(cells[|cells| - 1])
  }

  /** getState: one past the last clock of a client. */
  function StateOf(store: Store, client: nat): nat {
    EndOf(ItemsOf(store, client))
  }

  /** getItem: the stored cell that covers an ID. */
  function Lookup(store: Store, id: Id): (c: Option<Cell>)
    ensures c.Some? ==> c.value in ItemsOf(store, id.client) && Covers(c.value, id)
    ensures c.None? ==> forall d :: d in ItemsOf(store, id.client) ==> !Covers(d, id)
  {
    Find(ItemsOf(store, id.client), id)
  }

  predicate InRange(r: Range, clock: nat) {
    r.clock <= clock < r.clock + r.len
  }

  /** deleteSet.isDeleted */
  predicate InDeleteSet(ds: DeleteSet, id: Id) {
    id.client in ds && exists r :: r in ds[id.client] && InRange(r, id.clock)
  }

  /** The list a cell with a resolved parent lives in: only map entries use the key. */
  function KeyOf(c: Cell): Key
    requires c.home.Some?
  {
    Key(c.home.value, if c.content.Val? then c.sub else None)
  }

  /** No item is empty, and a string item is as long as its text. */
  predicate Sized(c: Cell) {
    c.len >= 1 && (c.content.Str? ==> c.len == |c.content.text|)
  }

  /** Items of one client: in clock order, none empty, none overlapping. */
  predicate Sorted(cells: seq<Cell>, client: nat) {
    && (forall i :: 0 <= i < |cells| ==> cells[i].id.client == client && Sized(cells[i]))
    && (forall i, j :: 0 <= i < j < |cells| ==> End(cells[i]) <= cells[j].id.clock)
  }

  /** Additionally without gaps, from clock 0. */
  predicate Tiled(cells: seq<Cell>, client: nat) {
    && Sorted(cells, client)
    && (cells != [] ==> cells[0].id.clock == 0)
    && (forall i :: 0 < i < |cells| ==> cells[i].id.clock == End(cells[i - 1]))
  }

  predicate DistinctIds(cells: seq<Cell>) {
    forall i, j :: 0 <= i < j < |cells| ==> cells[i].id != cells[j].id
  }

  ghost predicate StoreSorted(store: Store) {
    forall c :: c in store ==> Sorted(store[c], c)
  }

  predicate InStore(store: Store, c: Cell) {
    c in ItemsOf(store, c.id.client)
  }

  /** A list holds stored cells of that list, each once. */
  ghost predicate ChainOk(store: Store, chain: seq<Cell>, key: Key) {
    && DistinctIds(chain)
    && forall c :: c in chain ==> InStore(store, c) && c.home.Some? && KeyOf(c) == key
  }

  /** A stored item starts at this ID. */
  predicate IsStart(store: Store, id: Id) {
    Lookup(store, id).Some? && Lookup(store, id).value.id == id
  }

  /** What every replica keeps: the store is sorted, and the lists hold stored cells. */
  ghost predicate Inv(s: DocState) {
    && StoreSorted(s.store)
    && (forall k :: k in s.chains ==> ChainOk(s.store, s.chains[k], k))
    && (forall id :: id in s.dead ==> IsStart(s.store, id))
  }

  /** In a sorted store the cell that covers an ID is the only one. */
  lemma CoveringIsUnique(cells: seq<Cell>, client: nat, i: nat, j: nat, id: Id)
    requires Sorted(cells, client)
    requires i < |cells| && j < |cells| && Covers(cells[i], id) && Covers(cells[j], id)
    ensures i == j
  {
  }

  lemma FindCons(c: Cell, cells: seq<Cell>, id: Id)
    ensures Find([c] + cells, id) == if Covers(c, id) then Some(c) else Find(cells, id)
  {
    assert ([c] + cells)[1..] == cells;
  }

  lemma FindIsUnique(cells: seq<Cell>, client: nat, id: Id, c: Cell)
    requires Sorted(cells, client) && c in cells && Covers(c, id)
    ensures Find(cells, id) == Some(c)
  {
    assert Find(cells, id).Some?;
    var i :| 0 <= i < |cells| && cells[i] == Find(cells, id).value;
    var j :| 0 <= j < |cells| && cells[j] == c;
    CoveringIsUnique(cells, client, i, j, id);
  }

  /**
   * Store tiling: in a gap-free store, getItem finds an item for exactly the clocks
   * below getState, and it is the only item that covers the clock.
   */
  lemma {:induction false} TiledCoverage(cells: seq<Cell>, client: nat, clock: nat)
    requires Tiled(cells, client)
    ensures IndexOf(cells, Id(client, clock)) < |cells| <==> clock < EndOf(cells)
    ensures forall i :: 0 <= i < |cells| && Covers(cells[i], Id(client, clock)) ==> i == IndexOf(cells, Id(client, clock))
  {
    var id := Id(client, clock);
    forall i | 0 <= i < |cells| && Covers(cells[i], id) ensures i == IndexOf(cells, id) {
      CoveringIsUnique(cells, client, i, IndexOf(cells, id), id);
    }
    if cells != [] {
      var n := |cells| - 1;
      var front := cells[..n];
      if clock < cells[n].id.clock {
        TiledCoverage(front, client, clock);
        assert Covers(cells[IndexOf(front, id)], id);
      } else if clock < End(cells[n]) {
        assert Covers(cells[n], id);
      } else {
        forall i | 0 <= i < |cells| ensures !Covers(cells[i], id) {
          if i < n { assert End(cells[i]) <= cells[n].id.clock; }
        }
      }
    }
  }
}
