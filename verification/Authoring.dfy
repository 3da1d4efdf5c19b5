/**
 * array.go and map.go on values: what local edits make of a replica, and that for one author a
 * local edit puts an item exactly where integrateItem would.
 */
module Authoring {
  import opened Wrappers
  import opened Values
  import opened Ids
  import opened Cells
  import opened Integration
  import opened UnitReplicas

  /** The last unit before a place in a list; an item of no units, which there is not, would give its own ID. */
  function Origin(chain: seq<Cell>, p: nat): Option<Id>
    requires p <= |chain|
  {
    if p == 0 then None
    else if chain[p - 1].len == 0 then Some(chain[p - 1].id)
    else Some(LastId(chain[p - 1]))
  }

  /** Put a new item into its list at a place, without looking for the place that integrateItem would choose. */
  function PutAt(s: DocState, key: Key, p: nat, c: Cell): DocState
    requires p <= |ChainOf(s.chains, key)|
  {
    s.(store := Append(s.store, c), chains := s.chains[key := InsertAt(ChainOf(s.chains, key), p, c)])
  }

  /** The list of an author: the first item has no origin, and no item has an origin after its left neighbour. */
  predicate Authored(chain: seq<Cell>) {
    && (chain != [] ==> OriginRank(chain[0]) == 0)
    && (forall i :: 0 < i < |chain| ==> OriginRank(chain[i]) <= End(chain[i - 1]))
  }

  /** Everything in the list is of one client, below a clock. */
  predicate OfClient(chain: seq<Cell>, me: nat, clock: nat) {
    forall c :: c in chain ==> c.id.client == me && c.len >= 1 && End(c) <= clock
  }

  predicate NoOverlap(a: Cell, b: Cell) {
    a.id.client != b.id.client || End(a) <= b.id.clock || End(b) <= a.id.clock
  }

  /** No two items of the list overlap. */
  predicate Disjoint(chain: seq<Cell>) {
    forall i, j :: 0 <= i < j < |chain| ==> NoOverlap(chain[i], chain[j])
  }

  /**
   * Local placement equals integration: in the list of one author, an item with the next clock
   * whose origin is the item before it is integrated right after that item.
   */
  lemma LocalIsIntegrated(chain: seq<Cell>, me: nat, p: nat, c: Cell)
    requires Authored(chain) && OfClient(chain, me, c.id.clock) && Disjoint(chain)
    requires c.id.client == me && c.right.None? && p <= |chain| && c.left == Origin(chain, p)
    ensures Integrate(chain, c) == InsertAt(chain, p, c)
  {
    hide IndexOf, Scan;
    if p > 0 {
      var i := IndexOf(chain, c.left.value);
      assert chain[p - 1] in chain && Covers(chain[p - 1], c.left.value);
      assert i == p - 1;
    }
    if p < |chain| {
      assert chain[p] in chain;
      assert OriginRank(chain[p]) <= OriginRank(c);
    }
    PlaceAt(chain, c, p);
  }

  lemma InsertedAt(chain: seq<Cell>, p: nat, c: Cell)
    requires p <= |chain|
    ensures var longer := InsertAt(chain, p, c);
            && |longer| == |chain| + 1
            && forall i :: 0 <= i < |longer| ==> longer[i] == if i < p then chain[i] else if i == p then c else chain[i - 1]
  {
  }

  lemma PutDisjoint(chain: seq<Cell>, me: nat, p: nat, c: Cell)
    requires OfClient(chain, me, c.id.clock) && Disjoint(chain) && c.id.client == me && c.len >= 1 && p <= |chain|
    ensures OfClient(InsertAt(chain, p, c), me, End(c)) && Disjoint(InsertAt(chain, p, c))
  {
    InsertAtElements(chain, p, c);
    InsertedAt(chain, p, c);
    assert forall i :: 0 <= i < |chain| ==> NoOverlap(chain[i], c) && NoOverlap(c, chain[i]);
    var longer := InsertAt(chain, p, c);
    hide InsertAt, NoOverlap;
    forall i, j | 0 <= i < j < |longer| ensures NoOverlap(longer[i], longer[j]) {
    }
  }

  /** And the list stays the list of an author. */
  lemma PutKeepsAuthored(chain: seq<Cell>, me: nat, p: nat, c: Cell)
    requires Authored(chain) && OfClient(chain, me, c.id.clock) && Disjoint(chain)
    requires c.id.client == me && c.len >= 1 && p <= |chain| && c.left == Origin(chain, p)
    ensures var longer := InsertAt(chain, p, c); Authored(longer) && OfClient(longer, me, End(c)) && Disjoint(longer)
  {
    PutDisjoint(chain, me, p, c);
    if p > 0 { assert chain[p - 1] in chain; }
    PutKeepsOrder(chain, p, c);
  }

  lemma PutKeepsOrder(chain: seq<Cell>, p: nat, c: Cell)
    requires Authored(chain) && p <= |chain|
    requires OriginRank(c) == (if p == 0 then 0 else End(chain[p - 1])) && OriginRank(c) <= End(c)
    ensures Authored(InsertAt(chain, p, c))
  {
    hide OriginRank, End;
  }

  /**
   * With several authors it need not: the item goes where integrateItem would put it if and only
   * if it belongs before the item that it is put in front of.
   */
  lemma LocalIsIntegratedIff(chain: seq<Cell>, p: nat, c: Cell)
    requires p <= |chain| && Start(chain, c.left) == p && c.right.None? && c !in chain
    ensures Integrate(chain, c) == InsertAt(chain, p, c) <==> p == |chain| || Before(c, chain[p])
  {
    var q := Place(chain, c);
    if q != p {
      assert InsertAt(chain, p, c)[p] == c && Integrate(chain, c)[p] == chain[p];
    }
  }

  /** Putting a new item into its list keeps any document well formed. */
  lemma PutKeepsInv(s: DocState, key: Key, p: nat, c: Cell)
    requires Inv(s) && Sized(c) && StateOf(s.store, c.id.client) <= c.id.clock
    requires c.home.Some? && KeyOf(c) == key && p <= |ChainOf(s.chains, key)|
    ensures Inv(PutAt(s, key, p, c))
  {
    hide Find, InsertAt;
    var t := PutAt(s, key, p, c);
    AppendKeepsStore(s.store, c);
    forall k | k in t.chains ensures ChainOk(t.store, t.chains[k], k) {
      var chain := ChainOf(s.chains, k);
      assert ChainOk(s.store, chain, k);
      if k == key {
        DistinctAfterInsert(chain, p, c);
        InsertAtElements(chain, p, c);
      }
    }
    forall id | id in t.dead ensures IsStart(t.store, id) {
      LookupAfterAppend(s.store, c, id);
    }
  }

  lemma PutKeepsPlaced(s: DocState, key: Key, p: nat, c: Cell)
    requires Placed(s) && c.home.Some? && KeyOf(c) == key && p <= |ChainOf(s.chains, key)|
    ensures Placed(PutAt(s, key, p, c))
  {
    InsertAtElements(ChainOf(s.chains, key), p, c);
  }

  // What a reader sees.

  lemma {:induction false} VisibleConcat(a: seq<Cell>, b: seq<Cell>, dead: set<Id>)
    ensures Visible(a + b, dead) == Visible(a, dead) + Visible(b, dead)
  {
    hide Seen;
    if a == [] {
      assert a + b == b;
    } else {
      VisibleConcat(a[1..], b, dead);
      var all := a + b;
      assert all[0] == a[0] && all[1..] == a[1..] + b;
      assert Visible(all, dead) == Seen(a[0], dead) + (Visible(a[1..], dead) + Visible(b, dead));
    }
  }

  lemma VisibleAt(chain: seq<Cell>, p: nat, dead: set<Id>)
    requires p <= |chain|
    ensures Visible(chain, dead) == Visible(chain[..p], dead) + Visible(chain[p..], dead)
  {
    assert chain == chain[..p] + chain[p..];
    VisibleConcat(chain[..p], chain[p..], dead);
  }

  /** findItemAtIndex: the place after the visible item before the index, or after the last visible one. */
  function Slot(chain: seq<Cell>, dead: set<Id>, index: nat): (p: nat)
    ensures p <= |chain|
  {
    if index == 0 || chain == [] then 0
    else if chain[0].id in dead then
      var q := Slot(chain[1..], dead, index);
      if q == 0 then 0 else q + 1
    else 1 + Slot(chain[1..], dead, index - 1)
  }

  lemma VisibleCons(chain: seq<Cell>, dead: set<Id>, p: nat)
    requires 0 < p <= |chain|
    ensures Visible(chain, dead) == Seen(chain[0], dead) + Visible(chain[1..], dead)
    ensures Visible(chain[..p], dead) == Seen(chain[0], dead) + Visible(chain[1..][..p - 1], dead)
    ensures chain[p..] == chain[1..][p - 1..]
  {
    hide Seen;
    assert chain[..p][1..] == chain[1..][..p - 1];
  }

  lemma SeenSize(c: Cell, dead: set<Id>)
    ensures |Seen(c, dead)| == if c.id in dead then 0 else 1
  {
  }

  lemma Shift(first: seq<Cell>, all: seq<Cell>, n: nat)
    requires n <= |all|
    ensures (first + all)[..|first| + n] == first + all[..n] && (first + all)[|first| + n..] == all[n..]
  {
  }

  /** A place that divides the visible items at n. */
  predicate DividesAt(chain: seq<Cell>, dead: set<Id>, p: nat, n: nat) {
    p <= |chain| && n <= |Visible(chain, dead)|
    && Visible(chain[..p], dead) == Visible(chain, dead)[..n] && Visible(chain[p..], dead) == Visible(chain, dead)[n..]
  }

  lemma DividesStart(chain: seq<Cell>, dead: set<Id>)
    ensures DividesAt(chain, dead, 0, 0)
  {
    assert chain[..0] == [] && chain[0..] == chain;
  }

  /** A place in the rest of a list, as a place in the list. */
  lemma DividesCons(chain: seq<Cell>, dead: set<Id>, q: nat, n: nat)
    requires chain != [] && DividesAt(chain[1..], dead, q, n)
    ensures DividesAt(chain, dead, q + 1, n + if chain[0].id in dead then 0 else 1)
  {
    hide Visible, Seen;
    var rest, first := chain[1..], Seen(chain[0], dead);
    VisibleCons(chain, dead, q + 1);
    SeenSize(chain[0], dead);
    Shift(first, Visible(rest, dead), n);
  }

  lemma VisibleSize(chain: seq<Cell>, dead: set<Id>)
    requires chain != []
    ensures |Visible(chain, dead)| == |Visible(chain[1..], dead)| + if chain[0].id in dead then 0 else 1
  {
  }

  lemma NothingVisible(dead: set<Id>)
    ensures Visible([], dead) == []
  {
  }

  /** The slot divides the visible items at the index. */
  lemma {:induction false} SlotDivides(chain: seq<Cell>, dead: set<Id>, index: nat)
    ensures DividesAt(chain, dead, Slot(chain, dead, index), Min(index, |Visible(chain, dead)|))
  {
    hide Visible, DividesAt;
    DividesStart(chain, dead);
    if chain == [] {
      NothingVisible(dead);
    } else if index > 0 {
      var gone := chain[0].id in dead;
      var left := if gone then index else index - 1;
      SlotDivides(chain[1..], dead, left);
      VisibleSize(chain, dead);
      var q := Slot(chain[1..], dead, left);
      DividesCons(chain, dead, q, Min(left, |Visible(chain[1..], dead)|));
      if gone && q == 0 { NoneBefore(chain[1..], dead, Min(left, |Visible(chain[1..], dead)|)); }
    }
  }

  /** Before the start of a list nothing is visible. */
  lemma NoneBefore(chain: seq<Cell>, dead: set<Id>, n: nat)
    requires DividesAt(chain, dead, 0, n)
    ensures n == 0
  {
    assert chain[..0] == [];
  }

  /** Deleting more is deleting among what was visible. */
  lemma {:induction false} VisibleTwice(chain: seq<Cell>, dead: set<Id>, more: set<Id>)
    ensures Visible(chain, dead + more) == Visible(Visible(chain, dead), more)
  {
    if chain != [] {
      VisibleTwice(chain[1..], dead, more);
      VisibleConcat(Seen(chain[0], dead), Visible(chain[1..], dead), more);
      assert Visible(Seen(chain[0], dead), more) == Seen(chain[0], dead + more);
    }
  }

  lemma {:induction false} VisibleAll(chain: seq<Cell>, dead: set<Id>)
    requires forall c :: c in chain ==> c.id !in dead
    ensures Visible(chain, dead) == chain
  {
    if chain != [] { VisibleAll(chain[1..], dead); }
  }

  lemma {:induction false} VisibleNone(chain: seq<Cell>, dead: set<Id>)
    requires forall c :: c in chain ==> c.id in dead
    ensures Visible(chain, dead) == []
  {
    if chain != [] { VisibleNone(chain[1..], dead); }
  }

  lemma {:induction false} VisibleIn(chain: seq<Cell>, dead: set<Id>)
    ensures forall c :: c in Visible(chain, dead) <==> c in chain && c.id !in dead
  {
    if chain != [] { VisibleIn(chain[1..], dead); }
  }

  lemma {:induction false} VisibleDistinct(chain: seq<Cell>, dead: set<Id>)
    requires DistinctIds(chain)
    ensures DistinctIds(Visible(chain, dead))
  {
    if chain != [] {
      VisibleDistinct(chain[1..], dead);
      VisibleIn(chain[1..], dead);
    }
  }

  function IdsOf(cells: seq<Cell>): set<Id> {
    set c | c in cells :: c.id
  }

  lemma SliceIds(all: seq<Cell>, i: nat, j: nat)
    requires DistinctIds(all) && i <= j <= |all|
    ensures forall c :: c in all[..i] || c in all[j..] ==> c.id !in IdsOf(all[i..j])
    ensures forall c :: c in all[i..j] ==> c.id in IdsOf(all[i..j])
  {
  }

  /** Deleting some of the visible items leaves the others visible. */
  lemma MarkShows(chain: seq<Cell>, dead: set<Id>, i: nat, j: nat)
    requires DistinctIds(chain) && i <= j <= |Visible(chain, dead)|
    ensures var all := Visible(chain, dead); Visible(chain, dead + IdsOf(all[i..j])) == all[..i] + all[j..]
  {
    hide Visible, DistinctIds;
    var all := Visible(chain, dead);
    var gone := IdsOf(all[i..j]);
    VisibleTwice(chain, dead, gone);
    VisibleDistinct(chain, dead);
    VisibleAt(all, i, gone);
    VisibleAt(all[i..], j - i, gone);
    assert all[i..][..j - i] == all[i..j] && all[i..][j - i..] == all[j..];
    SliceIds(all, i, j);
    VisibleAll(all[..i], gone);
    VisibleNone(all[i..j], gone);
    VisibleAll(all[j..], gone);
  }

  // The operations of Array and Map, in a transaction.

  /** A transaction in progress: the document, and what was inserted and deleted so far. */
  datatype Tx = Tx(state: DocState, items: seq<Cell>, kills: seq<Id>)

  function ArrayKey(name: Name): Key {
    Key(name, None)
  }

  function EntryKey(name: Name, key: Name): Key {
    Key(name, Some(key))
  }

  function NextId(s: DocState, me: nat): Id {
    Id(me, StateOf(s.store, me))
  }

  /** A new array element for a place in its list. */
  function Element(s: DocState, me: nat, name: Name, p: nat, v: Any): Cell
    requires p <= |ChainOf(s.chains, ArrayKey(name))|
  {
    Cell(NextId(s, me), 1, Origin(ChainOf(s.chains, ArrayKey(name)), p), None, Some(name), None, Val(v))
  }

  function PutElement(tx: Tx, me: nat, name: Name, p: nat, v: Any): Tx
    requires p <= |ChainOf(tx.state.chains, ArrayKey(name))|
  {
    var c := Element(tx.state, me, name, p, v);
    tx.(state := PutAt(tx.state, ArrayKey(name), p, c), items := tx.items + [c])
  }

  /** Several values in a row, each after the one before. */
  function PutAll(tx: Tx, me: nat, name: Name, p: nat, values: seq<Any>): Tx
    requires p <= |ChainOf(tx.state.chains, ArrayKey(name))|
    decreases |values|
  {
    if values == [] then tx else PutAll(PutElement(tx, me, name, p, values[0]), me, name, p + 1, values[1..])
  }

  /** Array.Push: after the last item of the list, deleted or not. */
  function Push(tx: Tx, me: nat, name: Name, values: seq<Any>): Tx {
    PutAll(tx, me, name, |ChainOf(tx.state.chains, ArrayKey(name))|, values)
  }

  /** Array.Insert */
  function Insert(tx: Tx, me: nat, name: Name, index: nat, values: seq<Any>): Tx {
    PutAll(tx, me, name, Slot(ChainOf(tx.state.chains, ArrayKey(name)), tx.state.dead, index), values)
  }

  lemma PutOne(tx: Tx, me: nat, name: Name, p: nat, v: Any)
    requires p <= |ChainOf(tx.state.chains, ArrayKey(name))|
    ensures var t, chain, c := PutElement(tx, me, name, p, v), ChainOf(tx.state.chains, ArrayKey(name)), Element(tx.state, me, name, p, v);
            && ChainOf(t.state.chains, ArrayKey(name)) == chain[..p] + [c] + chain[p..]
            && ItemsOf(t.state.store, me) == ItemsOf(tx.state.store, me) + [c] && t.items == tx.items + [c] && t.kills == tx.kills
            && StateOf(t.state.store, me) == StateOf(tx.state.store, me) + 1
            && Origin(chain[..p] + [c] + chain[p..], p + 1) == Some(c.id)
  {
  }

  /**
   * What several values become in the list: new items right after each other, each with the next clock and
   * with the last unit before it as its origin; they are stored and recorded in this order.
   */
  lemma {:induction false} PutAllList(tx: Tx, me: nat, name: Name, p: nat, values: seq<Any>) returns (cells: seq<Cell>)
    requires p <= |ChainOf(tx.state.chains, ArrayKey(name))|
    ensures |cells| == |values|
    ensures var chain, clock := ChainOf(tx.state.chains, ArrayKey(name)), StateOf(tx.state.store, me);
            forall i :: 0 <= i < |cells| ==>
              cells[i] == Cell(Id(me, clock + i), 1, if i == 0 then Origin(chain, p) else Some(Id(me, clock + i - 1)), None, Some(name), None, Val(values[i]))
    ensures var chain := ChainOf(tx.state.chains, ArrayKey(name));
            cells != [] ==>
              && (cells[0].left.Some? <==> p > 0)
              && (p > 0 && chain[p - 1].len > 0 ==> cells[0].left == Some(Id(chain[p - 1].id.client, chain[p - 1].id.clock + chain[p - 1].len - 1)))
    ensures var t, chain := PutAll(tx, me, name, p, values), ChainOf(tx.state.chains, ArrayKey(name));
            && ChainOf(t.state.chains, ArrayKey(name)) == chain[..p] + cells + chain[p..]
            && ItemsOf(t.state.store, me) == ItemsOf(tx.state.store, me) + cells && t.items == tx.items + cells && t.kills == tx.kills
    decreases |values|
  {
    hide PutElement, Origin, StateOf, ItemsOf;
    var chain := ChainOf(tx.state.chains, ArrayKey(name));
    if values == [] {
      cells := [];
      NothingPut(tx, me, chain, p);
    } else {
      var c, t := Element(tx.state, me, name, p, values[0]), PutElement(tx, me, name, p, values[0]);
      PutOne(tx, me, name, p, values[0]);
      var rest := PutAllList(t, me, name, p + 1, values[1..]);
      cells := [c] + rest;
      JoinLists(chain[..p], c, rest, chain[p..]);
      JoinTails(ItemsOf(tx.state.store, me), c, rest);
      JoinTails(tx.items, c, rest);
      OriginIs(chain, p);
    }
  }

  lemma OriginIs(chain: seq<Cell>, p: nat)
    requires p <= |chain|
    ensures Origin(chain, p).Some? <==> p > 0
    ensures p > 0 && chain[p - 1].len > 0 ==> Origin(chain, p) == Some(Id(chain[p - 1].id.client, chain[p - 1].id.clock + chain[p - 1].len - 1))
  {
  }

  lemma NothingPut(tx: Tx, me: nat, chain: seq<Cell>, p: nat)
    requires p <= |chain|
    ensures chain == chain[..p] + [] + chain[p..] && ItemsOf(tx.state.store, me) == ItemsOf(tx.state.store, me) + [] && tx.items == tx.items + []
  {
  }

  lemma JoinLists(a: seq<Cell>, c: Cell, rest: seq<Cell>, b: seq<Cell>)
    ensures (a + [c] + b)[..|a| + 1] + rest + (a + [c] + b)[|a| + 1..] == a + ([c] + rest) + b
  {
    assert (a + [c] + b)[..|a| + 1] == a + [c] && (a + [c] + b)[|a| + 1..] == b;
  }

  lemma JoinTails(a: seq<Cell>, c: Cell, rest: seq<Cell>)
    ensures a + [c] + rest == a + ([c] + rest)
  {
  }

  /** Right before the slot of an index there is a visible item, unless the slot is the start of the list. */
  lemma {:induction false} SlotIsTight(chain: seq<Cell>, dead: set<Id>, index: nat)
    ensures var p := Slot(chain, dead, index); (index == 0 ==> p == 0) && (p > 0 ==> chain[p - 1].id !in dead)
  {
    if index > 0 && chain != [] {
      SlotIsTight(chain[1..], dead, if chain[0].id in dead then index else index - 1);
    }
  }

  /** Array.Push: the new items are the end of the list, behind deleted ones too. */
  lemma PushAtEnd(tx: Tx, me: nat, name: Name, values: seq<Any>) returns (cells: seq<Cell>)
    ensures ContentsOf(cells) == AsContents(values)
    ensures ChainOf(Push(tx, me, name, values).state.chains, ArrayKey(name)) == ChainOf(tx.state.chains, ArrayKey(name)) + cells
  {
    hide PutAll, Origin;
    var chain := ChainOf(tx.state.chains, ArrayKey(name));
    cells := PutAllList(tx, me, name, |chain|, values);
    assert chain[..|chain|] + cells + chain[|chain|..] == chain + cells;
  }

  /** Array.Insert: the new items come right after the visible item before the index, in front of deleted ones. */
  lemma InsertAfterVisible(tx: Tx, me: nat, name: Name, index: nat, values: seq<Any>) returns (p: nat, cells: seq<Cell>)
    ensures ContentsOf(cells) == AsContents(values)
    ensures var chain, dead := ChainOf(tx.state.chains, ArrayKey(name)), tx.state.dead;
            && p <= |chain| && ChainOf(Insert(tx, me, name, index, values).state.chains, ArrayKey(name)) == chain[..p] + cells + chain[p..]
            && |Visible(chain[..p], dead)| == Min(index, |Visible(chain, dead)|)
            && (index == 0 ==> p == 0) && (p > 0 ==> chain[p - 1].id !in dead)
  {
    hide PutAll, Origin, Slot, Visible;
    var chain := ChainOf(tx.state.chains, ArrayKey(name));
    p := Slot(chain, tx.state.dead, index);
    SlotDivides(chain, tx.state.dead, index);
    SlotIsTight(chain, tx.state.dead, index);
    cells := PutAllList(tx, me, name, p, values);
  }

  /** The visible elements of an array from an index on, at most `length` of them. */
  function Doomed(s: DocState, name: Name, index: nat, length: nat): seq<Cell> {
    var all := Visible(ChainOf(s.chains, ArrayKey(name)), s.dead);
    all[Min(index, |all|)..Min(index + length, |all|)]
  }

  function IdSeq(cells: seq<Cell>): (ids: seq<Id>)
    ensures |ids| == |cells| && forall i :: 0 <= i < |ids| ==> ids[i] == cells[i].id
  {
    seq(|cells|, i requires 0 <= i < |cells| => cells[i].id)
  }

  /** Array.Delete */
  function Delete(tx: Tx, name: Name, index: nat, length: nat): Tx {
    var doomed := Doomed(tx.state, name, index, length);
    tx.(state := tx.state.(dead := tx.state.dead + IdsOf(doomed)), kills := tx.kills + IdSeq(doomed))
  }

  /** The visible items from an index on, at most `length` of them, among the first k items of a list. */
  function DoomedTo(chain: seq<Cell>, dead: set<Id>, index: nat, length: nat, k: nat): seq<Cell>
    requires k <= |chain|
  {
    var seen := Visible(chain[..k], dead);
    seen[Min(index, |seen|)..Min(index + length, |seen|)]
  }

  /** One more item of the list. */
  lemma DoomedNext(chain: seq<Cell>, dead: set<Id>, index: nat, length: nat, k: nat)
    requires k < |chain|
    ensures var c, pos := chain[k], |Visible(chain[..k], dead)|;
            && |Visible(chain[..k + 1], dead)| == pos + (if c.id in dead then 0 else 1)
            && DoomedTo(chain, dead, index, length, k + 1) == DoomedTo(chain, dead, index, length, k)
                 + if c.id !in dead && index <= pos < index + length then [c] else []
  {
    assert chain[..k + 1] == chain[..k] + [chain[k]];
    VisibleConcat(chain[..k], [chain[k]], dead);
    assert Visible([chain[k]], dead) == Seen(chain[k], dead);
  }

  /** After the last item, or when enough items were seen, all are there. */
  lemma DoomedAll(chain: seq<Cell>, dead: set<Id>, index: nat, length: nat, k: nat)
    requires k <= |chain| && (k == |chain| || |Visible(chain[..k], dead)| >= index + length)
    ensures DoomedTo(chain, dead, index, length, k) == DoomedTo(chain, dead, index, length, |chain|)
    ensures chain[..|chain|] == chain
  {
    VisibleAt(chain, k, dead);
    assert chain[..|chain|] == chain;
  }

  /** They are among the first k items. */
  lemma DoomedBefore(chain: seq<Cell>, dead: set<Id>, index: nat, length: nat, k: nat)
    requires k <= |chain|
    ensures forall c :: c in DoomedTo(chain, dead, index, length, k) ==> c in chain[..k]
  {
    VisibleIn(chain[..k], dead);
  }

  function Entry(s: DocState, me: nat, name: Name, key: Name, v: Any): Cell {
    Cell(NextId(s, me), 1, None, None, Some(name), Some(key), Val(v))
  }

  /** The document after Map.Set, before the old entry is marked. */
  function WithEntry(s: DocState, me: nat, name: Name, key: Name, v: Any): DocState {
    var c := Entry(s, me, name, key, v);
    s.(store := Append(s.store, c), chains := s.chains[EntryKey(name, key) := [c]])
  }

  /** A new entry keeps any document well formed. */
  lemma EntryKeepsInv(s: DocState, me: nat, name: Name, key: Name, v: Any)
    requires Inv(s)
    ensures Inv(WithEntry(s, me, name, key, v))
  {
    hide Find, StateOf;
    var c, t := Entry(s, me, name, key, v), WithEntry(s, me, name, key, v);
    AppendKeepsStore(s.store, c);
    forall id | id in t.dead ensures IsStart(t.store, id) {
      LookupAfterAppend(s.store, c, id);
    }
    hide Sorted, Append, IsStart;
    forall k | k in t.chains ensures ChainOk(t.store, t.chains[k], k) {
      assert k != EntryKey(name, key) ==> ChainOk(s.store, s.chains[k], k);
    }
  }

  lemma EntryKeepsPlaced(s: DocState, me: nat, name: Name, key: Name, v: Any)
    requires Placed(s)
    ensures Placed(WithEntry(s, me, name, key, v))
  {
    var t := WithEntry(s, me, name, key, v);
    forall d | InStore(t.store, d) && d.home.Some? && !IsEntry(d) ensures d in ChainOf(t.chains, KeyOf(d)) {
      assert InStore(s.store, d) && KeyOf(d) != EntryKey(name, key);
    }
  }

  /** Map.Set: the new entry is the whole list of its key; the old one is marked deleted, but not recorded. */
  function Set(tx: Tx, me: nat, name: Name, key: Name, v: Any): Tx {
    var k, c := EntryKey(name, key), Entry(tx.state, me, name, key, v);
    var entries := ChainOf(tx.state.chains, k);
    tx.(state := tx.state.(store := Append(tx.state.store, c), chains := tx.state.chains[k := [c]],
                           dead := if entries == [] then tx.state.dead else tx.state.dead + {entries[0].id}),
        items := tx.items + [c])
  }

  /**
   * What Map.Set leaves: one new entry without origins, with the next clock, is the list of the key and is
   * recorded; the entry it replaces is deleted, but no deletion is recorded.
   */
  lemma SetLeaves(tx: Tx, me: nat, name: Name, key: Name, v: Any) returns (c: Cell)
    ensures c == Cell(Id(me, StateOf(tx.state.store, me)), 1, None, None, Some(name), Some(key), Val(v))
    ensures var t, k := Set(tx, me, name, key, v), EntryKey(name, key);
            && ChainOf(t.state.chains, k) == [c] && ItemsOf(t.state.store, me) == ItemsOf(tx.state.store, me) + [c]
            && t.items == tx.items + [c] && t.kills == tx.kills
            && forall id :: id in t.state.dead <==>
                 id in tx.state.dead || (ChainOf(tx.state.chains, k) != [] && id == ChainOf(tx.state.chains, k)[0].id)
  {
    c := Entry(tx.state, me, name, key, v);
  }

  /** Map.Delete */
  function Remove(tx: Tx, name: Name, key: Name): Tx {
    var entries := ChainOf(tx.state.chains, EntryKey(name, key));
    if entries == [] || entries[0].id in tx.state.dead then tx
    else tx.(state := tx.state.(dead := tx.state.dead + {entries[0].id}), kills := tx.kills + [entries[0].id])
  }

  // What the operations mean.

  function ContentsOf(cells: seq<Cell>): (out: seq<Content>)
    ensures |out| == |cells| && forall i :: 0 <= i < |out| ==> out[i] == cells[i].content
  {
    seq(|cells|, i requires 0 <= i < |cells| => cells[i].content)
  }

  /** Array.ToSlice */
  function ToSlice(s: DocState, name: Name): seq<Content> {
    ContentsOf(Visible(ChainOf(s.chains, ArrayKey(name)), s.dead))
  }

  /** Map.Get */
  function Get(s: DocState, name: Name, key: Name): Option<Content> {
    var chain := ChainOf(s.chains, EntryKey(name, key));
    if chain == [] || chain[0].id in s.dead then None else Some(chain[0].content)
  }

  function AsContents(values: seq<Any>): (out: seq<Content>)
    ensures |out| == |values| && forall i :: 0 <= i < |out| ==> out[i] == Val(values[i])
  {
    seq(|values|, i requires 0 <= i < |values| => Val(values[i]))
  }

  /** The ID of the next item is new: no deleted item has it. */
  predicate FreshIds(s: DocState, me: nat) {
    forall id :: id in s.dead && id.client == me ==> id.clock < StateOf(s.store, me)
  }

  lemma PutElementIs(tx: Tx, me: nat, name: Name, p: nat, v: Any)
    requires p <= |ChainOf(tx.state.chains, ArrayKey(name))| && FreshIds(tx.state, me)
    ensures var t, chain, c := PutElement(tx, me, name, p, v), ChainOf(tx.state.chains, ArrayKey(name)), Element(tx.state, me, name, p, v);
            && ChainOf(t.state.chains, ArrayKey(name)) == InsertAt(chain, p, c) && c.content == Val(v) && c.id !in tx.state.dead
            && t.state.dead == tx.state.dead && t.kills == tx.kills && FreshIds(t.state, me)
    ensures forall k :: k != ArrayKey(name) ==> ChainOf(PutElement(tx, me, name, p, v).state.chains, k) == ChainOf(tx.state.chains, k)
  {
  }

  lemma PutParts(chain: seq<Cell>, p: nat, c: Cell, dead: set<Id>)
    requires p <= |chain| && c.id !in dead
    ensures p + 1 <= |InsertAt(chain, p, c)| && InsertAt(chain, p, c)[p + 1..] == chain[p..]
    ensures ContentsOf(Visible(InsertAt(chain, p, c)[..p + 1], dead)) == ContentsOf(Visible(chain[..p], dead)) + [c.content]
  {
    assert InsertAt(chain, p, c)[..p + 1] == chain[..p] + [c];
    VisibleConcat(chain[..p], [c], dead);
    assert Visible([c], dead) == [c];
  }

  lemma ContentsConcat(a: seq<Cell>, b: seq<Cell>)
    ensures ContentsOf(a + b) == ContentsOf(a) + AsContents([]) + ContentsOf(b)
  {
  }

  lemma FirstContent(values: seq<Any>, before: seq<Content>, after: seq<Content>)
    requires values != []
    ensures before + [Val(values[0])] + AsContents(values[1..]) + after == before + AsContents(values) + after
  {
    assert AsContents(values) == [Val(values[0])] + AsContents(values[1..]);
  }

  /** Putting values into a list shows them at that place; the other lists are as before. */
  lemma {:induction false} PutAllShows(tx: Tx, me: nat, name: Name, p: nat, values: seq<Any>)
    requires p <= |ChainOf(tx.state.chains, ArrayKey(name))| && FreshIds(tx.state, me)
    ensures var t, chain, dead := PutAll(tx, me, name, p, values), ChainOf(tx.state.chains, ArrayKey(name)), tx.state.dead;
            && ToSlice(t.state, name) == ContentsOf(Visible(chain[..p], dead)) + AsContents(values) + ContentsOf(Visible(chain[p..], dead))
            && t.state.dead == dead && t.kills == tx.kills
    ensures forall k :: k != ArrayKey(name) ==> ChainOf(PutAll(tx, me, name, p, values).state.chains, k) == ChainOf(tx.state.chains, k)
    decreases |values|
  {
    hide Visible, PutElement, Element, FreshIds, InsertAt, ContentsOf, AsContents;
    var chain, dead := ChainOf(tx.state.chains, ArrayKey(name)), tx.state.dead;
    if values == [] {
      VisibleAt(chain, p, dead);
      ContentsConcat(Visible(chain[..p], dead), Visible(chain[p..], dead));
    } else {
      var c := Element(tx.state, me, name, p, values[0]);
      PutElementIs(tx, me, name, p, values[0]);
      PutParts(chain, p, c, dead);
      PutAllShows(PutElement(tx, me, name, p, values[0]), me, name, p + 1, values[1..]);
      FirstContent(values, ContentsOf(Visible(chain[..p], dead)), ContentsOf(Visible(chain[p..], dead)));
    }
  }
}
