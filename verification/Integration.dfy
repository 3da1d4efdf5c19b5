/**
 * integrate.go on values: where an item goes in its list, and what a replica becomes
 * when it receives an item. The convergence theorems are in Convergence.
 */
module Integration {
  import opened Wrappers
  import opened Values
  import opened Ids
  import opened Cells

  function OriginRank(c: Cell): nat {
    if c.left.Some? then c.left.value.clock + 1 else 0
  }

  /** lssIsBefore: the later origin goes left; between equal origins the greater ID goes left. */
  predicate Before(item: Cell, other: Cell) {
    if OriginRank(item) != OriginRank(other) then OriginRank(item) > OriginRank(other)
    else CompareIds(item.id, other.id) > 0
  }

  /**
   * In terms of clocks and clients: an item goes left of another one if it has an origin and the other
   * has none, or has the origin of the later clock, or, with origins of the same clock or none, is of the
   * greater client or of the same client and later.
   */
  predicate GoesLeft(a: Cell, b: Cell) {
    || (a.left.Some? && (b.left.Some? ==> a.left.value.clock > b.left.value.clock))
    || ((a.left.Some? <==> b.left.Some?) && (a.left.Some? && b.left.Some? ==> a.left.value.clock == b.left.value.clock)
        && (a.id.client > b.id.client || (a.id.client == b.id.client && a.id.clock > b.id.clock)))
  }

  /** That is what lssIsBefore computes; items with different IDs are strictly and totally ordered by it. */
  lemma BeforeIsStrictTotalOrder(a: Cell, b: Cell, c: Cell)
    ensures Before(a, b) <==> GoesLeft(a, b)
    ensures !Before(a, a)
    ensures a.id != b.id ==> (Before(a, b) <==> !Before(b, a))
    ensures Before(a, b) && Before(b, c) ==> Before(a, c)
  {
  }

  /** The scan ends at OriginRight, or at the first item that the new one goes before. */
  predicate Stops(x: Cell, o: Cell) {
    (x.right.Some? && Covers(o, x.right.value)) || Before(x, o)
  }

  function Scan(chain: seq<Cell>, i: nat, x: Cell): (p: nat)
    requires i <= |chain|
    ensures i <= p <= |chain|
    ensures forall j :: i <= j < p ==> !Stops(x, chain[j])
    ensures p < |chain| ==> Stops(x, chain[p])
    decreases |chain| - i
  {
    if i == |chain| || Stops(x, chain[i]) then i else Scan(chain, i + 1, x)
  }

  /** The position after the origin, or the head of the list without one. */
  function Start(chain: seq<Cell>, left: Option<Id>): (i: nat)
    ensures i <= |chain|
  {
    if left.None? then 0 else
    var i := IndexOf(chain, left.value);
    if i < |chain| then i + 1 else 0
  }

  function Place(chain: seq<Cell>, x: Cell): (p: nat)
    ensures Start(chain, x.left) <= p <= |chain|
  {
    Scan(chain, Start(chain, x.left), x)
  }

  function InsertAt<T>(s: seq<T>, p: nat, x: T): seq<T>
    requires p <= |s|
  {
    s[..p] + [x] + s[p..]
  }

  lemma InsertAtElements<T>(s: seq<T>, p: nat, x: T)
    requires p <= |s|
    ensures forall y :: y in InsertAt(s, p, x) <==> y == x || y in s
  {
    assert s == s[..p] + s[p..];
  }

  function Integrate(chain: seq<Cell>, x: Cell): seq<Cell> {
    InsertAt(chain, Place(chain, x), x)
  }

  /** The place is determined by: everything from the start up to it is passed, and it stops the scan. */
  lemma PlaceAt(chain: seq<Cell>, x: Cell, p: nat)
    requires Start(chain, x.left) <= p <= |chain|
    requires forall j :: Start(chain, x.left) <= j < p ==> !Stops(x, chain[j])
    requires p < |chain| ==> Stops(x, chain[p])
    ensures Place(chain, x) == p
  {
  }

  /**
   * The place of an item, in terms of clocks, clients and coverage alone: the first one from the start on
   * that is the end of the list, or holds the right origin, or holds an item that the new one goes left of.
   */
  lemma PlaceIs(chain: seq<Cell>, x: Cell, p: nat)
    ensures p == Place(chain, x) <==>
      && Start(chain, x.left) <= p <= |chain|
      && (forall j :: Start(chain, x.left) <= j < p ==> !GoesLeft(x, chain[j]) && (x.right.Some? ==> !Covers(chain[j], x.right.value)))
      && (p < |chain| ==> GoesLeft(x, chain[p]) || (x.right.Some? && Covers(chain[p], x.right.value)))
  {
    hide Scan, IndexOf, Start;
    forall o ensures Stops(x, o) <==> GoesLeft(x, o) || (x.right.Some? && Covers(o, x.right.value)) {
      BeforeIsStrictTotalOrder(x, o, x);
    }
  }

  /** The right origin: an item stands left of it if and only if it lies at or after the start of the scan. */
  lemma LeftOfRightOrigin(chain: seq<Cell>, x: Cell, r: nat)
    requires r < |chain| && x.right.Some? && Covers(chain[r], x.right.value)
    ensures Place(chain, x) <= r <==> Start(chain, x.left) <= r
  {
  }

  /** Inserting an item moves what it is inserted before, and nothing else, by one. */
  lemma IndexAfterInsert(chain: seq<Cell>, p: nat, y: Cell, id: Id)
    requires p <= |chain| && !Covers(y, id)
    ensures IndexOf(InsertAt(chain, p, y), id)
         == (if IndexOf(chain, id) < p then IndexOf(chain, id) else IndexOf(chain, id) + 1)
  {
    var i := IndexOf(chain, id);
    var longer := InsertAt(chain, p, y);
    var k := IndexOf(longer, id);
    assert forall j :: 0 <= j < |chain| ==> chain[j] == longer[if j < p then j else j + 1];
    assert k < |longer| ==> k != p;
  }

  /** The parent: the name on the item, or the parent of its left origin. */
  function Resolve(store: Store, x: Cell): Option<Name> {
    if x.home.Some? then x.home
    else if x.left.None? then None
    else
      var origin := Lookup(store, x.left.value);
      if origin.Some? then origin.value.home else None
  }

  function Append(store: Store, c: Cell): Store {
    store[c.id.client := ItemsOf(store, c.id.client) + [c]]
  }

  function Link(chains: Chains, c: Cell): Chains
    requires c.home.Some?
  {
    chains[KeyOf(c) := Integrate(ChainOf(chains, KeyOf(c)), c)]
  }

  /** The `Deleted` flag an item starts with. */
  predicate BornDead(ds: DeleteSet, c: Cell) {
    c.content.Gone? || InDeleteSet(ds, c.id)
  }

  /** A new item, its parent resolved, enters the store, and the list of its parent if it has one. */
  function Admit(s: DocState, c: Cell): DocState {
    DocState(
      Append(s.store, c),
      if c.home.Some? then Link(s.chains, c) else s.chains,
      s.ds,
      if BornDead(s.ds, c) then s.dead + {c.id} else s.dead)
  }

  /** integrateItem: a known ID is skipped, an item without a parent is stored but not linked. */
  function Receive(s: DocState, x: Cell): DocState {
    if Lookup(s.store, x.id).Some? then s else Admit(s, x.(home := Resolve(s.store, x)))
  }

  /** The items of one delivery, in order. */
  function Deliver(s: DocState, items: seq<Cell>): DocState
    decreases |items|
  {
    if items == [] then s else Deliver(Receive(s, items[0]), items[1..])
  }

  /** A map entry, as opposed to an element of a text or an array. */
  predicate IsEntry(c: Cell) {
    c.content.Val? && c.sub.Some?
  }

  /** The shape of a decoded item: the parent is on the wire only without origins, and entries have none. */
  predicate Shaped(x: Cell) {
    Sized(x) && (x.left.Some? ==> x.home.None? && x.sub.None?)
  }

  /** Items of one client arrive in clock order, and no origin is a map entry. */
  predicate Fits(s: DocState, x: Cell) {
    && Shaped(x)
    && (Lookup(s.store, x.id).Some? || StateOf(s.store, x.id.client) <= x.id.clock)
    && (x.left.Some? && Lookup(s.store, x.left.value).Some? ==> !IsEntry(Lookup(s.store, x.left.value).value))
  }

  lemma StateAfterAppend(store: Store, c: Cell, client: nat)
    ensures StateOf(Append(store, c), client) == if client == c.id.client then End(c) else StateOf(store, client)
  {
  }

  lemma {:induction false} FindAfterAppend(items: seq<Cell>, c: Cell, id: Id)
    ensures Find(items + [c], id)
         == if Find(items, id).Some? then Find(items, id) else if Covers(c, id) then Some(c) else None
  {
    if items != [] {
      FindAfterAppend(items[1..], c, id);
      assert (items + [c])[1..] == items[1..] + [c];
    }
  }

  lemma LookupAfterAppend(store: Store, c: Cell, id: Id)
    ensures Lookup(Append(store, c), id)
         == if Lookup(store, id).Some? then Lookup(store, id) else if Covers(c, id) then Some(c) else None
  {
    FindAfterAppend(ItemsOf(store, id.client), c, id);
  }

  /** What is in clock order so far ends before a later item starts. */
  lemma SortedBelow(items: seq<Cell>, client: nat, clock: nat)
    requires Sorted(items, client) && EndOf(items) <= clock
    ensures forall o :: o in items ==> o.id.clock < End(o) <= clock
  {
  }

  lemma DistinctAfterInsert(chain: seq<Cell>, p: nat, c: Cell)
    requires p <= |chain| && DistinctIds(chain)
    requires forall o :: o in chain ==> o.id != c.id
    ensures DistinctIds(InsertAt(chain, p, c))
  {
    var longer := InsertAt(chain, p, c);
    forall i, j | 0 <= i < j < |longer| ensures longer[i].id != longer[j].id {
      assert longer[i] == if i < p then chain[i] else if i == p then c else chain[i - 1];
      assert longer[j] == if j < p then chain[j] else if j == p then c else chain[j - 1];
    }
  }

  lemma AppendKeepsStore(store: Store, c: Cell)
    requires StoreSorted(store) && Sized(c) && StateOf(store, c.id.client) <= c.id.clock
    ensures StoreSorted(Append(store, c)) && InStore(Append(store, c), c)
    ensures forall o :: InStore(store, o) ==> InStore(Append(store, c), o)
    ensures forall o :: InStore(store, o) ==> o.id != c.id
  {
    var items := ItemsOf(store, c.id.client);
    SortedBelow(items, c.id.client, c.id.clock);
    assert Sorted(items + [c], c.id.client);
    assert c in items + [c];
  }

  /** Every delivery that fits keeps the replica well formed. */
  lemma ReceiveKeepsInv(s: DocState, x: Cell)
    requires Inv(s) && Fits(s, x)
    ensures Inv(Receive(s, x))
  {
    var t := Receive(s, x);
    if Lookup(s.store, x.id).None? {
      var c := x.(home := Resolve(s.store, x));
      AppendKeepsStore(s.store, c);
      assert t.store == Append(s.store, c);
      forall k | k in t.chains ensures ChainOk(t.store, t.chains[k], k) {
        var chain := ChainOf(s.chains, k);
        assert ChainOk(s.store, chain, k);
        if c.home.Some? && k == KeyOf(c) {
          DistinctAfterInsert(chain, Place(chain, c), c);
          assert t.chains[k] == Integrate(chain, c);
        } else {
          assert t.chains[k] == chain;
        }
      }
      forall id | id in t.dead ensures IsStart(t.store, id) {
        LookupAfterAppend(s.store, c, id);
      }
    }
  }

  /** Every stored element of a text or an array that has a parent is in its list. */
  ghost predicate Placed(s: DocState) {
    forall c :: InStore(s.store, c) && c.home.Some? && !IsEntry(c) ==> c in ChainOf(s.chains, KeyOf(c))
  }

  /** Receiving keeps every linked element in its list. */
  lemma ReceiveKeepsPlaced(s: DocState, x: Cell)
    requires Placed(s)
    ensures Placed(Receive(s, x))
  {
    hide Find, Place;
    var t := Receive(s, x);
    if Lookup(s.store, x.id).None? {
      var c := x.(home := Resolve(s.store, x));
      forall o | InStore(t.store, o) && o.home.Some? && !IsEntry(o) ensures o in ChainOf(t.chains, KeyOf(o)) {
        assert o == c || InStore(s.store, o);
        if c.home.Some? {
          var chain := ChainOf(s.chains, KeyOf(c));
          InsertAtElements(chain, Place(chain, c), c);
        }
      }
    }
  }
}
