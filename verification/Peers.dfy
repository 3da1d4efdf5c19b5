/**
 * Several authors. A local edit is linked right where the editor put it, without the comparison
 * that integrateItem makes at the other peers, so documents of several authors agree exactly as far
 * as every author put every item where integrateItem would have put it.
 */
module Peers {
  import opened Wrappers
  import opened Values
  import opened Ids
  import opened Cells
  import opened Integration
  import opened Convergence
  import opened Deletion
  import opened Exactness
  import opened DeleteOrder
  import opened Replicas
  import opened UnitReplicas
  import opened Authoring
  import opened LocalEdits
  import opened Replication
  import opened Snapshots

  /**
   * One step of a peer: an item put at a place of an array or between two items of a text, a map
   * entry set, an item of a list deleted, or an update of another peer applied.
   */
  datatype Act =
    | Add(name: Name, p: nat, content: Content)
    | Assign(name: Name, key: Name, value: Any)
    | Erase(list: Key, i: nat)
    | Apply(update: Update, order: seq<ClientRange>)

  /** A string is typed where no deleted item is unlinked. */
  predicate BetweenShown(chain: seq<Cell>, dead: set<Id>, p: nat)
    requires p <= |chain|
  {
    (p > 0 ==> chain[p - 1].id !in dead) && (p < |chain| ==> chain[p].id !in dead)
  }

  /** Nobody deletes what this client has not made yet. */
  ghost predicate Existing(s: DocState, me: nat, ranges: DeleteSet) {
    forall id :: InDeleteSet(ranges, id) && id.client == me ==> id.clock < StateOf(s.store, me)
  }

  predicate NoneGone(items: seq<Cell>) {
    forall x :: x in items ==> !x.content.Gone?
  }

  /** Every step finds its place, updates come in causal order, and deletions are of items of one clock. */
  ghost predicate Possible(s: DocState, me: nat, a: Act) {
    match a
    case Add(name, p, content) =>
      var chain := ChainOf(s.chains, ArrayKey(name));
      name != [] && p <= |chain| && (content.Val? || (content.Str? && content.text != [] && BetweenShown(chain, s.dead, p)))
    case Assign(name, _, _) => name != []
    case Erase(k, i) => i < |ChainOf(s.chains, k)| && ChainOf(s.chains, k)[i].id !in s.dead
    case Apply(u, order) =>
      && Flows(s, u.items) && NoneGone(u.items) && Existing(s, me, u.ranges) && Visits(order, Merge(s.ds, u.ranges))
      && (order == [] || (UnitStore(s) && AllUnits(u.items)))
  }

  /** The items that the step sends, or has received. */
  ghost function Sent(s: DocState, me: nat, a: Act): seq<Cell>
    requires Possible(s, me, a)
  {
    match a
    case Add(name, p, content) => [Wire(NewItem(s, me, name, p, content))]
    case Assign(name, key, value) => [Wire(Entry(s, me, name, key, value))]
    case Erase(_, _) => []
    case Apply(u, _) => u.items
  }

  /** The clocks that the step deletes, or learns to be deleted. */
  ghost function Deleted(s: DocState, me: nat, a: Act): DeleteSet
    requires Possible(s, me, a)
  {
    match a
    case Erase(k, i) => var c := ChainOf(s.chains, k)[i]; map[c.id.client := [Range(c.id.clock, c.len)]]
    case Apply(u, _) => u.ranges
    case _ => map[]
  }

  ghost function Step(s: DocState, me: nat, a: Act): DocState
    requires Possible(s, me, a)
  {
    match a
    case Add(name, p, content) => PutAt(s, ArrayKey(name), p, NewItem(s, me, name, p, content))
    case Assign(name, key, value) => Authoring.Set(Tx(s, [], []), me, name, key, value).state
    case Erase(k, i) => s.(dead := s.dead + {ChainOf(s.chains, k)[i].id})
    case Apply(u, order) => ApplyUpdate(s, u, order)
  }

  /** The new item belongs before what it is put in front of, which the author could look up before the edit. */
  ghost predicate Fair(s: DocState, me: nat, a: Act)
    requires Possible(s, me, a)
  {
    match a
    case Add(name, p, content) =>
      var chain := ChainOf(s.chains, ArrayKey(name));
      p == |chain| || Before(NewItem(s, me, name, p, content), chain[p])
    case Assign(name, key, value) =>
      var chain := ChainOf(s.chains, EntryKey(name, key));
      chain == [] || Before(Entry(s, me, name, key, value), chain[0])
    case Erase(_, _) => true
    case Apply(_, _) => true
  }

  /** Two documents with the same items, lists and current map entries, whatever is deleted in them. */
  ghost predicate Alike(s: DocState, d: DocState) {
    Inv(s) && Inv(d) && Mirrors(s, d)
  }

  /** In any document the origin of a new item is found right before its place. */
  lemma OriginFound(s: DocState, key: Key, p: nat)
    requires Inv(s) && 0 < p <= |ChainOf(s.chains, key)|
    ensures var chain := ChainOf(s.chains, key);
            && Origin(chain, p) == Some(LastId(chain[p - 1])) && Start(chain, Origin(chain, p)) == p
            && Lookup(s.store, LastId(chain[p - 1])) == Some(chain[p - 1]) && chain[p - 1].home.Some? && KeyOf(chain[p - 1]) == key
  {
    var chain := ChainOf(s.chains, key);
    var o := chain[p - 1];
    assert ChainOk(s.store, chain, key) && o in chain && InStore(s.store, o);
    var items := ItemsOf(s.store, o.id.client);
    assert o in items && Sorted(items, o.id.client);
    FindIsUnique(items, o.id.client, LastId(o), o);
    forall j | 0 <= j < p - 1 ensures !Covers(chain[j], LastId(o)) {
      assert chain[j] in chain && InStore(s.store, chain[j]) && chain[j].id != o.id;
      if Covers(chain[j], LastId(o)) { FindIsUnique(items, o.id.client, LastId(o), chain[j]); }
    }
  }

  lemma IdIsNew(s: DocState, me: nat)
    requires Inv(s)
    ensures Lookup(s.store, NextId(s, me)).None? && NextId(s, me) !in s.dead
    ensures forall k: Key, c :: c in ChainOf(s.chains, k) ==> c.id != NextId(s, me)
  {
    var id := NextId(s, me);
    var items := ItemsOf(s.store, me);
    var o := Lookup(s.store, id);
    if o.Some? { SortedBelow(items, me, StateOf(s.store, me)); }
    forall k: Key, c | c in ChainOf(s.chains, k) ensures c.id != id {
      assert ChainOk(s.store, ChainOf(s.chains, k), k) && InStore(s.store, c);
      if c.id == id { SortedBelow(items, me, StateOf(s.store, me)); }
    }
  }

  /** How integrateItem at another peer takes a new element: the parent is found again, and the list differs if the place does. */
  lemma AddArrives(s: DocState, me: nat, d: DocState, name: Name, p: nat, content: Content)
    requires Alike(s, d) && Possible(s, me, Add(name, p, content))
    ensures var key, c := ArrayKey(name), NewItem(s, me, name, p, content);
            && Enabled(d, Wire(c)) && c !in ChainOf(s.chains, key) && Start(ChainOf(s.chains, key), c.left) == p
            && Receive(d, Wire(c)).store == Append(d.store, c) && Receive(d, Wire(c)).chains == Link(d.chains, c)
            && ChainOf(d.chains, key) == ChainOf(s.chains, key) && KeyOf(c) == key
  {
    hide Find, Integrate, IndexOf, Place;
    var key, c := ArrayKey(name), NewItem(s, me, name, p, content);
    var chain := ChainOf(s.chains, key);
    assert SameList(chain, ChainOf(d.chains, key), key);
    IdIsNew(s, me);
    if p > 0 {
      OriginFound(s, key, p);
      assert chain[p - 1] in chain;
    }
    assert Wire(c).(home := Resolve(d.store, Wire(c))) == c;
  }

  /** An element: the other peers agree if and only if it was put fairly. */
  lemma AddAgrees(s: DocState, me: nat, d: DocState, name: Name, p: nat, content: Content)
    requires Alike(s, d) && Possible(s, me, Add(name, p, content))
    ensures var c := NewItem(s, me, name, p, content);
            Mirrors(PutAt(s, ArrayKey(name), p, c), Receive(d, Wire(c))) <==> Fair(s, me, Add(name, p, content))
  {
    hide Receive, Integrate, Enabled, Wire, Inv;
    var key, c := ArrayKey(name), NewItem(s, me, name, p, content);
    var chain := ChainOf(s.chains, key);
    var t, e := PutAt(s, key, p, c), Receive(d, Wire(c));
    AddArrives(s, me, d, name, p, content);
    LocalIsIntegratedIff(chain, p, c);
    assert ChainOf(t.chains, key) == InsertAt(chain, p, c) && ChainOf(e.chains, key) == Integrate(chain, c);
    if Fair(s, me, Add(name, p, content)) {
      MirrorsMore(s, d, t, e, key);
    } else {
      assert !SameList(ChainOf(t.chains, key), ChainOf(e.chains, key), key);
    }
  }

  /** How another peer takes a new map entry: it is the head if it belongs before the entry that was. */
  lemma AssignArrives(s: DocState, me: nat, d: DocState, name: Name, key: Name, v: Any)
    requires Alike(s, d) && name != []
    ensures var k, c := EntryKey(name, key), Entry(s, me, name, key, v);
            && Wire(c) == c && Enabled(d, c) && Receive(d, c).store == Append(d.store, c) && Receive(d, c).chains == Link(d.chains, c)
            && KeyOf(c) == k && SameList(ChainOf(s.chains, k), ChainOf(d.chains, k), k)
  {
    hide Find, Integrate, Inv;
    var k, c := EntryKey(name, key), Entry(s, me, name, key, v);
    IdIsNew(s, me);
    assert SameList(ChainOf(s.chains, k), ChainOf(d.chains, k), k);
    assert c.(home := Resolve(d.store, c)) == c;
  }

  lemma HeadAfter(chain: seq<Cell>, c: Cell)
    requires c.left.None? && c.right.None?
    ensures Integrate(chain, c) != [] && Integrate(chain, c)[0] == if chain == [] || Before(c, chain[0]) then c else chain[0]
  {
  }

  /** A map entry: the other peers agree if and only if it was set fairly. */
  lemma AssignAgrees(s: DocState, me: nat, d: DocState, name: Name, key: Name, v: Any)
    requires Alike(s, d) && name != []
    ensures Mirrors(Step(s, me, Assign(name, key, v)), Receive(d, Entry(s, me, name, key, v))) <==> Fair(s, me, Assign(name, key, v))
  {
    hide Integrate, Enabled, Inv, Receive;
    var k, c := EntryKey(name, key), Entry(s, me, name, key, v);
    var t, e := Step(s, me, Assign(name, key, v)), Receive(d, c);
    AssignArrives(s, me, d, name, key, v);
    HeadAfter(ChainOf(d.chains, k), c);
    IdIsNew(s, me);
    assert ChainOf(t.chains, k) == [c] && ChainOf(e.chains, k) == Integrate(ChainOf(d.chains, k), c);
    var was := ChainOf(s.chains, k);
    if was != [] { assert was[0] in was && was[0].id != c.id; }
    if Fair(s, me, Assign(name, key, v)) {
      MirrorsMore(s, d, t, e, k);
    } else {
      assert !SameList(ChainOf(t.chains, k), ChainOf(e.chains, k), k);
    }
  }

  lemma SetKeepsInv(s: DocState, me: nat, name: Name, key: Name, v: Any)
    requires Inv(s) && name != []
    ensures Inv(Step(s, me, Assign(name, key, v)))
  {
    hide Find;
    var k := EntryKey(name, key);
    var chain := ChainOf(s.chains, k);
    var u := if chain == [] then s else s.(dead := s.dead + {chain[0].id});
    if chain != [] {
      assert ChainOk(s.store, s.chains[k], k) && chain[0] in chain && InStore(s.store, chain[0]);
      FindIsUnique(ItemsOf(s.store, chain[0].id.client), chain[0].id.client, chain[0].id, chain[0]);
    }
    assert Inv(u);
    EntryKeepsInv(u, me, name, key, v);
    assert WithEntry(u, me, name, key, v) == Step(s, me, Assign(name, key, v));
  }

  lemma EnabledLeft(s: DocState, d: DocState, x: Cell)
    requires Mirrors(s, d) && Enabled(s, x)
    ensures Enabled(d, x)
    ensures var c := x.(home := Resolve(s.store, x)); c.home.Some? && (KeyOf(c).sub.Some? ==> x.left.None?)
  {
    hide Find;
    if x.left.Some? {
      var o := Lookup(s.store, x.left.value).value;
      assert SameList(ChainOf(s.chains, KeyOf(o)), ChainOf(d.chains, KeyOf(o)), KeyOf(o));
    }
  }

  /** Both take an item of a third peer alike. */
  lemma TakeAlike(s: DocState, d: DocState, x: Cell)
    requires Alike(s, d) && Enabled(s, x)
    ensures Enabled(d, x) && Alike(Receive(s, x), Receive(d, x))
  {
    hide Find, Integrate, Inv;
    var c := x.(home := Resolve(s.store, x));
    EnabledLeft(s, d, x);
    var k := KeyOf(c);
    assert SameList(ChainOf(s.chains, k), ChainOf(d.chains, k), k);
    if k.sub.Some? {
      HeadAfter(ChainOf(s.chains, k), c);
      HeadAfter(ChainOf(d.chains, k), c);
    }
    MirrorsMore(s, d, Receive(s, x), Receive(d, x), k);
    EnabledFits(s, x);
    EnabledFits(d, x);
    ReceiveKeepsInv(s, x);
    ReceiveKeepsInv(d, x);
  }

  lemma {:induction false} TakeAllAlike(s: DocState, d: DocState, items: seq<Cell>)
    requires Alike(s, d) && Flows(s, items)
    ensures Flows(d, items) && Alike(Deliver(s, items), Deliver(d, items))
    decreases |items|
  {
    hide Alike, Enabled, Receive;
    if items != [] {
      TakeAlike(s, d, items[0]);
      TakeAllAlike(Receive(s, items[0]), Receive(d, items[0]), items[1..]);
    }
  }

  // What is deleted.

  ghost predicate ListMarks(chain: seq<Cell>, dead: set<Id>, known: DeleteSet) {
    forall c :: c in chain ==> (c.id in dead <==> InDeleteSet(known, c.id))
  }

  /** A listed item is deleted exactly if its first clock is known to be. */
  ghost predicate Marks(s: DocState, known: DeleteSet) {
    forall k: Key :: ListMarks(ChainOf(s.chains, k), s.dead, known)
  }

  /** What is known to be deleted is what was received and what was deleted here, which is stored. */
  ghost predicate Sound(s: DocState, me: nat, known: DeleteSet) {
    && (forall id :: InDeleteSet(s.ds, id) ==> InDeleteSet(known, id))
    && (forall id :: InDeleteSet(known, id) && !Held(s, id) ==> InDeleteSet(s.ds, id))
    && Existing(s, me, s.ds)
  }

  /** A peer, what it knows to be deleted, and a document that got the same items in the same order and no deletions. */
  ghost predicate Follows(s: DocState, me: nat, d: DocState, known: DeleteSet) {
    Alike(s, d) && Marks(s, known) && Sound(s, me, known)
  }

  lemma MergeNothing(known: DeleteSet)
    ensures forall id :: InDeleteSet(Merge(known, map[]), id) <==> InDeleteSet(known, id)
  {
    hide InDeleteSet;
    MergeCovers(known, map[]);
    assert forall id :: !InDeleteSet(map[], id) by { NothingDeleted(); }
  }

  lemma NothingDeleted()
    ensures forall id :: !InDeleteSet(map[], id)
  {
  }

  /** A new item is not known to be deleted, and a list may gain it. */
  lemma MarksMore(s: DocState, me: nat, t: DocState, known: DeleteSet, k: Key, c: Cell)
    requires Inv(s) && Marks(s, known) && Sound(s, me, known) && c.id == NextId(s, me) && c.len >= 1 && t.store == Append(s.store, c) && t.ds == s.ds
    requires s.dead <= t.dead && forall l: Key, x :: x in ChainOf(t.chains, l) && x.id in t.dead ==> x.id in s.dead
    requires forall l: Key, x :: x in ChainOf(t.chains, l) ==> x == c || x in ChainOf(s.chains, l)
    ensures Marks(t, Merge(known, map[])) && Sound(t, me, Merge(known, map[]))
  {
    hide InDeleteSet, Merge, Find, Inv;
    MergeNothing(known);
    IdIsNew(s, me);
    forall l: Key ensures ListMarks(ChainOf(t.chains, l), t.dead, Merge(known, map[])) {
      assert ListMarks(ChainOf(s.chains, l), s.dead, known);
    }
    forall id ensures Held(s, id) ==> Held(t, id) {
      LookupAfterAppend(s.store, c, id);
    }
    StateAfterAppend(s.store, c, me);
  }

  lemma AddKeeps(s: DocState, me: nat, d: DocState, known: DeleteSet, name: Name, p: nat, content: Content)
    requires Follows(s, me, d, known) && Possible(s, me, Add(name, p, content)) && Fair(s, me, Add(name, p, content))
    ensures var c := NewItem(s, me, name, p, content);
            Follows(PutAt(s, ArrayKey(name), p, c), me, Receive(d, Wire(c)), Merge(known, map[]))
  {
    hide Receive, Integrate, Enabled, Wire, Inv, Mirrors, Origin, Marks, Sound;
    var key, c := ArrayKey(name), NewItem(s, me, name, p, content);
    var t := PutAt(s, key, p, c);
    AddArrives(s, me, d, name, p, content);
    AddAgrees(s, me, d, name, p, content);
    EnabledFits(d, Wire(c));
    ReceiveKeepsInv(d, Wire(c));
    PutKeepsInv(s, key, p, c);
    InsertAtElements(ChainOf(s.chains, key), p, c);
    MarksMore(s, me, t, known, key, c);
  }

  lemma AssignKeeps(s: DocState, me: nat, d: DocState, known: DeleteSet, name: Name, key: Name, v: Any)
    requires Follows(s, me, d, known) && name != [] && Fair(s, me, Assign(name, key, v))
    ensures Follows(Step(s, me, Assign(name, key, v)), me, Receive(d, Entry(s, me, name, key, v)), Merge(known, map[]))
  {
    hide Receive, Integrate, Enabled, Wire, Inv, Mirrors, Marks, Sound;
    var k, c := EntryKey(name, key), Entry(s, me, name, key, v);
    var t := Step(s, me, Assign(name, key, v));
    AssignArrives(s, me, d, name, key, v);
    AssignAgrees(s, me, d, name, key, v);
    EnabledFits(d, c);
    ReceiveKeepsInv(d, c);
    IdIsNew(s, me);
    SetKeepsInv(s, me, name, key, v);
    var was := ChainOf(s.chains, k);
    forall l: Key, x | x in ChainOf(t.chains, l) ensures x.id in t.dead ==> x.id in s.dead {
      if l != k && was != [] && x.id == was[0].id { ListsApart(s, k, l, was[0], x); }
      if l == k && was != [] { assert was[0] in was; }
    }
    MarksMore(s, me, t, known, k, c);
  }

  /** Deleting a listed item. */
  lemma EraseKeeps(s: DocState, me: nat, d: DocState, known: DeleteSet, k: Key, i: nat)
    requires Follows(s, me, d, known) && Possible(s, me, Erase(k, i))
    ensures Follows(Step(s, me, Erase(k, i)), me, d, Merge(known, Deleted(s, me, Erase(k, i))))
  {
    hide Find, Merge, InDeleteSet, Inv, Mirrors;
    var c, t, more := ChainOf(s.chains, k)[i], Step(s, me, Erase(k, i)), Deleted(s, me, Erase(k, i));
    assert IdsOf([c]) == {c.id} && t == s.(dead := s.dead + IdsOf([c]));
    MarkedInv(s, k, c);
    SameMirror(s, d, t.dead);
    MergeCovers(known, more);
    forall l: Key ensures ListMarks(ChainOf(t.chains, l), t.dead, Merge(known, more)) {
      assert ListMarks(ChainOf(s.chains, l), s.dead, known);
      forall x | x in ChainOf(s.chains, l) ensures InDeleteSet(more, x.id) <==> x.id == c.id {
        OneRange(c, x.id);
        ItsOwnId(s, k, l, c, x);
      }
    }
    forall id | InDeleteSet(more, id) ensures Held(s, id) {
      OneRange(c, id);
      ListedHeld(s, k, c, id);
    }
  }

  lemma MarkedInv(s: DocState, k: Key, c: Cell)
    requires Inv(s) && c in ChainOf(s.chains, k)
    ensures Inv(s.(dead := s.dead + {c.id}))
  {
    hide Find;
    assert ChainOk(s.store, s.chains[k], k) && InStore(s.store, c);
    assert c.len >= 1;
    FindIsUnique(ItemsOf(s.store, c.id.client), c.id.client, c.id, c);
  }

  lemma OneRange(c: Cell, id: Id)
    ensures InDeleteSet(map[c.id.client := [Range(c.id.clock, c.len)]], id) <==> Covers(c, id)
  {
    var ds := map[c.id.client := [Range(c.id.clock, c.len)]];
    assert Range(c.id.clock, c.len) in ds[c.id.client];
  }

  lemma ListedHeld(s: DocState, k: Key, c: Cell, id: Id)
    requires Inv(s) && c in ChainOf(s.chains, k) && Covers(c, id)
    ensures Held(s, id) && Lookup(s.store, id) == Some(c)
  {
    assert ChainOk(s.store, s.chains[k], k) && InStore(s.store, c);
    FindIsUnique(ItemsOf(s.store, c.id.client), c.id.client, id, c);
  }

  lemma ItsOwnId(s: DocState, k: Key, l: Key, c: Cell, x: Cell)
    requires Inv(s) && c in ChainOf(s.chains, k) && x in ChainOf(s.chains, l)
    ensures Covers(c, x.id) <==> x.id == c.id
  {
    assert ChainOk(s.store, s.chains[k], k) && InStore(s.store, c) && ChainOk(s.store, s.chains[l], l) && InStore(s.store, x);
    assert c.len >= 1 && x.len >= 1;
    ListedHeld(s, l, x, x.id);
    if Covers(c, x.id) { ListedHeld(s, k, c, x.id); }
  }

  /** What a delivery does to the flags and the lists of what was there. */
  lemma {:induction false} DeliverDead(s: DocState, items: seq<Cell>)
    requires Inv(s) && Flows(s, items) && NoneGone(items)
    ensures var t := Deliver(s, items);
            && Inv(t) && t.ds == s.ds && s.dead <= t.dead && (forall id :: id in t.dead ==> id in s.dead || InDeleteSet(s.ds, id))
            && (forall k: Key, c :: c in ChainOf(t.chains, k) ==> c in ChainOf(s.chains, k) || !Held(s, c.id))
            && (forall id :: Held(s, id) ==> Held(t, id))
    decreases |items|
  {
    hide Find, Integrate, Inv, InDeleteSet;
    if items != [] {
      var x := items[0];
      var c, t := x.(home := Resolve(s.store, x)), Receive(s, x);
      EnabledFits(s, x);
      ReceiveKeepsInv(s, x);
      ReceivedList(s, x, c);
      forall id ensures Held(s, id) ==> Held(t, id) {
        LookupAfterAppend(s.store, c, id);
      }
      DeliverDead(t, items[1..]);
    }
  }

  lemma ReceivedList(s: DocState, x: Cell, c: Cell)
    requires Enabled(s, x) && c == x.(home := Resolve(s.store, x))
    ensures forall k: Key, y :: y in ChainOf(Receive(s, x).chains, k) ==> y == c || y in ChainOf(s.chains, k)
  {
    hide Find, InsertAt;
    var k := KeyOf(c);
    InsertAtElements(ChainOf(s.chains, k), Place(ChainOf(s.chains, k), c), c);
  }

  /** Applying an update marks, beside what was marked, what the delete set covers, and leaves the items to the delivery. */
  lemma ApplyMarks(s: DocState, me: nat, u: Update, order: seq<ClientRange>)
    requires Inv(s) && Possible(s, me, Apply(u, order))
    ensures var t, s', ds := ApplyUpdate(s, u, order), Deliver(s, u.items), Merge(s.ds, u.ranges);
            && Inv(t) && SameItems(t, s') && t.ds == ds && (forall id :: Held(s, id) ==> Held(t, id))
            && (forall k: Key, c :: c in ChainOf(t.chains, k) ==> c in ChainOf(s.chains, k) || !Held(s, c.id))
            && (forall k: Key, c :: c in ChainOf(t.chains, k) ==> (c.id in t.dead <==> c.id in s.dead || InDeleteSet(ds, c.id)))
  {
    hide Inv, InDeleteSet, Merge, Find, Enabled, Receive, UnitStore, ApplyRange;
    var ds := Merge(s.ds, u.ranges);
    var s' := s.(ds := ds);
    InvIgnoresDs(s, ds);
    DsIgnored(s, ds);
    DeliverSame(s, s', u.items);
    DeliverDead(s', u.items);
    var d := Deliver(s', u.items);
    forall id ensures InSomeRange(order, id) <==> InDeleteSet(ds, id) {
      VisitsCovers(order, ds, id);
    }
    if order == [] {
      assert forall id :: !InSomeRange(order, id);
    } else {
      assert UnitStore(s') by { UnitsIgnoreDs(s, ds); }
      UnitsDelivered(s', u.items);
      ApplyAllToUnits(d, order);
      var t := ApplyAll(d, order);
      forall k: Key, c | c in ChainOf(t.chains, k) ensures c.id in t.dead <==> c.id in s.dead || InDeleteSet(ds, c.id) {
        ListedDead(t, k, c);
        ListedDead(d, k, c);
        assert IsDead(t, c.id) <==> IsDead(d, c.id) || (Held(d, c.id) && InSomeRange(order, c.id));
      }
    }
  }

  lemma UnitsIgnoreDs(s: DocState, ds: DeleteSet)
    requires UnitStore(s)
    ensures UnitStore(s.(ds := ds))
  {
  }

  lemma {:induction false} UnitsDelivered(s: DocState, items: seq<Cell>)
    requires UnitStore(s) && AllUnits(items)
    ensures UnitStore(Deliver(s, items))
    decreases |items|
  {
    hide UnitStore, Receive;
    if items != [] {
      UnitsAfterReceive(s, items[0]);
      UnitsDelivered(Receive(s, items[0]), items[1..]);
    }
  }

  lemma ListedDead(s: DocState, k: Key, c: Cell)
    requires Inv(s) && c in ChainOf(s.chains, k)
    ensures Held(s, c.id) && (IsDead(s, c.id) <==> c.id in s.dead)
  {
    assert ChainOk(s.store, s.chains[k], k) && InStore(s.store, c);
    assert c.len >= 1;
    ListedHeld(s, k, c, c.id);
  }

  lemma ApplyKeeps(s: DocState, me: nat, d: DocState, known: DeleteSet, u: Update, order: seq<ClientRange>)
    requires Follows(s, me, d, known) && Possible(s, me, Apply(u, order))
    ensures Flows(d, u.items) && Follows(ApplyUpdate(s, u, order), me, Deliver(d, u.items), Merge(known, u.ranges))
  {
    hide Inv, InDeleteSet, Merge, Enabled, Receive, UnitStore, ApplyUpdate, Deliver, Mirrors, Visits, Held;
    var t, more := ApplyUpdate(s, u, order), Merge(known, u.ranges);
    TakeAllAlike(s, d, u.items);
    ApplyMarks(s, me, u, order);
    SameMirrors(Deliver(s, u.items), t, Deliver(d, u.items));
    MergeCovers(known, u.ranges);
    MergeCovers(s.ds, u.ranges);
    forall k: Key ensures ListMarks(ChainOf(t.chains, k), t.dead, more) {
      assert ListMarks(ChainOf(s.chains, k), s.dead, known);
      forall c | c in ChainOf(t.chains, k) ensures c.id in t.dead <==> InDeleteSet(more, c.id) {
        if !Held(s, c.id) { DeadHeld(s, c.id); }
      }
    }
    StateGrows(s, me, u, order);
  }

  lemma DeadHeld(s: DocState, id: Id)
    requires Inv(s) && !Held(s, id)
    ensures id !in s.dead
  {
    assert id in s.dead ==> IsStart(s.store, id);
  }

  lemma SameMirrors(s: DocState, t: DocState, d: DocState)
    requires Mirrors(s, d) && SameItems(t, s)
    ensures Mirrors(t, d)
  {
    forall k: Key ensures SameList(ChainOf(t.chains, k), ChainOf(d.chains, k), k) {
      assert SameList(ChainOf(s.chains, k), ChainOf(d.chains, k), k);
    }
  }

  /** The state of a client never falls. */
  lemma StateGrows(s: DocState, me: nat, u: Update, order: seq<ClientRange>)
    requires Inv(s) && Possible(s, me, Apply(u, order))
    ensures StateOf(ApplyUpdate(s, u, order).store, me) >= StateOf(s.store, me)
  {
    hide Find, Enabled, Receive;
    ApplyMarks(s, me, u, order);
    DeliverState(s, u.items, me);
  }

  lemma {:induction false} DeliverState(s: DocState, items: seq<Cell>, me: nat)
    requires Flows(s, items)
    ensures StateOf(Deliver(s, items).store, me) >= StateOf(s.store, me)
    decreases |items|
  {
    hide Find;
    if items != [] {
      var x := items[0];
      StateAfterAppend(s.store, x.(home := Resolve(s.store, x)), me);
      DeliverState(Receive(s, x), items[1..], me);
    }
  }

  /**
   * One step. The other peers can always take what a peer sends; they end up with the lists and the
   * map entries of the sender if and only if the sender put it fairly.
   */
  lemma StepAgrees(s: DocState, me: nat, d: DocState, a: Act)
    requires Alike(s, d) && Possible(s, me, a)
    ensures Flows(d, Sent(s, me, a))
    ensures Mirrors(Step(s, me, a), Deliver(d, Sent(s, me, a))) <==> Fair(s, me, a)
  {
    hide Mirrors, Enabled, Receive, Integrate, NewItem, PutAt, Before, Inv, ApplyUpdate, Existing, Visits;
    match a {
      case Add(name, p, content) =>
        AddArrives(s, me, d, name, p, content);
        AddAgrees(s, me, d, name, p, content);
        DeliverOne(d, Wire(NewItem(s, me, name, p, content)));
      case Assign(name, key, v) =>
        AssignArrives(s, me, d, name, key, v);
        AssignAgrees(s, me, d, name, key, v);
        DeliverOne(d, Entry(s, me, name, key, v));
      case Erase(k, i) => SameMirror(s, d, Step(s, me, a).dead);
      case Apply(u, order) =>
        TakeAllAlike(s, d, u.items);
        ApplyMarks(s, me, u, order);
        SameMirrors(Deliver(s, u.items), ApplyUpdate(s, u, order), Deliver(d, u.items));
    }
  }

  /** After a fair step a peer still follows, and knows what it deleted or learnt. */
  lemma StepFollows(s: DocState, me: nat, d: DocState, known: DeleteSet, a: Act)
    requires Follows(s, me, d, known) && Possible(s, me, a) && Fair(s, me, a)
    ensures Flows(d, Sent(s, me, a))
    ensures Follows(Step(s, me, a), me, Deliver(d, Sent(s, me, a)), Merge(known, Deleted(s, me, a)))
  {
    hide Marks, Sound, Mirrors, Enabled, Receive, Integrate, NewItem, PutAt, Before, Inv, ApplyUpdate, Existing, Visits, Merge;
    StepAgrees(s, me, d, a);
    match a {
      case Add(name, p, content) =>
        AddKeeps(s, me, d, known, name, p, content);
        DeliverOne(d, Wire(NewItem(s, me, name, p, content)));
      case Assign(name, key, v) =>
        AssignKeeps(s, me, d, known, name, key, v);
        AssignArrives(s, me, d, name, key, v);
        DeliverOne(d, Entry(s, me, name, key, v));
      case Erase(k, i) => EraseKeeps(s, me, d, known, k, i);
      case Apply(u, order) => ApplyKeeps(s, me, d, known, u, order);
    }
  }

  // Whole runs.

  ghost predicate AllPossible(s: DocState, me: nat, acts: seq<Act>)
    decreases |acts|
  {
    acts == [] || (Possible(s, me, acts[0]) && AllPossible(Step(s, me, acts[0]), me, acts[1..]))
  }

  ghost predicate AllFair(s: DocState, me: nat, acts: seq<Act>)
    requires AllPossible(s, me, acts)
    decreases |acts|
  {
    acts == [] || (Fair(s, me, acts[0]) && AllFair(Step(s, me, acts[0]), me, acts[1..]))
  }

  ghost function AllSent(s: DocState, me: nat, acts: seq<Act>): seq<Cell>
    requires AllPossible(s, me, acts)
    decreases |acts|
  {
    if acts == [] then [] else Sent(s, me, acts[0]) + AllSent(Step(s, me, acts[0]), me, acts[1..])
  }

  ghost function AllDeleted(s: DocState, me: nat, known: DeleteSet, acts: seq<Act>): DeleteSet
    requires AllPossible(s, me, acts)
    decreases |acts|
  {
    if acts == [] then known
    else AllDeleted(Step(s, me, acts[0]), me, Merge(known, Deleted(s, me, acts[0])), acts[1..])
  }

  ghost function Steps(s: DocState, me: nat, acts: seq<Act>): DocState
    requires AllPossible(s, me, acts)
    decreases |acts|
  {
    if acts == [] then s else Steps(Step(s, me, acts[0]), me, acts[1..])
  }

  lemma {:induction false} RunFollows(s: DocState, me: nat, d: DocState, known: DeleteSet, acts: seq<Act>)
    requires Follows(s, me, d, known) && AllPossible(s, me, acts) && AllFair(s, me, acts)
    ensures Flows(d, AllSent(s, me, acts))
    ensures Follows(Steps(s, me, acts), me, Deliver(d, AllSent(s, me, acts)), AllDeleted(s, me, known, acts))
    decreases |acts|
  {
    hide Follows, Enabled, Receive, Sent, Step, Fair, Possible, Deleted, Merge;
    if acts != [] {
      var a := acts[0];
      StepFollows(s, me, d, known, a);
      var e := Deliver(d, Sent(s, me, a));
      RunFollows(Step(s, me, a), me, e, Merge(known, Deleted(s, me, a)), acts[1..]);
      DeliverConcat(d, Sent(s, me, a), AllSent(Step(s, me, a), me, acts[1..]));
    }
  }

  lemma FollowReads(s: DocState, me: nat, t: DocState, you: nat, d: DocState, known: DeleteSet, same: DeleteSet, name: Name, key: Name)
    requires Follows(s, me, d, known) && Follows(t, you, d, same)
    requires forall id :: InDeleteSet(known, id) <==> InDeleteSet(same, id)
    ensures ToSlice(s, name) == ToSlice(t, name) && Get(s, name, key) == Get(t, name, key)
  {
    hide InDeleteSet, Inv, Sound;
    var a, e := ArrayKey(name), EntryKey(name, key);
    assert SameList(ChainOf(s.chains, a), ChainOf(d.chains, a), a) && SameList(ChainOf(t.chains, a), ChainOf(d.chains, a), a);
    assert ListMarks(ChainOf(s.chains, a), s.dead, known) && ListMarks(ChainOf(t.chains, a), t.dead, same);
    VisibleSame(ChainOf(s.chains, a), s.dead, t.dead);
    assert SameList(ChainOf(s.chains, e), ChainOf(d.chains, e), e) && SameList(ChainOf(t.chains, e), ChainOf(d.chains, e), e);
    assert ListMarks(ChainOf(s.chains, e), s.dead, known) && ListMarks(ChainOf(t.chains, e), t.dead, same);
    var chain, other := ChainOf(s.chains, e), ChainOf(t.chains, e);
    assert (chain != [] ==> chain[0] in chain) && (other != [] ==> other[0] in other);
  }

  /**
   * Convergence of editing peers. Any two peers that edited fairly, deletions included, each merging
   * its own edits with the updates that it received in whatever order, and that have seen the same
   * items and the same deletions, show the same arrays and the same map values.
   */
  lemma PeersConverge(me: nat, acts: seq<Act>, you: nat, others: seq<Act>, name: Name, key: Name)
    requires AllPossible(EMPTY, me, acts) && AllFair(EMPTY, me, acts)
    requires AllPossible(EMPTY, you, others) && AllFair(EMPTY, you, others)
    requires multiset(AllSent(EMPTY, me, acts)) == multiset(AllSent(EMPTY, you, others))
    requires forall id :: InDeleteSet(AllDeleted(EMPTY, me, map[], acts), id) <==> InDeleteSet(AllDeleted(EMPTY, you, map[], others), id)
    ensures var s, t := Steps(EMPTY, me, acts), Steps(EMPTY, you, others);
            ToSlice(s, name) == ToSlice(t, name) && Get(s, name, key) == Get(t, name, key)
  {
    hide Follows, AllPossible, AllFair, AllSent, AllDeleted, Steps, Deliver, Flows, InDeleteSet;
    NothingFollows(me);
    NothingFollows(you);
    RunFollows(EMPTY, me, EMPTY, map[], acts);
    RunFollows(EMPTY, you, EMPTY, map[], others);
    EmptyReplica();
    Converges(EMPTY, AllSent(EMPTY, me, acts), AllSent(EMPTY, you, others));
    FollowReads(Steps(EMPTY, me, acts), me, Steps(EMPTY, you, others), you, Deliver(EMPTY, AllSent(EMPTY, me, acts)),
                AllDeleted(EMPTY, me, map[], acts), AllDeleted(EMPTY, you, map[], others), name, key);
  }

  lemma NothingFollows(me: nat)
    ensures Follows(EMPTY, me, EMPTY, map[])
  {
  }

  // What goes wrong without fairness, although no edit is concurrent with another one.

  /** The first item of a client in a list of its own: an array element, or a map entry. */
  function First(client: nat, name: Name, sub: Option<Name>, v: Any): Cell {
    Cell(Id(client, 0), 1, None, None, Some(name), sub, Val(v))
  }

  function Alone(c: Cell): DocState
    requires c.home.Some?
  {
    DocState(map[c.id.client := [c]], map[KeyOf(c) := [c]], map[], {})
  }

  lemma OneStep(s: DocState, me: nat, a: Act)
    requires Possible(s, me, a)
    ensures AllPossible(s, me, [a]) && AllSent(s, me, [a]) == Sent(s, me, a) && Steps(s, me, [a]) == Step(s, me, a)
  {
    hide Possible, Step, Sent;
    assert [a][1..] == [];
  }

  /** An update with one item and no deletions. */
  lemma TakesOne(s: DocState, me: nat, x: Cell)
    requires Enabled(s, x) && !x.content.Gone? && s.ds == map[]
    ensures var a := Apply(Update([x], map[]), []); Possible(s, me, a) && Sent(s, me, a) == [x] && Step(s, me, a) == Receive(s, x)
  {
    hide Enabled, Receive;
    var none: DeleteSet := map[];
    assert Merge(none, none) == none;
    assert s.(ds := none) == s;
    assert Deliver(s, [x]) == Receive(s, x) && Flows(s, [x]) by {
      assert [x][1..] == [];
      DeliverOne(s, x);
      assert Flows(Receive(s, x), []);
    }
    assert Visits([], none);
    assert ApplyAll(Receive(s, x), []) == Receive(s, x);
  }

  lemma TwoSteps(s: DocState, me: nat, a: Act, b: Act)
    requires Possible(s, me, a) && Possible(Step(s, me, a), me, b)
    ensures AllPossible(s, me, [a, b]) && AllSent(s, me, [a, b]) == Sent(s, me, a) + Sent(Step(s, me, a), me, b)
    ensures Steps(s, me, [a, b]) == Step(Step(s, me, a), me, b)
  {
    hide Possible, Step, Sent;
    OneStep(Step(s, me, a), me, b);
    assert [a, b][0] == a && [a, b][1..] == [b];
  }

  lemma FirstIs(client: nat, name: Name, sub: Option<Name>, v: Any)
    requires name != []
    ensures var c := First(client, name, sub, v);
            && Wire(c) == c && Enabled(EMPTY, c) && Receive(EMPTY, c) == Alone(c)
            && (sub.None? ==> Step(EMPTY, client, Add(name, 0, Val(v))) == Alone(c))
            && (sub.Some? ==> Step(EMPTY, client, Assign(name, sub.value, v)) == Alone(c))
  {
    var c := First(client, name, sub, v);
    PlaceAt([], c, 0);
    assert Integrate([], c) == [c] && c.(home := Resolve(EMPTY.store, c)) == c && !BornDead(map[], c);
    assert ItemsOf(EMPTY.store, client) + [c] == [c] && ChainOf(EMPTY.chains, KeyOf(c)) == [];
    assert Append(EMPTY.store, c) == map[client := [c]] && Link(EMPTY.chains, c) == map[KeyOf(c) := [c]];
  }

  /** The second item goes, where integrateItem puts it, after the first one of a greater client. */
  lemma SecondTaken(name: Name, sub: Option<Name>, v: Any, w: Any)
    ensures var x, y := First(1, name, sub, v), First(2, name, sub, w);
            && Enabled(Alone(y), x) && ChainOf(Receive(Alone(y), x).chains, KeyOf(y)) == [y, x] && Receive(Alone(y), x).dead == {}
  {
    var x, y := First(1, name, sub, v), First(2, name, sub, w);
    PlaceAt([y], x, 1);
    assert Integrate([y], x) == [y, x] && x.(home := Resolve(Alone(y).store, x)) == x;
  }

  /** Client 2 pushes w; client 1 receives it and inserts v at index 0; client 2 receives that. */
  lemma FrontInsertDiverges(name: Name, v: Any, w: Any)
    requires name != []
    ensures var x, y := First(1, name, None, v), First(2, name, None, w);
            var mine, yours := [Apply(Update([y], map[]), []), Add(name, 0, Val(v))], [Add(name, 0, Val(w)), Apply(Update([x], map[]), [])];
            && AllPossible(EMPTY, 1, mine) && AllPossible(EMPTY, 2, yours)
            && AllSent(EMPTY, 1, mine) == [y, x] && AllSent(EMPTY, 2, yours) == [y, x]
            && ChainOf(Steps(EMPTY, 1, mine).chains, ArrayKey(name)) == [x, y]
            && ChainOf(Steps(EMPTY, 2, yours).chains, ArrayKey(name)) == [y, x]
  {
    hide Receive, Enabled;
    var x, y := First(1, name, None, v), First(2, name, None, w);
    FirstIs(2, name, None, w);
    FirstIs(1, name, None, v);
    SecondTaken(name, None, v, w);
    assert InsertAt([y], 0, x) == [x, y] && NewItem(Alone(y), 1, name, 0, Val(v)) == x && NewItem(EMPTY, 2, name, 0, Val(w)) == y;
    TakesOne(EMPTY, 1, y);
    TakesOne(Alone(y), 2, x);
    TwoSteps(EMPTY, 1, Apply(Update([y], map[]), []), Add(name, 0, Val(v)));
    TwoSteps(EMPTY, 2, Add(name, 0, Val(w)), Apply(Update([x], map[]), []));
  }

  lemma EntryAfter(name: Name, key: Name, v: Any, w: Any)
    ensures var x, y := First(1, name, Some(key), v), First(2, name, Some(key), w);
            && Entry(Alone(y), 1, name, key, v) == x && Entry(EMPTY, 2, name, key, w) == y
            && Get(Alone(y), name, key) == Some(Val(w)) && ChainOf(Alone(y).chains, EntryKey(name, key)) == [y]
  {
  }

  /** Client 2 sets a key to w; client 1 receives it and sets the key to v; client 2 receives that and keeps w. */
  lemma LaterSetLost(name: Name, key: Name, v: Any, w: Any)
    requires name != []
    ensures var x, y := First(1, name, Some(key), v), First(2, name, Some(key), w);
            var mine, yours := [Apply(Update([y], map[]), []), Assign(name, key, v)], [Assign(name, key, w), Apply(Update([x], map[]), [])];
            && AllPossible(EMPTY, 1, mine) && AllPossible(EMPTY, 2, yours)
            && AllSent(EMPTY, 1, mine) == [y, x] && AllSent(EMPTY, 2, yours) == [y, x]
            && Get(Steps(EMPTY, 1, mine), name, key) == Some(Val(v)) && Get(Steps(EMPTY, 2, yours), name, key) == Some(Val(w))
  {
    hide Receive, Enabled, Alone;
    var x, y := First(1, name, Some(key), v), First(2, name, Some(key), w);
    FirstIs(2, name, Some(key), w);
    FirstIs(1, name, Some(key), v);
    SecondTaken(name, Some(key), v, w);
    EntryAfter(name, key, v, w);
    TakesOne(EMPTY, 1, y);
    TakesOne(Alone(y), 2, x);
    TwoSteps(EMPTY, 1, Apply(Update([y], map[]), []), Assign(name, key, v));
    TwoSteps(EMPTY, 2, Assign(name, key, w), Apply(Update([x], map[]), []));
  }

  // Insertion inside of an item.

  /**
   * An item that arrives goes right after the character it was typed after if and only if that
   * character is the last one of its item there, and the item belongs before the next one.
   */
  lemma RightAfterOriginIff(chain: seq<Cell>, x: Cell)
    requires x.left.Some? && x.right.None? && IndexOf(chain, x.left.value) < |chain|
    requires Disjoint(chain) && forall c :: c in chain ==> c.len >= 1
    ensures var i, p := IndexOf(chain, x.left.value), Place(chain, x);
            p > 0 && (LastId(chain[p - 1]) == x.left.value <==>
                        LastId(chain[i]) == x.left.value && (i + 1 == |chain| || Before(x, chain[i + 1])))
  {
    hide IndexOf;
    var i, p := IndexOf(chain, x.left.value), Place(chain, x);
    assert chain[i] in chain && Covers(chain[i], x.left.value);
    if p > i + 1 {
      assert !Stops(x, chain[i + 1]);
      NotAfterwards(chain, i, p - 1, x.left.value);
    }
  }

  lemma NotAfterwards(chain: seq<Cell>, i: nat, j: nat, id: Id)
    requires Disjoint(chain) && i < j < |chain| && Covers(chain[i], id) && chain[j].len >= 1
    ensures LastId(chain[j]) != id
  {
    assert NoOverlap(chain[i], chain[j]);
  }

  lemma UnitsOfList(c: Cell, rest: seq<Cell>)
    ensures Units([c] + rest) == UnitsOf(c) + Units(rest) && Units([]) == []
  {
    UnitsCons(c, rest);
  }

  /** A client types "ab" and then, in another transaction, c between the two; the others show c at the end. */
  lemma InsertInsideMoves(me: nat, name: Name, a: Rune, b: Rune, c: Rune)
    ensures var o := Cell(Id(me, 0), 2, None, None, Some(name), None, Str([a, b]));
            var x := Cell(Id(me, 2), 1, Some(Id(me, 0)), None, Some(name), None, Str([c]));
            var mine, theirs := InsertAt(SplitSeq([o], Id(me, 1)), 1, x), Integrate([o], x);
            && Units(mine) == [Char(Id(me, 0), a), Char(Id(me, 2), c), Char(Id(me, 1), b)]
            && Units(theirs) == [Char(Id(me, 0), a), Char(Id(me, 1), b), Char(Id(me, 2), c)]
  {
    var o := Cell(Id(me, 0), 2, None, None, Some(name), None, Str([a, b]));
    var x := Cell(Id(me, 2), 1, Some(Id(me, 0)), None, Some(name), None, Str([c]));
    var at := Id(me, 1);
    PlaceAt([o], x, 1);
    var l, r := LeftPart(o, at), RightPart(o, at);
    assert SplitSeq([o], at) == [l, r] && InsertAt([l, r], 1, x) == [l, x, r] && Integrate([o], x) == [o, x];
    assert [l] + [x, r] == [l, x, r] && [x] + [r] == [x, r] && [o] + [x] == [o, x] && [r] + [] == [r] && [x] + [] == [x];
    UnitsOfList(l, [x, r]);
    UnitsOfList(x, [r]);
    UnitsOfList(r, []);
    UnitsOfList(o, [x]);
    UnitsOfList(x, []);
  }
}
