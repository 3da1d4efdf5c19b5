/**
 * What the edits of one author amount to: every operation of Array and Map is the plain edit of a
 * sequence or of an optional value, and leaves a document that integrateItem could have built.
 */
module LocalEdits {
  import opened Wrappers
  import opened Values
  import opened Ids
  import opened Cells
  import opened Integration
  import opened UnitReplicas
  import opened Authoring

  datatype Op =
    | Push(name: Name, values: seq<Any>)
    | Insert(name: Name, index: nat, values: seq<Any>)
    | Delete(name: Name, index: nat, length: nat)
    | Set(name: Name, key: Name, value: Any)
    | Remove(name: Name, key: Name)

  function Do(tx: Tx, me: nat, op: Op): Tx {
    match op
    case Push(name, values) => Authoring.Push(tx, me, name, values)
    case Insert(name, index, values) => Authoring.Insert(tx, me, name, index, values)
    case Delete(name, index, length) => Authoring.Delete(tx, name, index, length)
    case Set(name, key, value) => Authoring.Set(tx, me, name, key, value)
    case Remove(name, key) => Authoring.Remove(tx, name, key)
  }

  function DoAll(tx: Tx, me: nat, ops: seq<Op>): Tx
    decreases |ops|
  {
    if ops == [] then tx else DoAll(Do(tx, me, ops[0]), me, ops[1..])
  }

  /** What an operation means for the array of a name, as a plain sequence. */
  function EditArray(op: Op, name: Name, xs: seq<Content>): seq<Content> {
    match op
    case Push(n, values) => if n == name then xs + AsContents(values) else xs
    case Insert(n, index, values) =>
      if n == name then xs[..Min(index, |xs|)] + AsContents(values) + xs[Min(index, |xs|)..] else xs
    case Delete(n, index, length) =>
      if n == name then xs[..Min(index, |xs|)] + xs[Min(index + length, |xs|)..] else xs
    case Set(_, _, _) => xs
    case Remove(_, _) => xs
  }

  /** What an operation means for the value of a key of a map. */
  function EditEntry(op: Op, name: Name, key: Name, x: Option<Content>): Option<Content> {
    match op
    case Set(n, k, value) => if n == name && k == key then Some(Val(value)) else x
    case Remove(n, k) => if n == name && k == key then None else x
    case Push(_, _) => x
    case Insert(_, _, _) => x
    case Delete(_, _, _) => x
  }

  /** An item that this client made: an array element, a map entry, or a string of a text. */
  predicate Own(c: Cell, me: nat) {
    && c.id.client == me && Sized(c) && c.home.Some? && c.home.value != [] && c.right.None?
    && (if c.content.Str? then c.sub.None? else c.content.Val? && c.len == 1)
    && (c.sub.Some? ==> c.left.None?)
  }

  predicate ListOk(chain: seq<Cell>, k: Key) {
    if k.sub.None? then Authored(chain) else |chain| <= 1
  }

  /** A document that only this client edits, and that has received nothing. */
  ghost predicate Local(s: DocState, me: nat) {
    && Inv(s) && Placed(s) && s.ds == map[]
    && (forall c :: InStore(s.store, c) ==> Own(c, me))
    && (forall k :: k in s.chains ==> ListOk(s.chains[k], k))
  }

  lemma LocalIsFresh(s: DocState, me: nat)
    requires Local(s, me)
    ensures FreshIds(s, me)
  {
    forall id | id in s.dead && id.client == me ensures id.clock < StateOf(s.store, me) {
      assert IsStart(s.store, id);
      StoredBelow(s, Lookup(s.store, id).value);
    }
  }

  lemma StoredBelow(s: DocState, c: Cell)
    requires Inv(s) && InStore(s.store, c)
    ensures c.id.clock < End(c) <= StateOf(s.store, c.id.client)
  {
    SortedBelow(ItemsOf(s.store, c.id.client), c.id.client, StateOf(s.store, c.id.client));
  }

  /** The lists of an author hold disjoint items of that author, all below the next clock. */
  lemma ListOf(s: DocState, me: nat, k: Key)
    requires Local(s, me)
    ensures var chain := ChainOf(s.chains, k);
            && ListOk(chain, k) && OfClient(chain, me, StateOf(s.store, me)) && Disjoint(chain) && DistinctIds(chain)
            && forall c :: c in chain ==> InStore(s.store, c) && c.home.Some? && KeyOf(c) == k && Own(c, me)
  {
    var chain := ChainOf(s.chains, k);
    assert ChainOk(s.store, chain, k);
    forall c | c in chain ensures InStore(s.store, c) && Own(c, me) && End(c) <= StateOf(s.store, me) && c.len >= 1 {
      StoredBelow(s, c);
    }
    forall i, j | 0 <= i < j < |chain| ensures NoOverlap(chain[i], chain[j]) {
      assert chain[i] in chain && chain[j] in chain && chain[i].id != chain[j].id;
      SortedApart(ItemsOf(s.store, me), me, chain[i], chain[j]);
    }
  }

  lemma SortedApart(items: seq<Cell>, client: nat, c: Cell, d: Cell)
    requires Sorted(items, client) && c in items && d in items && c.id != d.id
    ensures NoOverlap(c, d)
  {
    var i :| 0 <= i < |items| && items[i] == c;
    var j :| 0 <= j < |items| && items[j] == d;
    assert i != j;
  }

  /** Different lists share no item. */
  lemma ListsApart(s: DocState, k: Key, l: Key, c: Cell, d: Cell)
    requires Inv(s) && c in ChainOf(s.chains, k) && d in ChainOf(s.chains, l) && c.id == d.id
    ensures c == d && k == l
  {
    assert ChainOk(s.store, s.chains[k], k) && ChainOk(s.store, s.chains[l], l);
    var items := ItemsOf(s.store, c.id.client);
    assert c.len >= 1 && d.len >= 1;
    FindIsUnique(items, c.id.client, c.id, c);
    FindIsUnique(items, c.id.client, c.id, d);
  }

  /** What an item looks like on the wire: the parent only without origins, and an empty name is none. */
  function Wire(c: Cell): Cell {
    c.(home := if c.left.None? && c.right.None? && c.home != Some([]) then c.home else None)
  }

  /** An item that fits a place in the list of an array. */
  predicate FitsAt(s: DocState, me: nat, name: Name, p: nat, c: Cell) {
    && p <= |ChainOf(s.chains, ArrayKey(name))| && c.id == NextId(s, me) && Own(c, me)
    && c.home == Some(name) && c.sub.None? && c.left == Origin(ChainOf(s.chains, ArrayKey(name)), p)
  }

  /**
   * Local placement equals integration: what Array.Push and Array.Insert do to the document with
   * one element is what integrateItem does with the element as it is sent.
   */
  lemma ElementIsReceived(s: DocState, me: nat, name: Name, p: nat, c: Cell)
    requires Local(s, me) && FitsAt(s, me, name, p, c)
    ensures Fits(s, Wire(c)) && Lookup(s.store, c.id).None? && Resolve(s.store, Wire(c)) == Some(name)
    ensures Receive(s, Wire(c)) == PutAt(s, ArrayKey(name), p, c)
  {
    hide Integrate, Find;
    var key := ArrayKey(name);
    var chain := ChainOf(s.chains, key);
    ListOf(s, me, key);
    NotStored(s, me);
    if p > 0 {
      assert chain[p - 1] in chain;
      FindIsUnique(ItemsOf(s.store, me), me, c.left.value, chain[p - 1]);
    }
    LocalIsIntegrated(chain, me, p, c);
    assert KeyOf(c) == key && !BornDead(s.ds, c);
  }

  lemma NotStored(s: DocState, me: nat)
    requires StoreSorted(s.store)
    ensures Lookup(s.store, NextId(s, me)).None?
  {
    var c := Lookup(s.store, NextId(s, me));
    if c.Some? { StoredBelow(s, c.value); }
  }

  lemma ElementKeepsLocal(s: DocState, me: nat, name: Name, p: nat, c: Cell)
    requires Local(s, me) && FitsAt(s, me, name, p, c)
    ensures Local(PutAt(s, ArrayKey(name), p, c), me)
  {
    hide Inv, Placed, Find, Receive, ListOk, Origin;
    var key := ArrayKey(name);
    var chain, t := ChainOf(s.chains, key), PutAt(s, key, p, c);
    ElementIsReceived(s, me, name, p, c);
    ReceiveKeepsInv(s, Wire(c));
    ReceiveKeepsPlaced(s, Wire(c));
    ListOf(s, me, key);
    PutListOk(chain, me, p, c, key);
    forall d | InStore(t.store, d) ensures Own(d, me) {
      assert d == c || InStore(s.store, d);
    }
  }

  lemma PutListOk(chain: seq<Cell>, me: nat, p: nat, c: Cell, key: Key)
    requires key.sub.None? && ListOk(chain, key) && OfClient(chain, me, c.id.clock) && Disjoint(chain)
    requires c.id.client == me && c.len >= 1 && p <= |chain| && c.left == Origin(chain, p)
    ensures ListOk(InsertAt(chain, p, c), key)
  {
    PutKeepsAuthored(chain, me, p, c);
  }

  lemma ElementFits(s: DocState, me: nat, name: Name, p: nat, v: Any)
    requires name != [] && p <= |ChainOf(s.chains, ArrayKey(name))|
    ensures FitsAt(s, me, name, p, Element(s, me, name, p, v))
  {
  }

  lemma {:induction false} PutAllKeepsLocal(tx: Tx, me: nat, name: Name, p: nat, values: seq<Any>)
    requires Local(tx.state, me) && name != [] && p <= |ChainOf(tx.state.chains, ArrayKey(name))|
    ensures Local(PutAll(tx, me, name, p, values).state, me)
    decreases |values|
  {
    hide Local, FitsAt, Element;
    if values != [] {
      var c := Element(tx.state, me, name, p, values[0]);
      ElementFits(tx.state, me, name, p, values[0]);
      ElementKeepsLocal(tx.state, me, name, p, c);
      PutAllKeepsLocal(PutElement(tx, me, name, p, values[0]), me, name, p + 1, values[1..]);
    }
  }

  /** Marking items of lists deleted. */
  lemma MarkKeepsLocal(s: DocState, me: nat, k: Key, cells: seq<Cell>)
    requires Local(s, me) && forall c :: c in cells ==> c in ChainOf(s.chains, k)
    ensures Local(s.(dead := s.dead + IdsOf(cells)), me)
  {
    hide Find, ListOk;
    ListOf(s, me, k);
    forall c | c in cells ensures IsStart(s.store, c.id) {
      FindIsUnique(ItemsOf(s.store, me), me, c.id, c);
    }
  }

  lemma DoomedIn(s: DocState, name: Name, index: nat, length: nat)
    ensures forall c :: c in Doomed(s, name, index, length) ==> c in ChainOf(s.chains, ArrayKey(name))
  {
    VisibleIn(ChainOf(s.chains, ArrayKey(name)), s.dead);
  }

  lemma EntryKeepsLocal(s: DocState, me: nat, name: Name, key: Name, v: Any)
    requires Local(s, me) && name != []
    ensures Local(WithEntry(s, me, name, key, v), me)
  {
    hide Inv, Placed;
    var c, t := Entry(s, me, name, key, v), WithEntry(s, me, name, key, v);
    EntryKeepsInv(s, me, name, key, v);
    EntryKeepsPlaced(s, me, name, key, v);
    forall d | InStore(t.store, d) ensures Own(d, me) {
      assert d == c || InStore(s.store, d);
    }
  }


  /** Every operation keeps the document one that its author alone made. */
  lemma DoKeepsLocal(tx: Tx, me: nat, op: Op)
    requires Local(tx.state, me) && op.name != []
    ensures Local(Do(tx, me, op).state, me)
  {
    hide Local;
    match op {
      case Push(name, values) => PutAllKeepsLocal(tx, me, name, |ChainOf(tx.state.chains, ArrayKey(name))|, values);
      case Insert(name, index, values) =>
        PutAllKeepsLocal(tx, me, name, Slot(ChainOf(tx.state.chains, ArrayKey(name)), tx.state.dead, index), values);
      case Delete(name, index, length) =>
        DoomedIn(tx.state, name, index, length);
        MarkKeepsLocal(tx.state, me, ArrayKey(name), Doomed(tx.state, name, index, length));
      case Set(name, key, value) => SetKeepsLocal(tx, me, name, key, value);
      case Remove(name, key) =>
        var entries := ChainOf(tx.state.chains, EntryKey(name, key));
        if entries != [] { MarkKeepsLocal(tx.state, me, EntryKey(name, key), [entries[0]]); }
        assert entries != [] ==> IdsOf([entries[0]]) == {entries[0].id};
    }
  }

  lemma SetKeepsLocal(tx: Tx, me: nat, name: Name, key: Name, v: Any)
    requires Local(tx.state, me) && name != []
    ensures Local(Authoring.Set(tx, me, name, key, v).state, me)
  {
    hide Local, Entry;
    var s, k := tx.state, EntryKey(name, key);
    var entries := ChainOf(s.chains, k);
    EntryKeepsLocal(s, me, name, key, v);
    if entries != [] {
      MarkKeepsLocal(s, me, k, [entries[0]]);
      EntryKeepsLocal(s.(dead := s.dead + IdsOf([entries[0]])), me, name, key, v);
      assert IdsOf([entries[0]]) == {entries[0].id};
      SameEntry(s, s.dead + {entries[0].id}, me, name, key, v);
    }
  }

  lemma SameEntry(s: DocState, dead: set<Id>, me: nat, name: Name, key: Name, v: Any)
    ensures WithEntry(s.(dead := dead), me, name, key, v) == WithEntry(s, me, name, key, v).(dead := dead)
  {
  }

  // The meaning of each operation.

  lemma ContentsCut(cells: seq<Cell>, n: nat)
    requires n <= |cells|
    ensures ContentsOf(cells[..n]) == ContentsOf(cells)[..n] && ContentsOf(cells[n..]) == ContentsOf(cells)[n..]
  {
  }

  lemma InsertMeans(tx: Tx, me: nat, name: Name, index: nat, values: seq<Any>)
    requires Local(tx.state, me)
    ensures var xs := ToSlice(tx.state, name);
            var n := Min(index, |xs|);
            ToSlice(Authoring.Insert(tx, me, name, index, values).state, name) == xs[..n] + AsContents(values) + xs[n..]
  {
    hide Local, Slot, Visible, ContentsOf, AsContents, PutAll;
    var chain := ChainOf(tx.state.chains, ArrayKey(name));
    var all := Visible(chain, tx.state.dead);
    LocalIsFresh(tx.state, me);
    SlotDivides(chain, tx.state.dead, index);
    PutAllShows(tx, me, name, Slot(chain, tx.state.dead, index), values);
    ContentsCut(all, Min(index, |all|));
  }

  lemma PushMeans(tx: Tx, me: nat, name: Name, values: seq<Any>)
    requires Local(tx.state, me)
    ensures ToSlice(Authoring.Push(tx, me, name, values).state, name) == ToSlice(tx.state, name) + AsContents(values)
  {
    hide Local, PutAll, AsContents;
    var chain := ChainOf(tx.state.chains, ArrayKey(name));
    LocalIsFresh(tx.state, me);
    PutAllShows(tx, me, name, |chain|, values);
    assert chain[..|chain|] == chain && Visible(chain[|chain|..], tx.state.dead) == [];
  }

  lemma DeleteMeans(tx: Tx, me: nat, name: Name, index: nat, length: nat)
    requires Local(tx.state, me)
    ensures var xs := ToSlice(tx.state, name);
            ToSlice(Authoring.Delete(tx, name, index, length).state, name) == xs[..Min(index, |xs|)] + xs[Min(index + length, |xs|)..]
  {
    hide Local, Visible, ContentsOf;
    var chain := ChainOf(tx.state.chains, ArrayKey(name));
    var all := Visible(chain, tx.state.dead);
    var i, j := Min(index, |all|), Min(index + length, |all|);
    ListOf(tx.state, me, ArrayKey(name));
    MarkShows(chain, tx.state.dead, i, j);
    ContentsCut(all, i);
    ContentsCut(all, j);
    ContentsTwo(all[..i], all[j..]);
  }

  lemma ContentsTwo(a: seq<Cell>, b: seq<Cell>)
    ensures ContentsOf(a + b) == ContentsOf(a) + ContentsOf(b)
  {
  }

  /** Only this deleted flag differs, as far as a list is concerned. */
  predicate SameFlags(chain: seq<Cell>, dead: set<Id>, more: set<Id>) {
    forall c :: c in chain ==> (c.id in dead <==> c.id in more)
  }

  lemma {:induction false} VisibleSame(chain: seq<Cell>, dead: set<Id>, more: set<Id>)
    requires SameFlags(chain, dead, more)
    ensures Visible(chain, dead) == Visible(chain, more)
  {
    if chain != [] {
      assert chain[0] in chain;
      VisibleSame(chain[1..], dead, more);
    }
  }

  /** Marking items of one list does not show in another. */
  lemma MarkElsewhere(s: DocState, k: Key, l: Key, cells: seq<Cell>)
    requires Inv(s) && l != k && forall c :: c in cells ==> c in ChainOf(s.chains, k)
    ensures SameFlags(ChainOf(s.chains, l), s.dead, s.dead + IdsOf(cells))
  {
    hide Inv;
    forall d | d in ChainOf(s.chains, l) ensures d.id !in IdsOf(cells) {
      if d.id in IdsOf(cells) {
        var c :| c in cells && c.id == d.id;
        ListsApart(s, k, l, c, d);
      }
    }
  }

  /** What a reader sees of a list does not change. */
  predicate SameView(s: DocState, t: DocState, l: Key) {
    ChainOf(t.chains, l) == ChainOf(s.chains, l) && SameFlags(ChainOf(s.chains, l), s.dead, t.dead)
  }

  lemma SameReads(s: DocState, t: DocState)
    ensures forall name :: SameView(s, t, ArrayKey(name)) ==> ToSlice(t, name) == ToSlice(s, name)
    ensures forall name, key :: SameView(s, t, EntryKey(name, key)) ==> Get(t, name, key) == Get(s, name, key)
  {
    forall name | SameView(s, t, ArrayKey(name)) ensures ToSlice(t, name) == ToSlice(s, name) {
      VisibleSame(ChainOf(s.chains, ArrayKey(name)), s.dead, t.dead);
    }
    forall name, key | SameView(s, t, EntryKey(name, key)) ensures Get(t, name, key) == Get(s, name, key) {
      var chain := ChainOf(s.chains, EntryKey(name, key));
      assert chain != [] ==> chain[0] in chain;
    }
  }

  /** The list an operation works on. */
  function Target(op: Op): Key {
    match op
    case Push(name, _) => ArrayKey(name)
    case Insert(name, _, _) => ArrayKey(name)
    case Delete(name, _, _) => ArrayKey(name)
    case Set(name, key, _) => EntryKey(name, key)
    case Remove(name, key) => EntryKey(name, key)
  }

  /** An operation shows in its own list only. */
  lemma DoElsewhere(tx: Tx, me: nat, op: Op, l: Key)
    requires Local(tx.state, me) && l != Target(op)
    ensures SameView(tx.state, Do(tx, me, op).state, l)
  {
    hide Local, Inv, Visible, PutAll, Slot, SameFlags;
    var s := tx.state;
    LocalIsFresh(s, me);
    assert Inv(s) by { LocalInv(s, me); }
    SameSelf(ChainOf(s.chains, l), s.dead);
    match op {
      case Push(name, values) => PutAllShows(tx, me, name, |ChainOf(s.chains, ArrayKey(name))|, values);
      case Insert(name, index, values) => PutAllShows(tx, me, name, Slot(ChainOf(s.chains, ArrayKey(name)), s.dead, index), values);
      case Delete(name, index, length) =>
        DoomedIn(s, name, index, length);
        MarkElsewhere(s, Target(op), l, Doomed(s, name, index, length));
      case Set(name, key, _) => MarkHeadElsewhere(s, Target(op), l);
      case Remove(name, key) => MarkHeadElsewhere(s, Target(op), l);
    }
  }

  lemma LocalInv(s: DocState, me: nat)
    requires Local(s, me)
    ensures Inv(s)
  {
  }

  lemma SameSelf(chain: seq<Cell>, dead: set<Id>)
    ensures SameFlags(chain, dead, dead)
  {
  }

  lemma MarkHeadElsewhere(s: DocState, k: Key, l: Key)
    requires Inv(s) && l != k
    ensures ChainOf(s.chains, k) != [] ==> SameFlags(ChainOf(s.chains, l), s.dead, s.dead + {ChainOf(s.chains, k)[0].id})
  {
    hide Inv;
    var chain := ChainOf(s.chains, k);
    if chain != [] {
      MarkElsewhere(s, k, l, [chain[0]]);
      assert IdsOf([chain[0]]) == {chain[0].id};
    }
  }

  /**
   * Every operation of Array and Map is, for every array and every key of every map, the plain
   * edit that it stands for.
   */
  lemma DoMeans(tx: Tx, me: nat, op: Op, name: Name, key: Name)
    requires Local(tx.state, me)
    ensures var t := Do(tx, me, op).state;
            && ToSlice(t, name) == EditArray(op, name, ToSlice(tx.state, name))
            && Get(t, name, key) == EditEntry(op, name, key, Get(tx.state, name, key))
  {
    hide Local, ToSlice, PutAll, Slot, SameView, AsContents;
    SameReads(tx.state, Do(tx, me, op).state);
    if ArrayKey(name) != Target(op) { DoElsewhere(tx, me, op, ArrayKey(name)); }
    if EntryKey(name, key) != Target(op) { DoElsewhere(tx, me, op, EntryKey(name, key)); }
    match op {
      case Push(n, values) => PushMeans(tx, me, n, values);
      case Insert(n, index, values) => InsertMeans(tx, me, n, index, values);
      case Delete(n, index, length) => DeleteMeans(tx, me, n, index, length);
      case Set(n, k, v) => SetMeans(tx, me, n, k, v);
      case Remove(n, k) =>
    }
  }

  lemma SetMeans(tx: Tx, me: nat, name: Name, key: Name, v: Any)
    requires Local(tx.state, me)
    ensures Get(Authoring.Set(tx, me, name, key, v).state, name, key) == Some(Val(v))
  {
    hide Inv, Placed, Find;
    var s := tx.state;
    LocalIsFresh(s, me);
    ListOf(s, me, EntryKey(name, key));
    var entries := ChainOf(s.chains, EntryKey(name, key));
    assert entries != [] ==> entries[0] in entries;
  }

  function EditArrayAll(ops: seq<Op>, name: Name, xs: seq<Content>): seq<Content>
    decreases |ops|
  {
    if ops == [] then xs else EditArrayAll(ops[1..], name, EditArray(ops[0], name, xs))
  }

  function EditEntryAll(ops: seq<Op>, name: Name, key: Name, x: Option<Content>): Option<Content>
    decreases |ops|
  {
    if ops == [] then x else EditEntryAll(ops[1..], name, key, EditEntry(ops[0], name, key, x))
  }

  /** Every operation is on a type with a name; nothing under the empty name ever gets to another document. */
  predicate Named(ops: seq<Op>) {
    forall i :: 0 <= i < |ops| ==> ops[i].name != []
  }

  /** Over every run of operations, arrays are plain sequences and map entries plain values. */
  lemma {:induction false} DoAllMeans(tx: Tx, me: nat, ops: seq<Op>, name: Name, key: Name)
    requires Local(tx.state, me) && Named(ops)
    ensures var t := DoAll(tx, me, ops).state;
            && Local(t, me)
            && ToSlice(t, name) == EditArrayAll(ops, name, ToSlice(tx.state, name))
            && Get(t, name, key) == EditEntryAll(ops, name, key, Get(tx.state, name, key))
    decreases |ops|
  {
    hide Local, ToSlice, Get, Do, EditArray, EditEntry;
    if ops != [] {
      DoKeepsLocal(tx, me, ops[0]);
      DoMeans(tx, me, ops[0], name, key);
      DoAllMeans(Do(tx, me, ops[0]), me, ops[1..], name, key);
    }
  }
}
