/**
 * Snapshot and RestoreDoc: a snapshot holds every stored item and no deletion, so a restored
 * document shows the same content exactly as far as nothing in it was ever deleted. That includes
 * items that are in no list any more, because Text.Insert unlinks the deleted items it passes.
 */
module Snapshots {
  import opened Wrappers
  import opened Values
  import opened Ids
  import opened Cells
  import opened Integration
  import opened UnitReplicas
  import opened Authoring
  import opened LocalEdits
  import opened Replicas
  import opened Replication

  /**
   * One step of an author: a string typed between two items of a text, right after a visible one or
   * at the start; an element put into an array; a map entry set; an item of a list deleted.
   */
  datatype Step =
    | Type(name: Name, p: nat, text: seq<Rune>)
    | Put(name: Name, p: nat, value: Any)
    | SetEntry(name: Name, key: Name, value: Any)
    | Kill(list: Key, i: nat)

  /** Strings and names are not empty, and every step finds its place. */
  predicate Allowed(s: DocState, e: Step) {
    match e
    case Type(name, p, text) =>
      var chain := ChainOf(s.chains, ArrayKey(name));
      name != [] && text != [] && p <= |chain| && (p > 0 ==> chain[p - 1].id !in s.dead)
    case Put(name, p, _) => name != [] && p <= |ChainOf(s.chains, ArrayKey(name))|
    case SetEntry(name, _, _) => name != []
    case Kill(k, i) => i < |ChainOf(s.chains, k)|
  }

  /** The first visible item at or after p. */
  function NextShown(chain: seq<Cell>, dead: set<Id>, p: nat): (q: nat)
    requires p <= |chain|
    ensures p <= q <= |chain| && forall i :: p <= i < q ==> chain[i].id in dead
    decreases |chain| - p
  {
    if p == |chain| || chain[p].id !in dead then p else NextShown(chain, dead, p + 1)
  }

  function NewItem(s: DocState, me: nat, name: Name, p: nat, content: Content): Cell
    requires p <= |ChainOf(s.chains, ArrayKey(name))|
  {
    Cell(NextId(s, me), if content.Str? then |content.text| else 1, Origin(ChainOf(s.chains, ArrayKey(name)), p),
         None, Some(name), None, content)
  }

  /** Typing unlinks the deleted items up to the next visible one; they stay in the store. */
  function Typed(s: DocState, name: Name, p: nat, c: Cell): DocState
    requires p <= |ChainOf(s.chains, ArrayKey(name))|
  {
    var chain := ChainOf(s.chains, ArrayKey(name));
    s.(store := Append(s.store, c), chains := s.chains[ArrayKey(name) := chain[..p] + [c] + chain[NextShown(chain, s.dead, p)..]])
  }

  function Take(s: DocState, me: nat, e: Step): DocState
    requires Allowed(s, e)
  {
    match e
    case Type(name, p, text) => Typed(s, name, p, NewItem(s, me, name, p, Str(text)))
    case Put(name, p, value) => PutAt(s, ArrayKey(name), p, NewItem(s, me, name, p, Val(value)))
    case SetEntry(name, key, value) => Authoring.Set(Tx(s, [], []), me, name, key, value).state
    case Kill(k, i) => s.(dead := s.dead + {ChainOf(s.chains, k)[i].id})
  }

  predicate AllowedAll(s: DocState, me: nat, steps: seq<Step>)
    decreases |steps|
  {
    steps == [] || (Allowed(s, steps[0]) && AllowedAll(Take(s, me, steps[0]), me, steps[1..]))
  }

  function TakeAll(s: DocState, me: nat, steps: seq<Step>): DocState
    requires AllowedAll(s, me, steps)
    decreases |steps|
  {
    if steps == [] then s else TakeAll(Take(s, me, steps[0]), me, steps[1..])
  }

  /** The items of a snapshot, as they are sent. */
  function SnapshotOf(s: DocState, me: nat): seq<Cell> {
    Wires(ItemsOf(s.store, me))
  }

  /** RestoreDoc: a fresh document to which the snapshot is applied. */
  function Restored(s: DocState, me: nat): DocState {
    Deliver(EMPTY, SnapshotOf(s, me))
  }

  /** What was stored so far would rebuild the same store and lists, with nothing deleted. */
  ghost predicate Rebuilds(s: DocState, me: nat) {
    var d := Restored(s, me);
    Local(s, me) && Inv(d) && Mirrors(s, d) && d.ds == map[] && d.dead == {} && Lands(EMPTY, SnapshotOf(s, me))
  }

  lemma RebuildsMore(s: DocState, me: nat, c: Cell, t: DocState)
    requires Rebuilds(s, me) && t.store == Append(s.store, c) && c.id.client == me && !c.content.Gone?
    requires var d := Restored(s, me); Fits(d, Wire(c)) && Mirrors(t, Receive(d, Wire(c)))
    requires Local(t, me)
    ensures Rebuilds(t, me)
  {
    hide Local, Inv, Mirrors, Fits, Find, Receive;
    var items, w, d := ItemsOf(s.store, me), Wire(c), Restored(s, me);
    assert ItemsOf(t.store, me) == items + [c];
    WiresMore(items, c);
    DeliverConcat(EMPTY, Wires(items), [w]);
    DeliverOne(d, w);
    LandsConcat(EMPTY, Wires(items), [w]);
    ReceiveKeepsInv(d, w);
    StaysLive(d, w);
  }

  lemma DeliverOne(d: DocState, w: Cell)
    ensures Deliver(d, [w]) == Receive(d, w) && (Lands(d, [w]) <==> Fits(d, w))
  {
    hide Receive, Fits;
    assert [w][1..] == [];
  }

  lemma {:induction false} LandsConcat(s: DocState, a: seq<Cell>, b: seq<Cell>)
    ensures Lands(s, a + b) <==> Lands(s, a) && Lands(Deliver(s, a), b)
    decreases |a|
  {
    hide Receive, Fits;
    if a == [] {
      assert a + b == b;
    } else {
      LandsConcat(Receive(s, a[0]), a[1..], b);
      assert (a + b)[0] == a[0] && (a + b)[1..] == a[1..] + b;
    }
  }

  lemma StaysLive(d: DocState, w: Cell)
    requires d.ds == map[] && d.dead == {} && !w.content.Gone?
    ensures Receive(d, w).ds == map[] && Receive(d, w).dead == {}
  {
  }

  lemma MirrorsIgnoresDead(s: DocState, t: DocState, d: DocState)
    requires Mirrors(s, d) && t.store == s.store && t.chains == s.chains
    ensures Mirrors(t, d)
  {
    SameMirror(s, d, t.dead);
    forall k: Key ensures SameList(ChainOf(t.chains, k), ChainOf(d.chains, k), k) {
      assert SameList(ChainOf(s.chains, k), ChainOf(d.chains, k), k);
    }
  }

  // The same document with nothing unlinked, which is what is restored.

  lemma PutRebuilds(s: DocState, me: nat, name: Name, p: nat, content: Content)
    requires Rebuilds(s, me) && name != [] && p <= |ChainOf(s.chains, ArrayKey(name))|
    requires content.Val? || (content.Str? && content.text != [])
    ensures Rebuilds(PutAt(s, ArrayKey(name), p, NewItem(s, me, name, p, content)), me)
  {
    hide Local, Inv, Mirrors, Receive, Find, Fits;
    var c, key, d := NewItem(s, me, name, p, content), ArrayKey(name), Restored(s, me);
    var t := PutAt(s, key, p, c);
    assert FitsAt(s, me, name, p, c);
    ElementArrives(s, d, me, name, p, c);
    EnabledFits(d, Wire(c));
    ElementKeepsLocal(s, me, name, p, c);
    MirrorsMore(s, d, t, Receive(d, Wire(c)), key);
    RebuildsMore(s, me, c, t);
  }

  lemma SetRebuilds(s: DocState, me: nat, name: Name, key: Name, v: Any)
    requires Rebuilds(s, me) && name != []
    ensures Rebuilds(Authoring.Set(Tx(s, [], []), me, name, key, v).state, me)
  {
    hide Local, Inv, Mirrors, Receive, Find, Fits;
    var c, k, d := Authoring.Entry(s, me, name, key, v), EntryKey(name, key), Restored(s, me);
    var t := Authoring.Set(Tx(s, [], []), me, name, key, v).state;
    EntryArrives(s, d, me, name, key, v);
    EnabledFits(d, c);
    SetKeepsLocal(Tx(s, [], []), me, name, key, v);
    MirrorsMore(s, d, WithEntry(s, me, name, key, v), Receive(d, c), k);
    MirrorsIgnoresDead(WithEntry(s, me, name, key, v), t, Receive(d, c));
    RebuildsMore(s, me, c, t);
  }

  lemma KillRebuilds(s: DocState, me: nat, k: Key, c: Cell)
    requires Rebuilds(s, me) && c in ChainOf(s.chains, k)
    ensures Rebuilds(s.(dead := s.dead + {c.id}), me)
  {
    hide Local, Inv, Mirrors;
    MarkKeepsLocal(s, me, k, [c]);
    assert IdsOf([c]) == {c.id};
    MirrorsIgnoresDead(s, s.(dead := s.dead + {c.id}), Restored(s, me));
  }

  /** A list is what another one becomes when some of its deleted items are unlinked. */
  predicate Thins(list: seq<Cell>, full: seq<Cell>, dead: set<Id>)
    decreases |full|
  {
    if full == [] then list == []
    else
      || (list != [] && list[0] == full[0] && Thins(list[1..], full[1..], dead))
      || (full[0].id in dead && Thins(list, full[1..], dead))
  }

  lemma {:induction false} ThinsIn(list: seq<Cell>, full: seq<Cell>, dead: set<Id>, c: Cell)
    requires Thins(list, full, dead) && c in list
    ensures c in full
    decreases |full|
  {
    if list[0] == full[0] && Thins(list[1..], full[1..], dead) {
      if c != list[0] { ThinsIn(list[1..], full[1..], dead, c); }
    } else {
      ThinsIn(list, full[1..], dead, c);
    }
  }

  lemma {:induction false} ThinsShows(list: seq<Cell>, full: seq<Cell>, dead: set<Id>)
    requires Thins(list, full, dead)
    ensures Visible(list, dead) == Visible(full, dead)
    decreases |full|
  {
    if full != [] {
      if list != [] && list[0] == full[0] && Thins(list[1..], full[1..], dead) {
        ThinsShows(list[1..], full[1..], dead);
      } else {
        ThinsShows(list, full[1..], dead);
      }
    }
  }

  lemma {:induction false} ThinsStill(list: seq<Cell>, full: seq<Cell>, dead: set<Id>, more: set<Id>)
    requires Thins(list, full, dead) && dead <= more
    ensures Thins(list, full, more)
    decreases |full|
  {
    if full != [] {
      if list != [] && list[0] == full[0] && Thins(list[1..], full[1..], dead) {
        ThinsStill(list[1..], full[1..], dead, more);
      } else {
        ThinsStill(list, full[1..], dead, more);
      }
    }
  }

  lemma {:induction false} ThinsFirst(list: seq<Cell>, full: seq<Cell>, dead: set<Id>)
    requires Thins(list, full, dead) && list != [] && list[0].id in dead
    ensures Thins(list[1..], full, dead)
    decreases |full|
  {
    if !(list[0] == full[0] && Thins(list[1..], full[1..], dead)) {
      ThinsFirst(list, full[1..], dead);
    }
  }

  /** Unlinking more deleted items. */
  lemma {:induction false} ThinsDrop(list: seq<Cell>, full: seq<Cell>, dead: set<Id>, q: nat)
    requires Thins(list, full, dead) && q <= |list| && forall i :: 0 <= i < q ==> list[i].id in dead
    ensures Thins(list[q..], full, dead)
  {
    if q == 0 {
      assert list[0..] == list;
    } else {
      ThinsDrop(list, full, dead, q - 1);
      ThinsFirst(list[q - 1..], full, dead);
      assert list[q - 1..][1..] == list[q..];
    }
  }

  lemma {:induction false} ThinsConcat(a: seq<Cell>, full: seq<Cell>, b: seq<Cell>, rest: seq<Cell>, dead: set<Id>)
    requires Thins(a, full, dead) && Thins(b, rest, dead)
    ensures Thins(a + b, full + rest, dead)
    decreases |full|
  {
    if full == [] {
      assert a + b == b && full + rest == rest;
    } else {
      assert (full + rest)[1..] == full[1..] + rest && (full + rest)[0] == full[0];
      if a != [] && a[0] == full[0] && Thins(a[1..], full[1..], dead) {
        assert (a + b)[1..] == a[1..] + b && (a + b)[0] == a[0];
        ThinsConcat(a[1..], full[1..], b, rest, dead);
      } else {
        ThinsConcat(a, full[1..], b, rest, dead);
      }
    }
  }

  lemma ThinsCons(x: Cell, list: seq<Cell>, full: seq<Cell>, dead: set<Id>)
    requires Thins(list, full, dead)
    ensures Thins([x] + list, [x] + full, dead) && (x.id in dead ==> Thins(list, [x] + full, dead))
  {
    assert ([x] + list)[1..] == list && ([x] + full)[1..] == full;
  }

  /** A thinned list begins like the full one, or the full one begins with a deleted item. */
  lemma ThinsCase(list: seq<Cell>, full: seq<Cell>, dead: set<Id>)
    requires Thins(list, full, dead) && list != []
    ensures full != []
    ensures (list[0] == full[0] && Thins(list[1..], full[1..], dead)) || (full[0].id in dead && Thins(list, full[1..], dead))
  {
  }

  /** The place in the full list right after the item that is before a place of the thinned one. */
  lemma {:induction false} ThinsPlace(list: seq<Cell>, full: seq<Cell>, dead: set<Id>, p: nat) returns (q: nat)
    requires Thins(list, full, dead) && p <= |list|
    ensures q <= |full| && (p == 0 <==> q == 0) && (p > 0 ==> full[q - 1] == list[p - 1])
    ensures Thins(list[..p], full[..q], dead) && Thins(list[p..], full[q..], dead)
    decreases |full|
  {
    hide Thins;
    if p == 0 {
      q := 0;
      assert list[..0] == [] && full[..0] == [] && list[0..] == list && full[0..] == full;
      ThinsEmpty(dead);
    } else {
      ThinsCase(list, full, dead);
      if list[0] == full[0] && Thins(list[1..], full[1..], dead) {
        var r := ThinsPlace(list[1..], full[1..], dead, p - 1);
        q := r + 1;
        ThinsCons(full[0], list[1..][..p - 1], full[1..][..r], dead);
        assert list[..p] == [full[0]] + list[1..][..p - 1] && full[..q] == [full[0]] + full[1..][..r];
        assert list[p..] == list[1..][p - 1..] && full[q..] == full[1..][r..];
      } else {
        var r := ThinsPlace(list, full[1..], dead, p);
        q := r + 1;
        ThinsCons(full[0], list[..p], full[1..][..r], dead);
        assert full[..q] == [full[0]] + full[1..][..r] && full[q..] == full[1..][r..];
      }
    }
  }

  lemma ThinsEmpty(dead: set<Id>)
    ensures Thins([], [], dead)
  {
  }

  /** A new item between the same neighbours, with deleted items after it unlinked. */
  lemma ThinsPut(list: seq<Cell>, full: seq<Cell>, dead: set<Id>, p: nat, after: nat, c: Cell) returns (q: nat)
    requires Thins(list, full, dead) && p <= after <= |list| && forall i :: p <= i < after ==> list[i].id in dead
    ensures q <= |full| && (p == 0 <==> q == 0) && (p > 0 ==> full[q - 1] == list[p - 1])
    ensures Thins(list[..p] + [c] + list[after..], InsertAt(full, q, c), dead)
  {
    hide Thins;
    q := ThinsPlace(list, full, dead, p);
    ThinsDrop(list[p..], full[q..], dead, after - p);
    assert list[p..][after - p..] == list[after..];
    ThinsOne(c, dead);
    ThinsConcat(list[..p], full[..q], [c], [c], dead);
    ThinsConcat(list[..p] + [c], full[..q] + [c], list[after..], full[q..], dead);
  }

  lemma ThinsOne(c: Cell, dead: set<Id>)
    ensures Thins([c], [c], dead)
  {
    assert [c][1..] == [];
  }

  predicate ThinList(list: seq<Cell>, full: seq<Cell>, dead: set<Id>, k: Key) {
    if k.sub.None? then Thins(list, full, dead) else list == full
  }

  /** The author's document next to the same one with nothing unlinked. */
  ghost predicate Shadows(s: DocState, f: DocState, me: nat) {
    && Rebuilds(f, me) && f.store == s.store && f.dead == s.dead && f.ds == s.ds
    && forall k: Key :: ThinList(ChainOf(s.chains, k), ChainOf(f.chains, k), s.dead, k)
  }

  lemma SameNewItem(s: DocState, f: DocState, me: nat, name: Name, p: nat, q: nat, content: Content)
    requires f.store == s.store && p <= |ChainOf(s.chains, ArrayKey(name))| && q <= |ChainOf(f.chains, ArrayKey(name))|
    requires (p == 0 <==> q == 0) && (p > 0 ==> ChainOf(f.chains, ArrayKey(name))[q - 1] == ChainOf(s.chains, ArrayKey(name))[p - 1])
    ensures NewItem(f, me, name, q, content) == NewItem(s, me, name, p, content)
  {
  }

  /** A new item in both. */
  lemma NewShadows(s: DocState, f: DocState, me: nat, name: Name, p: nat, after: nat, content: Content, t: DocState) returns (g: DocState)
    requires Shadows(s, f, me) && name != [] && (content.Val? || (content.Str? && content.text != []))
    requires var chain := ChainOf(s.chains, ArrayKey(name));
             && p <= after <= |chain| && (forall i :: p <= i < after ==> chain[i].id in s.dead)
             && var c := NewItem(s, me, name, p, content);
                t == s.(store := Append(s.store, c), chains := s.chains[ArrayKey(name) := chain[..p] + [c] + chain[after..]])
    ensures Shadows(t, g, me)
  {
    hide Rebuilds, Thins, InsertAt, Origin;
    var key := ArrayKey(name);
    var chain, full, c := ChainOf(s.chains, key), ChainOf(f.chains, key), NewItem(s, me, name, p, content);
    assert ThinList(chain, full, s.dead, key);
    var q := ThinsPut(chain, full, s.dead, p, after, c);
    SameNewItem(s, f, me, name, p, q, content);
    PutRebuilds(f, me, name, q, content);
    g := PutAt(f, key, q, c);
    forall k: Key ensures ThinList(ChainOf(t.chains, k), ChainOf(g.chains, k), t.dead, k) {
      assert ThinList(ChainOf(s.chains, k), ChainOf(f.chains, k), s.dead, k);
    }
  }

  lemma SetShadows(s: DocState, f: DocState, me: nat, name: Name, key: Name, v: Any) returns (g: DocState)
    requires Shadows(s, f, me) && name != []
    ensures Shadows(Take(s, me, SetEntry(name, key, v)), g, me)
  {
    hide Rebuilds, Thins;
    var t := Take(s, me, SetEntry(name, key, v));
    SetRebuilds(f, me, name, key, v);
    g := Authoring.Set(Tx(f, [], []), me, name, key, v).state;
    assert ThinList(ChainOf(s.chains, EntryKey(name, key)), ChainOf(f.chains, EntryKey(name, key)), s.dead, EntryKey(name, key));
    forall k: Key ensures ThinList(ChainOf(t.chains, k), ChainOf(g.chains, k), t.dead, k) {
      assert ThinList(ChainOf(s.chains, k), ChainOf(f.chains, k), s.dead, k);
      if k.sub.None? { ThinsStill(ChainOf(s.chains, k), ChainOf(f.chains, k), s.dead, t.dead); }
    }
  }

  lemma KillShadows(s: DocState, f: DocState, me: nat, k: Key, i: nat) returns (g: DocState)
    requires Shadows(s, f, me) && i < |ChainOf(s.chains, k)|
    ensures Shadows(Take(s, me, Kill(k, i)), g, me)
  {
    hide Rebuilds, Thins;
    var c, t := ChainOf(s.chains, k)[i], Take(s, me, Kill(k, i));
    assert ThinList(ChainOf(s.chains, k), ChainOf(f.chains, k), s.dead, k);
    if k.sub.None? { ThinsIn(ChainOf(s.chains, k), ChainOf(f.chains, k), s.dead, c); }
    KillRebuilds(f, me, k, c);
    g := f.(dead := f.dead + {c.id});
    forall l: Key ensures ThinList(ChainOf(t.chains, l), ChainOf(g.chains, l), t.dead, l) {
      assert ThinList(ChainOf(s.chains, l), ChainOf(f.chains, l), s.dead, l);
      if l.sub.None? { ThinsStill(ChainOf(s.chains, l), ChainOf(f.chains, l), s.dead, t.dead); }
    }
  }

  lemma TakeShadows(s: DocState, f: DocState, me: nat, e: Step) returns (g: DocState)
    requires Shadows(s, f, me) && Allowed(s, e)
    ensures Shadows(Take(s, me, e), g, me)
  {
    hide Shadows, NewItem, NextShown;
    match e {
      case Type(name, p, text) =>
        var chain := ChainOf(s.chains, ArrayKey(name));
        g := NewShadows(s, f, me, name, p, NextShown(chain, s.dead, p), Str(text), Take(s, me, e));
      case Put(name, p, value) => g := NewShadows(s, f, me, name, p, p, Val(value), Take(s, me, e));
      case SetEntry(name, key, value) => g := SetShadows(s, f, me, name, key, value);
      case Kill(k, i) => g := KillShadows(s, f, me, k, i);
    }
  }

  lemma {:induction false} TakeAllShadows(s: DocState, f: DocState, me: nat, steps: seq<Step>) returns (g: DocState)
    requires Shadows(s, f, me) && AllowedAll(s, me, steps)
    ensures Shadows(TakeAll(s, me, steps), g, me)
    decreases |steps|
  {
    hide Shadows, Take, Allowed;
    g := f;
    if steps != [] {
      g := TakeShadows(s, f, me, steps[0]);
      g := TakeAllShadows(Take(s, me, steps[0]), g, me, steps[1..]);
    }
  }

  /** Nothing in the list is deleted. */
  predicate NoneDead(chain: seq<Cell>, dead: set<Id>) {
    forall c :: c in chain ==> c.id !in dead
  }

  lemma {:induction false} VisibleShorter(chain: seq<Cell>, dead: set<Id>)
    ensures |Visible(chain, dead)| <= |chain|
    ensures |Visible(chain, dead)| == |chain| <==> NoneDead(chain, dead)
  {
    if chain != [] {
      VisibleShorter(chain[1..], dead);
      assert NoneDead(chain, dead) <==> chain[0].id !in dead && NoneDead(chain[1..], dead);
    }
  }

  /** No element of a text or an array of this name was ever deleted, linked or not. */
  predicate NeverDeleted(s: DocState, me: nat, name: Name) {
    forall c :: c in ItemsOf(s.store, me) && c.home == Some(name) && !IsEntry(c) ==> c.id !in s.dead
  }

  /** The full list has just the stored elements of its name. */
  lemma FullList(f: DocState, me: nat, name: Name)
    requires Local(f, me)
    ensures NoneDead(ChainOf(f.chains, ArrayKey(name)), f.dead) <==> NeverDeleted(f, me, name)
  {
    hide Inv;
    var chain := ChainOf(f.chains, ArrayKey(name));
    ListOf(f, me, ArrayKey(name));
    forall c | c in ItemsOf(f.store, me) && c.home == Some(name) && !IsEntry(c) ensures c in chain {
      OwnId(f, me, c);
      assert InStore(f.store, c);
    }
    forall c | c in chain ensures c in ItemsOf(f.store, me) && c.home == Some(name) && !IsEntry(c) {
    }
  }

  lemma OwnId(f: DocState, me: nat, c: Cell)
    requires Inv(f) && c in ItemsOf(f.store, me)
    ensures c.id.client == me
  {
    assert Sorted(ItemsOf(f.store, me), me);
  }

  /**
   * Snapshot round trip. Whatever one author did, with strings typed between items: the restored
   * document shows the same text or array under a name exactly if no element of that name was ever
   * deleted, and the same value for a key exactly if the current entry of the key is not deleted.
   */
  lemma SnapshotRoundTrip(me: nat, steps: seq<Step>, name: Name, key: Name)
    requires AllowedAll(EMPTY, me, steps)
    ensures var s := TakeAll(EMPTY, me, steps);
            var r := Restored(s, me);
            var list, entries := ChainOf(s.chains, ArrayKey(name)), ChainOf(s.chains, EntryKey(name, key));
            && (Visible(ChainOf(r.chains, ArrayKey(name)), r.dead) == Visible(list, s.dead) <==> NeverDeleted(s, me, name))
            && (Get(r, name, key) == Get(s, name, key) <==> entries == [] || entries[0].id !in s.dead)
  {
    hide Local, Inv, Take, AllowedAll, Thins, NeverDeleted;
    StartShadows(me);
    var f := TakeAllShadows(EMPTY, EMPTY, me, steps);
    var s := TakeAll(EMPTY, me, steps);
    var r := Restored(s, me);
    var k, l := ArrayKey(name), EntryKey(name, key);
    var list, full := ChainOf(s.chains, k), ChainOf(f.chains, k);
    assert ThinList(list, full, s.dead, k) && ThinList(ChainOf(s.chains, l), ChainOf(f.chains, l), s.dead, l);
    assert SameList(full, ChainOf(r.chains, k), k) && SameList(ChainOf(f.chains, l), ChainOf(r.chains, l), l);
    FullList(f, me, name);
    SameNever(s, f, me, name);
    ThinsShows(list, full, s.dead);
    VisibleAll(full, r.dead);
    VisibleShorter(full, s.dead);
    if NoneDead(full, s.dead) { VisibleAll(full, s.dead); }
  }

  lemma SameNever(s: DocState, f: DocState, me: nat, name: Name)
    requires f.store == s.store && f.dead == s.dead
    ensures NeverDeleted(s, me, name) <==> NeverDeleted(f, me, name)
  {
  }

  lemma StartShadows(me: nat)
    ensures Shadows(EMPTY, EMPTY, me)
  {
    assert Wires([]) == [];
  }

  /**
   * For example: a is typed, deleted, and b is typed at the start. The deleted item is in no list any
   * more and nothing in the list is deleted, yet the restored text shows both.
   */
  lemma UnlinkedReturns(me: nat, name: Name, a: Rune, b: Rune)
    requires name != []
    ensures var steps := [Type(name, 0, [a]), Kill(ArrayKey(name), 0), Type(name, 0, [b])];
            var x, y := TypedAt(me, 0, name, a), TypedAt(me, 1, name, b);
            && AllowedAll(EMPTY, me, steps)
            && var s := TakeAll(EMPTY, me, steps); var r := Restored(s, me);
               && ChainOf(s.chains, ArrayKey(name)) == [y] && NoneDead([y], s.dead)
               && ChainOf(r.chains, ArrayKey(name)) == [y, x] && r.dead == {}
  {
    var key, x, y := ArrayKey(name), TypedAt(me, 0, name, a), TypedAt(me, 1, name, b);
    var s1 := Take(EMPTY, me, Type(name, 0, [a]));
    assert s1 == DocState(map[me := [x]], map[key := [x]], map[], {}) by { TypeFirst(me, name, a); }
    var s2 := Take(s1, me, Kill(key, 0));
    assert s2 == s1.(dead := {x.id});
    var s3 := Take(s2, me, Type(name, 0, [b]));
    assert s3 == DocState(map[me := [x, y]], map[key := [y]], map[], {x.id}) by { TypeSecond(me, name, a, b); }
    ThreeSteps(EMPTY, me, Type(name, 0, [a]), Kill(key, 0), Type(name, 0, [b]));
    RestoreTwo(s3, me, name, x, y);
  }

  function TypedAt(me: nat, clock: nat, name: Name, r: Rune): Cell {
    Cell(Id(me, clock), 1, None, None, Some(name), None, Str([r]))
  }

  lemma ThreeSteps(s: DocState, me: nat, a: Step, b: Step, c: Step)
    requires Allowed(s, a) && Allowed(Take(s, me, a), b) && Allowed(Take(Take(s, me, a), me, b), c)
    ensures AllowedAll(s, me, [a, b, c]) && TakeAll(s, me, [a, b, c]) == Take(Take(Take(s, me, a), me, b), me, c)
  {
    hide Take, Allowed;
    var s1 := Take(s, me, a);
    var s2 := Take(s1, me, b);
    FirstTake(s2, me, c, []);
    FirstTake(s1, me, b, [c]);
    FirstTake(s, me, a, [b, c]);
    assert [a] + [b, c] == [a, b, c] && [b] + [c] == [b, c] && [c] + [] == [c];
  }

  lemma FirstTake(s: DocState, me: nat, a: Step, rest: seq<Step>)
    requires Allowed(s, a) && AllowedAll(Take(s, me, a), me, rest)
    ensures AllowedAll(s, me, [a] + rest) && TakeAll(s, me, [a] + rest) == TakeAll(Take(s, me, a), me, rest)
  {
    hide Take, Allowed;
    assert ([a] + rest)[0] == a && ([a] + rest)[1..] == rest;
  }

  lemma TypeFirst(me: nat, name: Name, a: Rune)
    requires name != []
    ensures var x := TypedAt(me, 0, name, a);
            Take(EMPTY, me, Type(name, 0, [a])) == DocState(map[me := [x]], map[ArrayKey(name) := [x]], map[], {})
  {
    var x := TypedAt(me, 0, name, a);
    assert NewItem(EMPTY, me, name, 0, Str([a])) == x;
    assert ItemsOf(EMPTY.store, me) + [x] == [x] && [][..0] + [x] + [][0..] == [x];
  }

  lemma TypeSecond(me: nat, name: Name, a: Rune, b: Rune)
    requires name != []
    ensures var x, y := TypedAt(me, 0, name, a), TypedAt(me, 1, name, b);
            Take(DocState(map[me := [x]], map[ArrayKey(name) := [x]], map[], {x.id}), me, Type(name, 0, [b]))
              == DocState(map[me := [x, y]], map[ArrayKey(name) := [y]], map[], {x.id})
  {
    var x, y := TypedAt(me, 0, name, a), TypedAt(me, 1, name, b);
    var s := DocState(map[me := [x]], map[ArrayKey(name) := [x]], map[], {x.id});
    assert NewItem(s, me, name, 0, Str([b])) == y && NextShown([x], {x.id}, 0) == 1;
    assert [x] + [y] == [x, y] && [x][..0] + [y] + [x][1..] == [y];
  }

  lemma RestoreTwo(s: DocState, me: nat, name: Name, x: Cell, y: Cell)
    requires ItemsOf(s.store, me) == [x, y] && x.home == Some(name) && y.home == Some(name) && name != [] && x.id == Id(me, 0) && y.id == Id(me, 1)
    requires x.left.None? && x.right.None? && y.left.None? && y.right.None? && x.len == 1 && x.content.Str? && y.content.Str?
    ensures ChainOf(Restored(s, me).chains, ArrayKey(name)) == [y, x] && Restored(s, me).dead == {}
  {
    var key := ArrayKey(name);
    assert Wires([x, y]) == [x, y] && [x, y][1..] == [y] && [y][1..] == [];
    assert x.(home := Resolve(EMPTY.store, x)) == x;
    PlaceAt([], x, 0);
    var r := Receive(EMPTY, x);
    assert ItemsOf(r.store, me) == [x] && ChainOf(r.chains, key) == [x];
    assert y.(home := Resolve(r.store, y)) == y;
    PlaceAt([x], y, 0);
    var t := Receive(r, y);
    assert ChainOf(t.chains, key) == [y, x];
    assert Deliver(EMPTY, [x, y]) == Deliver(r, [y]) && Deliver(r, [y]) == Deliver(t, []);
  }
}
