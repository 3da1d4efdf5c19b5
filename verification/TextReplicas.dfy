/**
 * Convergence of whole replicas, deletions included, for items of any length: when splitting an
 * item for a deletion does not disturb the items that arrive later.
 */
module TextReplicas {
  import opened Wrappers
  import opened Ids
  import opened Cells
  import opened Integration
  import opened Convergence
  import opened Deletion
  import opened Exactness
  import opened DeleteOrder
  import opened Replicas
  import opened UnitReplicas
  import opened Authoring
  import opened SplitLists

  // The whole document.

  /** An item that can be linked now. */
  predicate Ready(s: DocState, x: Cell) {
    Fits(s, x) && Lookup(s.store, x.id).None? && x.right.None? && Resolve(s.store, x).Some?
  }

  /** No split disturbs the new item in its list. */
  ghost predicate Calm(s: DocState, x: Cell) {
    var c := x.(home := Resolve(s.store, x));
    c.home.Some? ==> CalmIn(ChainOf(s.chains, KeyOf(c)), c)
  }

  predicate SplitsHere(s: DocState, at: Id) {
    Held(s, at) && Divides(Lookup(s.store, at).value, at)
  }

  lemma ReadyAfterSplit(s: DocState, x: Cell, at: Id)
    requires Inv(s) && Ready(s, x)
    ensures Ready(SplitAt(s, at), x) && Resolve(SplitAt(s, at).store, x) == Resolve(s.store, x)
  {
    hide Find, Sorted;
    SplitLookup(s, at, x.id);
    if x.left.Some? { SplitLookup(s, at, x.left.value); }
  }

  /** The items of a list that the clock can divide: the stored item that has it, if it is there. */
  lemma DividedIn(s: DocState, key: Key, at: Id) returns (j: nat)
    requires Inv(s) && SplitsHere(s, at)
    ensures var chain := ChainOf(s.chains, key);
            && j <= |chain| && (j < |chain| ==> DividedAt(chain, at, j)) && (j == |chain| ==> forall c :: c in chain ==> !Divides(c, at))
  {
    hide Divides;
    var chain, e := ChainOf(s.chains, key), Lookup(s.store, at).value;
    LookupSized(s, at);
    OnlyCoveredDivide(at);
    forall d | d in chain && Covers(d, at) ensures d == e {
      ListStored(s, key);
      FindIsUnique(ItemsOf(s.store, at.client), at.client, at, d);
    }
    if e in chain {
      j :| 0 <= j < |chain| && chain[j] == e;
      ListDistinct(s, key);
      forall i | 0 <= i < |chain| && i != j ensures !Covers(chain[i], at) { assert chain[i] in chain; }
    } else {
      j := |chain|;
    }
  }

  lemma ListDistinct(s: DocState, key: Key)
    requires Inv(s)
    ensures DistinctIds(ChainOf(s.chains, key))
  {
  }

  lemma CalmAfterSplit(s: DocState, x: Cell, at: Id)
    requires Inv(s) && Ready(s, x) && Calm(s, x)
    ensures Calm(SplitAt(s, at), x)
  {
    hide SplitSeq, Divides, CalmIn, KeyOf, Inv, DividedAt;
    ReadyAfterSplit(s, x, at);
    if SplitsHere(s, at) {
      var c := x.(home := Resolve(s.store, x));
      var chain := ChainOf(s.chains, KeyOf(c));
      var j := DividedIn(s, KeyOf(c), at);
      if j < |chain| { CalmAfterSplitIn(chain, at, j, c); } else { SplitSeqNone(chain, at); }
      SplitChainOf(s.chains, at, KeyOf(c));
    }
  }

  lemma SplitChainOf(chains: Chains, at: Id, key: Key)
    ensures ChainOf(SplitChains(chains, at), key) == SplitSeq(ChainOf(chains, key), at)
  {
  }

  /** The list of the new item, split before or after it was linked. */
  lemma LinkSplit(s: DocState, c: Cell, at: Id)
    requires Inv(s) && SplitsHere(s, at) && c.home.Some? && CalmIn(ChainOf(s.chains, KeyOf(c)), c)
    requires c.right.None? && !Covers(c, at) && c.id != at
    ensures var chain := ChainOf(s.chains, KeyOf(c)); Integrate(SplitSeq(chain, at), c) == SplitSeq(Integrate(chain, c), at)
  {
    hide SplitSeq, Place, Divides, KeyOf, Inv, DividedAt, CalmAt, Disturbs;
    var chain := ChainOf(s.chains, KeyOf(c));
    var j := DividedIn(s, KeyOf(c), at);
    if j < |chain| {
      assert CalmAt(chain, c, j);
      CalmUndisturbed(chain, at, j, c);
      IntegrateSplitIff(chain, at, j, c);
    } else {
      OnlyCoveredDivide(at);
      SplitSeqNone(chain, at);
      InsertAtElements(chain, Place(chain, c), c);
      SplitSeqNone(Integrate(chain, c), at);
    }
  }

  lemma OnlyCoveredDivide(at: Id)
    ensures forall c: Cell :: Divides(c, at) ==> Covers(c, at)
  {
  }

  lemma StoreSplit(store: Store, c: Cell, at: Id)
    requires !Covers(c, at)
    ensures Append(store[at.client := SplitSeq(ItemsOf(store, at.client), at)], c)
         == Append(store, c)[at.client := SplitSeq(ItemsOf(Append(store, c), at.client), at)]
  {
    hide SplitSeq;
    SplitAppended(ItemsOf(store, at.client), at, c);
  }

  lemma ChainsSplit(chains: Chains, c: Cell, at: Id)
    requires c.home.Some?
    requires var chain := ChainOf(chains, KeyOf(c)); Integrate(SplitSeq(chain, at), c) == SplitSeq(Integrate(chain, c), at)
    ensures SplitChains(Link(chains, c), at) == Link(SplitChains(chains, at), c)
  {
    hide Integrate, KeyOf;
    var key := KeyOf(c);
    assert ChainOf(SplitChains(chains, at), key) == SplitSeq(ChainOf(chains, key), at);
  }

  /** A split and an arriving item do not disturb each other. */
  lemma ReceiveSplit(s: DocState, x: Cell, at: Id)
    requires Inv(s) && Ready(s, x) && Calm(s, x) && SplitsHere(s, at)
    ensures SameItems(Receive(SplitAt(s, at), x), SplitAt(Receive(s, x), at)) && SplitsHere(Receive(s, x), at)
  {
    hide Inv, Find, SplitSeq, Divides, Integrate, CalmIn, Link, Append, SplitChains, BornDead;
    var c := x.(home := Resolve(s.store, x));
    ReadyAfterSplit(s, x, at);
    NewAvoids(s, x, at);
    LookupAfterAppend(s.store, c, at);
    LinkSplit(s, c, at);
    StoreSplit(s.store, c, at);
    ChainsSplit(s.chains, c, at);
  }

  lemma NewAvoids(s: DocState, x: Cell, at: Id)
    requires Inv(s) && Ready(s, x) && Held(s, at)
    ensures !Covers(x, at) && x.id != at
  {
    SortedBelow(ItemsOf(s.store, at.client), at.client, StateOf(s.store, at.client));
  }

  lemma {:induction false} SplitAppended(items: seq<Cell>, at: Id, c: Cell)
    requires !Covers(c, at)
    ensures SplitSeq(items + [c], at) == SplitSeq(items, at) + [c]
  {
    hide LeftPart, RightPart;
    if items == [] {
      assert [] + [c] == [c];
    } else {
      assert (items + [c])[1..] == items[1..] + [c];
      if !Divides(items[0], at) { SplitAppended(items[1..], at, c); }
    }
  }

  // Whole runs: a replica is what it received, split at some clocks.

  function SplitAll(s: DocState, cuts: seq<Id>): DocState
    decreases |cuts|
  {
    if cuts == [] then s else SplitAll(SplitAt(s, cuts[0]), cuts[1..])
  }

  ghost predicate AllSplit(s: DocState, cuts: seq<Id>)
    decreases |cuts|
  {
    cuts == [] || (SplitsHere(s, cuts[0]) && AllSplit(SplitAt(s, cuts[0]), cuts[1..]))
  }

  lemma {:induction false} SameSplits(s: DocState, t: DocState, cuts: seq<Id>)
    requires SameItems(s, t)
    ensures SameItems(SplitAll(s, cuts), SplitAll(t, cuts)) && (AllSplit(s, cuts) <==> AllSplit(t, cuts))
    decreases |cuts|
  {
    hide SplitSeq, Find, Divides;
    if cuts != [] { SameSplits(SplitAt(s, cuts[0]), SplitAt(t, cuts[0]), cuts[1..]); }
  }

  lemma {:induction false} OneMoreCut(s: DocState, cuts: seq<Id>, at: Id)
    requires AllSplit(s, cuts) && SplitsHere(SplitAll(s, cuts), at)
    ensures SplitAll(s, cuts + [at]) == SplitAt(SplitAll(s, cuts), at) && AllSplit(s, cuts + [at])
    decreases |cuts|
  {
    hide SplitAt, SplitsHere;
    if cuts == [] {
      assert [at][1..] == [] && [] + [at] == [at];
    } else {
      OneMoreCut(SplitAt(s, cuts[0]), cuts[1..], at);
      assert (cuts + [at])[0] == cuts[0] && (cuts + [at])[1..] == cuts[1..] + [at];
    }
  }

  lemma SameReceive(s: DocState, t: DocState, x: Cell)
    requires SameItems(s, t)
    ensures SameItems(Receive(s, x), Receive(t, x)) && (Ready(s, x) <==> Ready(t, x))
  {
    hide Find, Link, Append, BornDead;
  }

  lemma {:induction false} ReceiveAfterCuts(d: DocState, cuts: seq<Id>, x: Cell)
    requires Inv(d) && Ready(d, x) && Calm(d, x) && AllSplit(d, cuts)
    ensures SameItems(Receive(SplitAll(d, cuts), x), SplitAll(Receive(d, x), cuts))
    ensures AllSplit(Receive(d, x), cuts) && Ready(SplitAll(d, cuts), x)
    decreases |cuts|
  {
    hide Inv, SplitAt, SplitsHere, Receive, Ready, Calm;
    if cuts != [] {
      var at, rest := cuts[0], cuts[1..];
      var e := SplitAt(d, at);
      SplitKeepsInv(d, at);
      ReadyAfterSplit(d, x, at);
      CalmAfterSplit(d, x, at);
      ReceiveAfterCuts(e, rest, x);
      ReceiveSplit(d, x, at);
      SameSplits(Receive(e, x), SplitAt(Receive(d, x), at), rest);
    }
  }

  /** The replica has the items of the other one, split at these clocks. */
  ghost predicate Splits(t: DocState, d: DocState, cuts: seq<Id>) {
    Inv(d) && AllSplit(d, cuts) && SameItems(t, SplitAll(d, cuts))
  }

  ghost predicate AllCalm(d: DocState, items: seq<Cell>)
    decreases |items|
  {
    items == [] || (Calm(d, items[0]) && AllCalm(Receive(d, items[0]), items[1..]))
  }

  lemma EnabledIsReady(d: DocState, x: Cell)
    requires Enabled(d, x)
    ensures Ready(d, x)
  {
  }

  lemma ReadyFits(s: DocState, x: Cell)
    requires Ready(s, x)
    ensures Fits(s, x)
  {
  }

  lemma {:induction false} DeliverSplits(t: DocState, d: DocState, cuts: seq<Id>, items: seq<Cell>)
    requires Splits(t, d, cuts) && Flows(d, items) && AllCalm(d, items)
    ensures Splits(Deliver(t, items), Deliver(d, items), cuts) && Lands(t, items)
    decreases |items|
  {
    hide Inv, SplitAll, AllSplit, Receive, Ready, Calm, Enabled, Fits;
    if items != [] {
      var x := items[0];
      EnabledIsReady(d, x);
      ReceiveAfterCuts(d, cuts, x);
      SameReceive(t, SplitAll(d, cuts), x);
      ReadyFits(t, x);
      ReadyFits(d, x);
      ReceiveKeepsInv(d, x);
      DeliverSplits(Receive(t, x), Receive(d, x), cuts, items[1..]);
    }
  }

  lemma SplitMore(t: DocState, d: DocState, cuts: seq<Id>, at: Id) returns (more: seq<Id>)
    requires Splits(t, d, cuts)
    ensures Splits(SplitAt(t, at), d, more)
  {
    hide Inv, SplitSeq, Find, Divides;
    if SplitsHere(t, at) {
      more := cuts + [at];
      OneMoreCut(d, cuts, at);
    } else {
      more := cuts;
    }
  }

  lemma {:induction false} DeletesSplit(t: DocState, d: DocState, cuts: seq<Id>, order: seq<ClientRange>) returns (more: seq<Id>)
    requires Splits(t, d, cuts)
    ensures Splits(ApplyAll(t, order), d, more)
    decreases |order|
  {
    hide Inv, SplitAll, AllSplit, SplitAt;
    if order == [] {
      more := cuts;
    } else {
      var p := order[0];
      more := SplitMore(t, d, cuts, Id(p.client, p.range.clock));
      more := SplitMore(SplitAt(t, Id(p.client, p.range.clock)), d, more, Id(p.client, p.range.clock + p.range.len));
      more := DeletesSplit(ApplyRange(t, p.client, p.range), d, more, order[1..]);
    }
  }

  /** At every update some range starts wherever one that is known by then ends strictly inside another one. */
  ghost predicate ResumesAll(ds: DeleteSet, rounds: seq<Round>)
    decreases |rounds|
  {
    rounds == [] || (Resumes(Merge(ds, rounds[0].update.ranges)) && ResumesAll(Merge(ds, rounds[0].update.ranges), rounds[1..]))
  }

  /** A replica on its way: what it received, split at some clocks, and everything deleted that is to be deleted. */
  ghost predicate Current(t: DocState, d: DocState, cuts: seq<Id>) {
    Splits(t, d, cuts) && Fed(t) && Settled(t)
  }

  lemma RoundSplits(t: DocState, d: DocState, cuts: seq<Id>, r: Round) returns (more: seq<Id>)
    requires Current(t, d, cuts) && Flows(d, r.update.items) && AllCalm(d, r.update.items)
    requires var ds := Merge(t.ds, r.update.ranges); Visits(r.order, ds) && Resumes(ds)
    ensures var u := ApplyUpdate(t, r.update, r.order);
            Current(u, Deliver(d, r.update.items), more) && u.ds == Merge(t.ds, r.update.ranges)
  {
    hide Inv, SplitAll, AllSplit, Fed, Settled, Lands, Flows, AllCalm, Visits, Resumes, ApplyAll, Deliver;
    var t' := t.(ds := Merge(t.ds, r.update.ranges));
    DeliverSplits(t', d, cuts, r.update.items);
    more := DeletesSplit(Deliver(t', r.update.items), Deliver(d, r.update.items), cuts, r.order);
    UpdateSettles(t, r.update, r.order);
  }

  lemma {:induction false} CalmParts(d: DocState, a: seq<Cell>, b: seq<Cell>)
    ensures AllCalm(d, a + b) <==> AllCalm(d, a) && AllCalm(Deliver(d, a), b)
    decreases |a|
  {
    hide Receive, Calm;
    if a == [] {
      assert a + b == b;
    } else {
      CalmParts(Receive(d, a[0]), a[1..], b);
      assert (a + b)[0] == a[0] && (a + b)[1..] == a[1..] + b;
    }
  }

  lemma {:induction false} RunSplits(t: DocState, d: DocState, cuts: seq<Id>, rounds: seq<Round>) returns (more: seq<Id>)
    requires Current(t, d, cuts) && Flows(d, Flat(rounds)) && AllCalm(d, Flat(rounds))
    requires VisitsAll(t.ds, rounds) && ResumesAll(t.ds, rounds)
    ensures var u := Run(t, rounds);
            && Current(u, Deliver(d, Flat(rounds)), more)
            && forall id :: InDeleteSet(u.ds, id) <==> InDeleteSet(t.ds, id) || Deletes(rounds, id)
    decreases |rounds|
  {
    hide Current, ApplyUpdate, Merge, Enabled, Receive, InDeleteSet, Visits, Resumes, Calm;
    if rounds == [] {
      more := cuts;
    } else {
      var r, rest := rounds[0], rounds[1..];
      DeliverConcat(d, r.update.items, Flat(rest));
      CalmParts(d, r.update.items, Flat(rest));
      var mid := ApplyUpdate(t, r.update, r.order);
      more := RoundSplits(t, d, cuts, r);
      more := RunSplits(mid, Deliver(d, r.update.items), more, rest);
      MergeCovers(t.ds, r.update.ranges);
      assert rounds == [r] + rest;
    }
  }

  // What is shown.

  /** The units of the items of a list that are not deleted. */
  function Shown(chain: seq<Cell>, dead: set<Id>): seq<Unit> {
    if chain == [] then [] else (if chain[0].id in dead then [] else UnitsOf(chain[0])) + Shown(chain[1..], dead)
  }

  /** The units that are not deleted. */
  function Alive(units: seq<Unit>, s: DocState): seq<Unit> {
    if units == [] then [] else (if IsDead(s, units[0].id) then [] else [units[0]]) + Alive(units[1..], s)
  }

  lemma {:induction false} AliveConcat(a: seq<Unit>, b: seq<Unit>, s: DocState)
    ensures Alive(a + b, s) == Alive(a, s) + Alive(b, s)
  {
    hide IsDead, Alive;
    if a == [] {
      assert a + b == b;
      AliveNothing(s);
      assert [] + Alive(b, s) == Alive(b, s);
    } else {
      AliveConcat(a[1..], b, s);
      AliveFirst(a, s);
      AliveFirst(a + b, s);
      assert (a + b)[0] == a[0] && (a + b)[1..] == a[1..] + b;
      var first := if IsDead(s, a[0].id) then [] else [a[0]];
      assert first + (Alive(a[1..], s) + Alive(b, s)) == first + Alive(a[1..], s) + Alive(b, s);
    }
  }

  lemma AliveNothing(s: DocState)
    ensures Alive([], s) == []
  {
  }

  lemma AliveFirst(a: seq<Unit>, s: DocState)
    requires a != []
    ensures Alive(a, s) == (if IsDead(s, a[0].id) then [] else [a[0]]) + Alive(a[1..], s)
  {
  }

  lemma {:induction false} AliveOfItem(units: seq<Unit>, s: DocState, gone: bool)
    requires forall u :: u in units ==> (IsDead(s, u.id) <==> gone)
    ensures Alive(units, s) == if gone then [] else units
  {
    hide IsDead;
    if units != [] {
      assert units[0] in units;
      AliveOfItem(units[1..], s, gone);
    }
  }

  lemma UnitsDead(s: DocState, c: Cell, u: Unit)
    requires Inv(s) && InStore(s.store, c) && u in UnitsOf(c)
    ensures IsDead(s, u.id) <==> c.id in s.dead
  {
    FindIsUnique(ItemsOf(s.store, c.id.client), c.id.client, u.id, c);
  }

  lemma {:induction false} ShownIsAlive(s: DocState, chain: seq<Cell>)
    requires Inv(s) && forall c :: c in chain ==> InStore(s.store, c)
    ensures Shown(chain, s.dead) == Alive(Units(chain), s)
  {
    hide Inv, UnitsOf, IsDead, InStore;
    if chain != [] {
      var c := chain[0];
      assert c in chain;
      ShownIsAlive(s, chain[1..]);
      AliveConcat(UnitsOf(c), Units(chain[1..]), s);
      forall u | u in UnitsOf(c) ensures IsDead(s, u.id) <==> c.id in s.dead { UnitsDead(s, c, u); }
      AliveOfItem(UnitsOf(c), s, c.id in s.dead);
    }
  }

  lemma {:induction false} SameAlive(units: seq<Unit>, s: DocState, t: DocState)
    requires forall id :: IsDead(s, id) <==> IsDead(t, id)
    ensures Alive(units, s) == Alive(units, t)
  {
    hide IsDead;
    if units != [] { SameAlive(units[1..], s, t); }
  }

  /** Splits change neither which units there are nor what decides about them. */
  predicate SameUnit(s: DocState, t: DocState, id: Id) {
    && (Held(t, id) <==> Held(s, id))
    && (Held(s, id) ==>
          var c, d := Lookup(s.store, id).value, Lookup(t.store, id).value;
          d.content.Gone? == c.content.Gone? && Deciding(d, id) == Deciding(c, id))
  }

  lemma {:induction false} CutsKeepUnits(d: DocState, cuts: seq<Id>, id: Id, key: Key)
    requires Inv(d)
    ensures var t := SplitAll(d, cuts);
            Inv(t) && SameUnit(d, t, id) && Units(ChainOf(t.chains, key)) == Units(ChainOf(d.chains, key))
    decreases |cuts|
  {
    hide Inv, SplitSeq, Units;
    if cuts != [] {
      SplitKeepsInv(d, cuts[0]);
      SplitItem(d, cuts[0], id);
      CutsKeepUnits(SplitAt(d, cuts[0]), cuts[1..], id, key);
      SplitKeepsUnits(ChainOf(d.chains, key), cuts[0]);
      assert SameUnit(d, SplitAt(d, cuts[0]), id);
    }
  }

  lemma SameDue(s: DocState, t: DocState, id: Id)
    requires SameUnit(s, t, id) && forall i :: InDeleteSet(s.ds, i) <==> InDeleteSet(t.ds, i)
    ensures Due(s, id) <==> Due(t, id)
  {
  }

  /** Two replicas that received the same show the same. */
  lemma SameShown(s: DocState, t: DocState, d: DocState, a: seq<Id>, b: seq<Id>, key: Key)
    requires Current(s, d, a) && Current(t, d, b) && forall id :: InDeleteSet(s.ds, id) <==> InDeleteSet(t.ds, id)
    ensures (forall id :: IsDead(s, id) <==> IsDead(t, id)) && Shown(ChainOf(s.chains, key), s.dead) == Shown(ChainOf(t.chains, key), t.dead)
  {
    hide Inv, SplitAll, AllSplit, Units, Alive, Shown, Due, IsDead;
    forall id ensures IsDead(s, id) <==> IsDead(t, id) {
      CutsKeepUnits(d, a, id, key);
      CutsKeepUnits(d, b, id, key);
      SameDue(s, t, id);
    }
    CutsKeepUnits(d, a, Id(0, 0), key);
    CutsKeepUnits(d, b, Id(0, 0), key);
    ListStored(s, key);
    ListStored(t, key);
    ShownIsAlive(s, ChainOf(s.chains, key));
    ShownIsAlive(t, ChainOf(t.chains, key));
    SameAlive(Units(ChainOf(d.chains, key)), s, t);
  }

  /** No string is in the list of a map key, so nothing in it is ever split. */
  lemma {:induction false} EntriesWhole(d: DocState, cuts: seq<Id>, key: Key)
    requires Inv(d) && key.sub.Some?
    ensures ChainOf(SplitAll(d, cuts).chains, key) == ChainOf(d.chains, key)
    decreases |cuts|
  {
    hide SplitSeq;
    if cuts != [] {
      SplitKeepsInv(d, cuts[0]);
      EntriesWhole(SplitAt(d, cuts[0]), cuts[1..], key);
      SplitSeqNone(ChainOf(d.chains, key), cuts[0]);
    }
  }

  lemma ListStored(s: DocState, key: Key)
    requires Inv(s)
    ensures forall c :: c in ChainOf(s.chains, key) ==> InStore(s.store, c)
  {
  }

  /** A whole history of one replica: causal, calm, with any order of deletes in each update. */
  ghost predicate History(rounds: seq<Round>) {
    Flows(EMPTY, Flat(rounds)) && AllCalm(EMPTY, Flat(rounds)) && VisitsAll(map[], rounds) && ResumesAll(map[], rounds)
  }

  lemma NothingYet()
    ensures Current(EMPTY, EMPTY, [])
  {
  }

  /**
   * Replicas converge, texts included: two replicas that received the same items, of any length, and
   * the same deletions, the items in whatever causal orders, cut into updates in whatever ways, the
   * deletions at whatever times and with whatever splits, have the same units deleted and show the
   * same units in every list, and have the same entries of every map key, if no split disturbs an item
   * that arrives later.
   */
  lemma TextsConverge(r1: seq<Round>, r2: seq<Round>, key: Key)
    requires History(r1) && History(r2)
    requires multiset(Flat(r1)) == multiset(Flat(r2))
    requires forall id :: Deletes(r1, id) <==> Deletes(r2, id)
    ensures var s, t := Run(EMPTY, r1), Run(EMPTY, r2);
            && (forall id :: IsDead(s, id) <==> IsDead(t, id))
            && Shown(ChainOf(s.chains, key), s.dead) == Shown(ChainOf(t.chains, key), t.dead)
            && (key.sub.Some? ==> ChainOf(s.chains, key) == ChainOf(t.chains, key))
  {
    hide Current, Run, Flows, Deliver, Deletes, VisitsAll, ResumesAll, AllCalm, Shown, IsDead, SplitAll;
    NothingYet();
    EmptyReplica();
    var a := RunSplits(EMPTY, EMPTY, [], r1);
    var b := RunSplits(EMPTY, EMPTY, [], r2);
    Converges(EMPTY, Flat(r1), Flat(r2));
    var d := Deliver(EMPTY, Flat(r1));
    SameShown(Run(EMPTY, r1), Run(EMPTY, r2), d, a, b, key);
    if key.sub.Some? {
      CurrentIs(Run(EMPTY, r1), d, a);
      CurrentIs(Run(EMPTY, r2), d, b);
      EntriesWhole(d, a, key);
      EntriesWhole(d, b, key);
    }
  }

  lemma CurrentIs(t: DocState, d: DocState, cuts: seq<Id>)
    requires Current(t, d, cuts)
    ensures Inv(d) && t.chains == SplitAll(d, cuts).chains
  {
  }

  // When runs are calm, and what happens otherwise.

  /**
   * No split of the item disturbs the other one, wherever they are: the other one does not go before
   * what follows its origin inside of the item, or it goes before the whole item, or it does not go
   * before what follows the first character of the item either.
   */
  predicate QuietFor(e: Cell, x: Cell) {
    if x.left.Some? && Covers(e, x.left.value) then
      InsideString(e, x.left.value.clock + 1) ==> !GoesBefore(x, Id(e.id.client, x.left.value.clock + 1))
    else
      InsideString(e, e.id.clock + 1) ==> Before(x, e) || !GoesBefore(x, Id(e.id.client, e.id.clock + 1))
  }

  predicate QuietPair(x: Cell, e: Cell) {
    x.id != e.id ==> QuietFor(e, x)
  }

  predicate Quiet(items: seq<Cell>) {
    forall x, e :: x in items && e in items ==> QuietPair(x, e)
  }

  /** Every stored item is one of these, with its parent resolved. */
  ghost predicate StoredFrom(d: DocState, items: seq<Cell>) {
    forall c :: InStore(d.store, c) ==> exists e :: e in items && c == e.(home := c.home)
  }

  lemma StoredMore(d: DocState, items: seq<Cell>, x: Cell)
    requires StoredFrom(d, items) && x in items
    ensures StoredFrom(Receive(d, x), items)
  {
    hide Find;
    var t := Receive(d, x);
    forall c | InStore(t.store, c) ensures exists e :: e in items && c == e.(home := c.home) {
      if !InStore(d.store, c) { assert c == x.(home := c.home); }
    }
  }

  lemma QuietCalm(d: DocState, all: seq<Cell>, x: Cell)
    requires Inv(d) && StoredFrom(d, all) && Quiet(all) && x in all && Ready(d, x)
    ensures Calm(d, x)
  {
    hide Ready, QuietFor, Inv, CalmAt, KeyOf;
    var c := x.(home := Resolve(d.store, x));
    if c.home.Some? {
      var key := KeyOf(c);
      var chain := ChainOf(d.chains, key);
      forall k | 0 <= k < |chain| ensures CalmAt(chain, c, k) {
        ListStored(d, key);
        assert chain[k] in chain;
        var e :| e in all && chain[k] == e.(home := chain[k].home);
        StoredIsOther(d, x, chain[k]);
        assert QuietPair(x, e);
        QuietForSame(chain[k], e, x, c);
        if c.left.Some? { OriginOnce(d, key, c.left.value, k); }
        QuietAt(chain, c, k);
      }
    }
  }

  /** No other item of the list has the origin. */
  lemma OriginOnce(d: DocState, key: Key, left: Id, k: nat)
    requires Inv(d) && k < |ChainOf(d.chains, key)|
    ensures var chain := ChainOf(d.chains, key); Covers(chain[k], left) ==> IndexOf(chain, left) == k
  {
    var chain := ChainOf(d.chains, key);
    if Covers(chain[k], left) {
      var i := IndexOf(chain, left);
      assert chain[i] in chain && chain[k] in chain;
      FindIsUnique(ItemsOf(d.store, left.client), left.client, left, chain[i]);
      FindIsUnique(ItemsOf(d.store, left.client), left.client, left, chain[k]);
    }
  }

  lemma QuietAt(chain: seq<Cell>, x: Cell, k: nat)
    requires k < |chain| && x.right.None? && QuietFor(chain[k], x)
    requires x.left.Some? && Covers(chain[k], x.left.value) ==> IndexOf(chain, x.left.value) == k
    ensures CalmAt(chain, x, k)
  {
    hide GoesBefore, InsideString;
    if Start(chain, x.left) <= k < Place(chain, x) { PassedAll(chain, k, x); }
  }

  lemma StoredIsOther(d: DocState, x: Cell, c: Cell)
    requires Inv(d) && Ready(d, x) && InStore(d.store, c)
    ensures c.id != x.id && x.right.None?
  {
    FindIsUnique(ItemsOf(d.store, c.id.client), c.id.client, c.id, c);
  }

  lemma QuietForSame(c: Cell, e: Cell, x: Cell, y: Cell)
    requires c == e.(home := c.home) && y == x.(home := y.home) && QuietFor(e, x)
    ensures QuietFor(c, y)
  {
  }

  /**
   * The condition on two items is exact: if it does not hold, there is a list with the one in it for
   * which a split of it, before or after the other one arrives, leads to different characters.
   */
  lemma UnquietMoves(x: Cell, e: Cell) returns (chain: seq<Cell>, at: Id, j: nat)
    requires Sized(x) && Sized(e) && x.right.None? && NoOverlap(e, x) && (x.left.Some? ==> !Covers(x, x.left.value))
    requires !QuietFor(e, x)
    ensures DividedAt(chain, at, j) && chain[j] == e && Separate(chain, x)
    ensures Units(Integrate(SplitSeq(chain, at), x)) != Units(SplitSeq(Integrate(chain, x), at))
  {
    hide GoesBefore, SplitSeq, Units, Integrate, Disturbs, DividedAt;
    if x.left.None? || Covers(e, x.left.value) {
      chain, j := [e], 0;
      AloneUncalm(e, x);
    } else {
      var o := Cell(x.left.value, 1, None, None, None, None, Str([[0x61]]));
      chain, j := [o, e], 1;
      AfterUncalm(o, e, x);
    }
    at := DisturbedAt(chain, x, j);
    DisturbedShows(chain, at, j, x);
  }

  lemma AloneUncalm(e: Cell, x: Cell)
    requires Sized(x) && Sized(e) && x.right.None? && NoOverlap(e, x) && !QuietFor(e, x) && (x.left.None? || Covers(e, x.left.value))
    ensures Separate([e], x) && !CalmAt([e], x, 0)
  {
    hide GoesBefore;
    if x.left.Some? { IndexOfIs([e], x.left.value, 0); } else { PassedBy([e], 0, x); }
  }

  lemma AfterUncalm(o: Cell, e: Cell, x: Cell)
    requires Sized(x) && Sized(e) && Sized(o) && x.right.None? && NoOverlap(e, x) && !QuietFor(e, x)
    requires x.left.Some? && !Covers(e, x.left.value) && !Covers(x, x.left.value) && o.id == x.left.value && o.len == 1
    ensures Separate([o, e], x) && !CalmAt([o, e], x, 1)
  {
    hide GoesBefore;
    IndexOfIs([o, e], x.left.value, 0);
    PassedBy([o, e], 1, x);
  }

  /** Items that do not get in each other's way, whichever comes first, are calm in every causal order. */
  lemma {:induction false} QuietIsCalm(d: DocState, items: seq<Cell>, all: seq<Cell>)
    requires Inv(d) && StoredFrom(d, all) && Quiet(all) && Flows(d, items) && forall x :: x in items ==> x in all
    ensures AllCalm(d, items)
    decreases |items|
  {
    hide Inv, Receive, Ready, Calm, Enabled, Quiet, StoredFrom;
    if items != [] {
      var x := items[0];
      EnabledIsReady(d, x);
      ReadyFits(d, x);
      QuietCalm(d, all, x);
      ReceiveKeepsInv(d, x);
      StoredMore(d, all, x);
      QuietIsCalm(Receive(d, x), items[1..], all);
    }
  }
}
