/**
 * Convergence of whole replicas, deletions included, for documents of unit items: arrays,
 * maps, and text inserted one character at a time.
 */
module UnitReplicas {
  import opened Ids
  import opened Cells
  import opened Integration
  import opened Convergence
  import opened Deletion
  import opened Exactness
  import opened DeleteOrder
  import opened Replicas

  predicate IsUnit(c: Cell) {
    c.len == 1 && !c.content.Gone?
  }

  predicate AllUnits(cells: seq<Cell>) {
    forall c :: c in cells ==> IsUnit(c)
  }

  ghost predicate UnitStore(s: DocState) {
    forall k :: AllUnits(ItemsOf(s.store, k))
  }

  predicate SameItems(s: DocState, t: DocState) {
    s.store == t.store && s.chains == t.chains
  }

  /** On unit items a range splits nothing and is exact, whatever was deleted before. */
  lemma ApplyToUnits(s: DocState, p: ClientRange)
    requires Inv(s) && UnitStore(s)
    ensures var t := ApplyRange(s, p.client, p.range);
            && Inv(t) && SameItems(s, t) && t.ds == s.ds
            && (forall id :: IsDead(t, id) <==> IsDead(s, id) || (Held(s, id) && id.client == p.client && InRange(p.range, id.clock)))
  {
    hide Find;
    var hi := Id(p.client, p.range.clock + p.range.len);
    SplitCut(s, Id(p.client, p.range.clock));
    SplitCut(s, hi);
    ApplyKeepsInv(s, p.client, p.range);
    ExactUnlessAcross(s, p.client, p.range);
    assert forall id :: ExactAt(s, p.client, p.range, id);
  }

  predicate InSomeRange(rs: seq<ClientRange>, id: Id) {
    exists p :: p in rs && p.client == id.client && InRange(p.range, id.clock)
  }

  lemma {:induction false} ApplyAllToUnits(s: DocState, rs: seq<ClientRange>)
    requires Inv(s) && UnitStore(s)
    ensures var t := ApplyAll(s, rs);
            && Inv(t) && SameItems(s, t) && t.ds == s.ds
            && (forall id :: IsDead(t, id) <==> IsDead(s, id) || (Held(s, id) && InSomeRange(rs, id)))
    decreases |rs|
  {
    hide Inv, ApplyRange, InRange;
    if rs != [] {
      var t := ApplyRange(s, rs[0].client, rs[0].range);
      ApplyToUnits(s, rs[0]);
      ApplyAllToUnits(t, rs[1..]);
      assert rs == [rs[0]] + rs[1..];
    }
  }

  lemma {:induction false} DeliverSame(s: DocState, t: DocState, items: seq<Cell>)
    requires SameItems(s, t)
    ensures SameItems(Deliver(s, items), Deliver(t, items))
    ensures Flows(s, items) <==> Flows(t, items)
    decreases |items|
  {
    hide Find, Link, Append, BornDead;
    if items != [] { DeliverSame(Receive(s, items[0]), Receive(t, items[0]), items[1..]); }
  }

  lemma {:induction false} DeliverConcat(s: DocState, a: seq<Cell>, b: seq<Cell>)
    ensures Deliver(s, a + b) == Deliver(Deliver(s, a), b)
    ensures Flows(s, a + b) <==> Flows(s, a) && Flows(Deliver(s, a), b)
    decreases |a|
  {
    hide Receive, Enabled;
    if a == [] {
      assert a + b == b;
    } else {
      DeliverConcat(Receive(s, a[0]), a[1..], b);
      assert (a + b)[0] == a[0] && (a + b)[1..] == a[1..] + b;
    }
  }

  /** A causal delivery of unit items keeps a replica fed, and lands. */
  lemma {:induction false} FlowsLands(s: DocState, items: seq<Cell>)
    requires Flows(s, items) && Fed(s) && UnitStore(s) && AllUnits(items)
    ensures Lands(s, items) && UnitStore(Deliver(s, items))
    decreases |items|
  {
    if items != [] {
      UnitsAfterReceive(s, items[0]);
      ReceiveKeepsFed(s, items[0]);
      FlowsLands(Receive(s, items[0]), items[1..]);
    }
  }

  lemma UnitsAfterReceive(s: DocState, x: Cell)
    requires UnitStore(s) && IsUnit(x)
    ensures UnitStore(Receive(s, x))
  {
    forall k ensures AllUnits(ItemsOf(Receive(s, x).store, k)) {
      assert AllUnits(ItemsOf(s.store, k));
    }
  }

  function Flat(rounds: seq<Round>): seq<Cell> {
    if rounds == [] then [] else rounds[0].update.items + Flat(rounds[1..])
  }

  /** Some update of the run deletes this ID. */
  predicate Deletes(rounds: seq<Round>, id: Id) {
    exists r :: r in rounds && InDeleteSet(r.update.ranges, id)
  }

  /** At every update the accumulated delete set is visited completely, in some order. */
  ghost predicate VisitsAll(ds: DeleteSet, rounds: seq<Round>)
    decreases |rounds|
  {
    rounds == [] ||
    (Visits(rounds[0].order, Merge(ds, rounds[0].update.ranges))
     && VisitsAll(Merge(ds, rounds[0].update.ranges), rounds[1..]))
  }

  /** Deleted units are the stored ones that the delete set covers. */
  ghost predicate UnitReplica(s: DocState) {
    Fed(s) && UnitStore(s) && Settled(s)
  }

  lemma VisitsCovers(order: seq<ClientRange>, ds: DeleteSet, id: Id)
    requires Visits(order, ds)
    ensures InSomeRange(order, id) <==> InDeleteSet(ds, id)
  {
    if InDeleteSet(ds, id) {
      var r :| r in ds[id.client] && InRange(r, id.clock);
      assert InDs(ds, ClientRange(id.client, r));
    }
  }

  lemma UnitsSettle(d: DocState, t: DocState, order: seq<ClientRange>)
    requires Fed(d) && UnitStore(d) && Inv(t) && SameItems(d, t) && t.ds == d.ds && Visits(order, d.ds)
    requires forall id :: IsDead(t, id) <==> IsDead(d, id) || (Held(d, id) && InSomeRange(order, id))
    ensures UnitReplica(t)
  {
    forall id ensures IsDead(t, id) <==> Due(t, id) {
      VisitsCovers(order, d.ds, id);
      UnitDue(t, id);
      if Held(d, id) { UnitItem(d, id); }
      UnitDue(d, id);
    }
    forall id | id in t.dead ensures Due(t, id) {
      assert IsDead(t, id);
    }
    forall id ensures !ArrivedGone(t, id) { UnitDue(t, id); }
  }

  /** A unit item is to be deleted exactly if the delete set covers it. */
  lemma UnitDue(s: DocState, id: Id)
    requires Inv(s) && UnitStore(s)
    ensures (Due(s, id) <==> Held(s, id) && InDeleteSet(s.ds, id)) && !ArrivedGone(s, id)
  {
    if Held(s, id) {
      UnitItem(s, id);
      assert AllUnits(ItemsOf(s.store, id.client));
    }
  }

  lemma UnitItem(s: DocState, id: Id)
    requires Inv(s) && UnitStore(s) && Held(s, id)
    ensures Lookup(s.store, id).value.id == id
  {
  }

  lemma UnitUpdate(s: DocState, u: Update, order: seq<ClientRange>)
    requires UnitReplica(s) && Flows(s, u.items) && AllUnits(u.items)
    requires Visits(order, Merge(s.ds, u.ranges))
    ensures var t := ApplyUpdate(s, u, order);
            UnitReplica(t) && SameItems(t, Deliver(s, u.items)) && t.ds == Merge(s.ds, u.ranges)
  {
    hide Inv, Receive, Link, Enabled, Resumes, ApplyRange;
    var s' := s.(ds := Merge(s.ds, u.ranges));
    MergeCovers(s.ds, u.ranges);
    FedMore(s, s'.ds);
    DeliverSame(s, s', u.items);
    FlowsLands(s', u.items);
    DeliverKeepsFed(s', u.items);
    var d := Deliver(s', u.items);
    ApplyAllToUnits(d, order);
    var t := ApplyAll(d, order);
    UnitsSettle(d, t, order);
  }

  lemma {:induction false} UnitRun(s: DocState, rounds: seq<Round>)
    requires UnitReplica(s) && Flows(s, Flat(rounds)) && AllUnits(Flat(rounds))
    requires VisitsAll(s.ds, rounds)
    ensures var t := Run(s, rounds);
            && UnitReplica(t) && SameItems(t, Deliver(s, Flat(rounds)))
            && (forall id :: InDeleteSet(t.ds, id) <==> InDeleteSet(s.ds, id) || Deletes(rounds, id))
    decreases |rounds|
  {
    hide UnitReplica, ApplyUpdate, Merge, Enabled, Receive, InDeleteSet, Visits;
    if rounds != [] {
      var u, rest := rounds[0].update, rounds[1..];
      var t, d := ApplyUpdate(s, u, rounds[0].order), Deliver(s, u.items);
      DeliverConcat(s, u.items, Flat(rest));
      UnitUpdate(s, u, rounds[0].order);
      DeliverSame(d, t, Flat(rest));
      UnitRun(t, rest);
      MergeCovers(s.ds, u.ranges);
      assert rounds == [rounds[0]] + rest;
    }
  }

  function Seen(c: Cell, dead: set<Id>): seq<Cell> {
    if c.id in dead then [] else [c]
  }

  /** What a reader sees of a list: its items that are not marked deleted. */
  function Visible(chain: seq<Cell>, dead: set<Id>): seq<Cell> {
    if chain == [] then [] else Seen(chain[0], dead) + Visible(chain[1..], dead)
  }

  lemma SettledDead(s: DocState, t: DocState)
    requires UnitReplica(s) && UnitReplica(t) && SameItems(s, t)
    requires forall id :: InDeleteSet(s.ds, id) <==> InDeleteSet(t.ds, id)
    ensures s.dead == t.dead
  {
    forall id ensures id in s.dead <==> id in t.dead {
      assert id in s.dead ==> IsStart(s.store, id) && IsDead(s, id);
      assert id in t.dead ==> IsStart(t.store, id) && IsDead(t, id);
      UnitDue(s, id);
      UnitDue(t, id);
      if Held(s, id) { UnitItem(s, id); }
    }
  }

  /** A whole history of one replica: causal, of unit items, with any order of deletes in each update. */
  ghost predicate UnitHistory(rounds: seq<Round>) {
    Flows(EMPTY, Flat(rounds)) && AllUnits(Flat(rounds)) && VisitsAll(map[], rounds)
  }

  /**
   * Replicas converge: two replicas that received the same items and the same deletions, the
   * items in whatever causal orders, cut into updates in whatever ways, the deletions at
   * whatever times, hold the same store and the same lists, and show the same content.
   */
  lemma ReplicasConverge(r1: seq<Round>, r2: seq<Round>)
    requires UnitHistory(r1) && UnitHistory(r2)
    requires multiset(Flat(r1)) == multiset(Flat(r2))
    requires forall id :: Deletes(r1, id) <==> Deletes(r2, id)
    ensures var s, t := Run(EMPTY, r1), Run(EMPTY, r2);
            && SameItems(s, t) && s.dead == t.dead
            && (forall k :: Visible(ChainOf(s.chains, k), s.dead) == Visible(ChainOf(t.chains, k), t.dead))
  {
    hide UnitReplica, Run, Flows, Deliver, Deletes, VisitsAll;
    EmptyReplica();
    UnitRun(EMPTY, r1);
    UnitRun(EMPTY, r2);
    Converges(EMPTY, Flat(r1), Flat(r2));
    SettledDead(Run(EMPTY, r1), Run(EMPTY, r2));
  }

  lemma EmptyReplica()
    ensures UnitReplica(EMPTY) && Inv(EMPTY)
  {
  }
}
