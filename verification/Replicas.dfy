/**
 * ApplyUpdate of doc.go on values, and what holds of replicas over whole runs of updates.
 */
module Replicas {
  import opened Ids
  import opened Cells
  import opened Integration
  import opened Deletion
  import opened Exactness
  import opened DeleteOrder

  /** A decoded update: the items, parents unresolved, and the delete set. */
  datatype Update = Update(items: seq<Cell>, ranges: DeleteSet)

  function RangesOf(ds: DeleteSet, client: nat): seq<Range> {
    if client in ds then ds[client] else []
  }

  /** Accumulating delete ranges: every range of the update is appended to those of its client. */
  function Merge(ds: DeleteSet, more: DeleteSet): DeleteSet {
    map c | c in ds.Keys + more.Keys :: RangesOf(ds, c) + RangesOf(more, c)
  }

  /** ApplyUpdate, with the order in which it visits the accumulated delete set. */
  function ApplyUpdate(s: DocState, u: Update, order: seq<ClientRange>): DocState {
    ApplyAll(Deliver(s.(ds := Merge(s.ds, u.ranges)), u.items), order)
  }

  /** The order visits the whole accumulated delete set and nothing else. */
  ghost predicate Visits(order: seq<ClientRange>, ds: DeleteSet) {
    forall p :: p in order <==> InDs(ds, p)
  }

  /** Items that arrive in clock order or are known already; the origin may be unknown. */
  ghost predicate Lands(s: DocState, items: seq<Cell>)
    decreases |items|
  {
    items == [] || (Fits(s, items[0]) && Lands(Receive(s, items[0]), items[1..]))
  }

  lemma ReceiveKeepsFed(s: DocState, x: Cell)
    requires Fed(s) && Fits(s, x)
    ensures Fed(Receive(s, x)) && Held(Receive(s, x), x.id)
    ensures forall id :: Held(s, id) ==> Held(Receive(s, x), id)
  {
    hide Inv, Find, Link;
    var t := Receive(s, x);
    ReceiveKeepsInv(s, x);
    forall id | id in t.dead ensures Due(t, id) { LookupAfterAppend(s.store, x.(home := Resolve(s.store, x)), id); }
    forall id | ArrivedGone(t, id) ensures IsDead(t, id) {
      LookupAfterAppend(s.store, x.(home := Resolve(s.store, x)), id);
      assert Held(s, id) ==> ArrivedGone(s, id);
    }
    forall id ensures Held(s, id) ==> Held(Receive(s, x), id) {
      LookupAfterAppend(s.store, x.(home := Resolve(s.store, x)), id);
    }
    LookupAfterAppend(s.store, x.(home := Resolve(s.store, x)), x.id);
  }

  lemma {:induction false} DeliverKeepsFed(s: DocState, items: seq<Cell>)
    requires Fed(s) && Lands(s, items)
    ensures var t := Deliver(s, items);
            && Fed(t) && t.ds == s.ds
            && (forall x :: x in items ==> Held(t, x.id))
            && (forall id :: Held(s, id) ==> Held(t, id))
    decreases |items|
  {
    hide Fed, Receive, Fits, Held;
    if items != [] {
      ReceiveKeepsFed(s, items[0]);
      DeliverKeepsFed(Receive(s, items[0]), items[1..]);
      ReceiveKeepsDs(s, items[0]);
    }
  }

  lemma ReceiveKeepsDs(s: DocState, x: Cell)
    ensures Receive(s, x).ds == s.ds
  {
  }

  /** A whole number of updates, each with the order in which its deletes were applied. */
  datatype Round = Round(update: Update, order: seq<ClientRange>)

  function Run(s: DocState, rounds: seq<Round>): DocState
    decreases |rounds|
  {
    if rounds == [] then s else Run(ApplyUpdate(s, rounds[0].update, rounds[0].order), rounds[1..])
  }

  /** Every update lands, and wherever a known range ends strictly inside another one some range starts. */
  ghost predicate Runs(s: DocState, rounds: seq<Round>)
    decreases |rounds|
  {
    rounds == [] ||
    (var u, order, ds := rounds[0].update, rounds[0].order, Merge(s.ds, rounds[0].update.ranges);
     && Lands(s.(ds := ds), u.items) && Visits(order, ds) && Resumes(ds)
     && Runs(ApplyUpdate(s, u, order), rounds[1..]))
  }

  lemma MergeCovers(ds: DeleteSet, more: DeleteSet)
    ensures forall p :: InDs(Merge(ds, more), p) <==> InDs(ds, p) || InDs(more, p)
    ensures forall id :: InDeleteSet(Merge(ds, more), id) <==> InDeleteSet(ds, id) || InDeleteSet(more, id)
  {
  }

  lemma UpdateSettles(s: DocState, u: Update, order: seq<ClientRange>)
    requires Fed(s)
    requires var ds := Merge(s.ds, u.ranges);
             Lands(s.(ds := ds), u.items) && Visits(order, ds) && Resumes(ds)
    ensures var t := ApplyUpdate(s, u, order);
            && Fed(t) && Settled(t) && t.ds == Merge(s.ds, u.ranges)
            && (forall p :: InDs(t.ds, p) ==> Done(t, p))
            && (forall x :: x in u.items ==> Held(t, x.id))
  {
    hide Inv, Held, IsDead, InDeleteSet, Resumes, Lands, Receive, ApplyRange;
    var s' := s.(ds := Merge(s.ds, u.ranges));
    MergeCovers(s.ds, u.ranges);
    FedMore(s, s'.ds);
    DeliverKeepsFed(s', u.items);
    OrderFree(Deliver(s', u.items), order);
  }

  lemma InvIgnoresDs(s: DocState, ds: DeleteSet)
    ensures Inv(s) ==> Inv(s.(ds := ds))
  {
  }

  /** A replica may learn of more deletions. */
  lemma FedMore(s: DocState, ds: DeleteSet)
    requires Fed(s) && forall id :: InDeleteSet(s.ds, id) ==> InDeleteSet(ds, id)
    ensures Fed(s.(ds := ds))
  {
    var t := s.(ds := ds);
    InvIgnoresDs(s, ds);
    forall id | id in t.dead ensures Due(t, id) { assert Due(s, id); }
    forall id | ArrivedGone(t, id) ensures IsDead(t, id) { assert ArrivedGone(s, id); }
  }

  /**
   * Order-free deletion over whole runs: after any number of updates, deletes before or after
   * the items they delete, a stored unit is deleted exactly when a received range covers it.
   */
  lemma {:induction false} RunSettles(s: DocState, rounds: seq<Round>)
    requires Fed(s) && Settled(s) && Runs(s, rounds)
    ensures Fed(Run(s, rounds)) && Settled(Run(s, rounds))
    decreases |rounds|
  {
    hide Fed, Settled, ApplyUpdate;
    if rounds != [] {
      UpdateSettles(s, rounds[0].update, rounds[0].order);
      RunSettles(ApplyUpdate(s, rounds[0].update, rounds[0].order), rounds[1..]);
    }
  }

  lemma SplitCut(s: DocState, at: Id)
    requires Cut(s, at)
    ensures SplitAt(s, at) == s
  {
  }

  lemma ApplyDone(s: DocState, p: ClientRange)
    requires Inv(s) && Done(s, p)
    ensures ApplyRange(s, p.client, p.range) == s
  {
    SplitCut(s, Id(p.client, p.range.clock));
    SplitCut(s, Id(p.client, LastOf(p.range)));
    forall c | c in ItemsOf(s.store, p.client) && InRange(p.range, c.id.clock) ensures c.id in s.dead {
      FindIsUnique(ItemsOf(s.store, p.client), p.client, c.id, c);
      assert IsDead(s, c.id);
    }
  }

  lemma {:induction false} ApplyAllDoneAgain(s: DocState, rs: seq<ClientRange>)
    requires Inv(s) && forall p :: p in rs ==> Done(s, p)
    ensures ApplyAll(s, rs) == s
    decreases |rs|
  {
    hide Inv, Done, ApplyRange;
    if rs != [] {
      ApplyDone(s, rs[0]);
      ApplyAllDoneAgain(s, rs[1..]);
    }
  }

  lemma {:induction false} DeliverKnown(s: DocState, items: seq<Cell>)
    requires forall x :: x in items ==> Held(s, x.id)
    ensures Deliver(s, items) == s
    decreases |items|
  {
    if items != [] {
      assert Receive(s, items[0]) == s;
      DeliverKnown(s, items[1..]);
    }
  }

  /** What a run leaves of what it received: every item is known, and every range is known and done. */
  ghost predicate Received(t: DocState, u: Update) {
    && (forall x :: x in u.items ==> Held(t, x.id))
    && (forall p :: InDs(u.ranges, p) ==> InDs(t.ds, p))
  }

  ghost predicate AllDone(t: DocState) {
    forall p :: InDs(t.ds, p) ==> Done(t, p)
  }

  /** Nothing that was known is forgotten. */
  ghost predicate Remembers(s: DocState, t: DocState) {
    && (forall id :: Held(s, id) ==> Held(t, id))
    && (forall p :: InDs(s.ds, p) ==> InDs(t.ds, p))
  }

  lemma UpdateReceives(s: DocState, u: Update, order: seq<ClientRange>)
    requires Fed(s)
    requires var ds := Merge(s.ds, u.ranges);
             Lands(s.(ds := ds), u.items) && Visits(order, ds) && Resumes(ds)
    ensures var t := ApplyUpdate(s, u, order); Fed(t) && AllDone(t) && Received(t, u) && Remembers(s, t)
  {
    hide Inv, Held, IsDead, InDeleteSet, Resumes, Lands, Receive, ApplyRange, Done;
    var s' := s.(ds := Merge(s.ds, u.ranges));
    UpdateSettles(s, u, order);
    MergeCovers(s.ds, u.ranges);
    FedMore(s, s'.ds);
    DsIgnored(s, s'.ds);
    DeliverKeepsFed(s', u.items);
    OrderFree(Deliver(s', u.items), order);
  }

  lemma {:induction false} RunReceives(s: DocState, rounds: seq<Round>)
    requires Fed(s) && Runs(s, rounds)
    ensures var t := Run(s, rounds);
            && Fed(t) && Remembers(s, t) && (rounds != [] || AllDone(s) ==> AllDone(t))
            && forall r :: r in rounds ==> Received(t, r.update)
    decreases |rounds|
  {
    hide Fed, AllDone, ApplyUpdate, Held, InDs, Lands, Visits, Resumes;
    if rounds != [] {
      var u := rounds[0].update;
      var mid := ApplyUpdate(s, u, rounds[0].order);
      UpdateReceives(s, u, rounds[0].order);
      RunReceives(mid, rounds[1..]);
      assert rounds == [rounds[0]] + rounds[1..];
    }
  }

  /**
   * Idempotence over runs: an update that came at any time of a run changes, if it comes again, no
   * item, no list and no deleted flag, whatever the order in which the delete set is visited.
   */
  lemma Reapply(s: DocState, rounds: seq<Round>, r: Round, again: seq<ClientRange>)
    requires Fed(s) && Runs(s, rounds) && r in rounds
    requires Visits(again, Merge(Run(s, rounds).ds, r.update.ranges))
    ensures var t := Run(s, rounds);
            ApplyUpdate(t, r.update, again) == t.(ds := Merge(t.ds, r.update.ranges))
  {
    hide Inv, Held, IsDead, ApplyRange, Receive, Lands, Resumes, InDeleteSet, Runs, Run;
    var t := Run(s, rounds);
    var t' := t.(ds := Merge(t.ds, r.update.ranges));
    RunReceives(s, rounds);
    InvIgnoresDs(t, t'.ds);
    DsIgnored(t, t'.ds);
    DeliverKnown(t', r.update.items);
    MergeCovers(t.ds, r.update.ranges);
    ApplyAllDoneAgain(t', again);
  }

  lemma DsIgnored(s: DocState, ds: DeleteSet)
    ensures forall id :: Held(s, id) <==> Held(s.(ds := ds), id)
    ensures forall p :: Done(s, p) <==> Done(s.(ds := ds), p)
  {
    var t := s.(ds := ds);
    forall p ensures Done(s, p) <==> Done(t, p) {
      assert Bounded(s, p) <==> Bounded(t, p);
      assert forall id: Id :: Takes(t, p.client, p.range, id) == Takes(s, p.client, p.range, id) && IsDead(t, id) == IsDead(s, id);
    }
  }
}
