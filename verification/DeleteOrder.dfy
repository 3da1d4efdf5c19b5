/**
 * Deleting and order: for which delete sets it does not matter in which order the ranges are
 * applied, nor whether a range arrives before or after its items.
 */
module DeleteOrder {
  import opened Ids
  import opened Cells
  import opened Deletion
  import opened Exactness

  datatype ClientRange = ClientRange(client: nat, range: Range)

  function ApplyAll(s: DocState, rs: seq<ClientRange>): DocState
    decreases |rs|
  {
    if rs == [] then s else ApplyAll(ApplyRange(s, rs[0].client, rs[0].range), rs[1..])
  }

  predicate InDs(ds: DeleteSet, p: ClientRange) {
    p.client in ds && p.range in ds[p.client]
  }

  function LastOf(r: Range): nat {
    r.clock + r.len
  }

  /** The first range ends strictly inside the second one. */
  predicate EndsInside(p: ClientRange, q: ClientRange) {
    p.client == q.client && q.range.clock < LastOf(p.range) < LastOf(q.range)
  }

  predicate StartsAt(r: ClientRange, client: nat, clock: nat) {
    r.client == client && r.range.clock == clock && r.range.len > 0
  }

  ghost predicate Resumed(ds: DeleteSet, client: nat, clock: nat) {
    exists r :: InDs(ds, r) && StartsAt(r, client, clock)
  }

  /** Wherever a range ends strictly inside another one, some range starts. */
  ghost predicate Resumes(ds: DeleteSet) {
    forall p, q :: InDs(ds, p) && InDs(ds, q) && EndsInside(p, q) ==> Resumed(ds, p.client, LastOf(p.range))
  }

  /** A replica that was fed by updates only: what is marked is to be deleted, and what arrived deleted is marked. */
  ghost predicate Fed(s: DocState) {
    && Inv(s)
    && (forall id :: id in s.dead ==> Due(s, id))
    && (forall id :: ArrivedGone(s, id) ==> IsDead(s, id))
  }

  predicate ArrivedGone(s: DocState, id: Id) {
    Held(s, id) && Lookup(s.store, id).value.content.Gone?
  }

  /** A unit that is to be deleted: its item arrived deleted, or the delete set has the clock that decides. */
  predicate Due(s: DocState, id: Id) {
    Held(s, id) && var c := Lookup(s.store, id).value; c.content.Gone? || InDeleteSet(s.ds, Id(id.client, Deciding(c, id)))
  }

  /** The whole delete set has been applied: deleted is what is to be deleted. */
  ghost predicate Settled(s: DocState) {
    forall id :: IsDead(s, id) <==> Due(s, id)
  }

  /** A range that was applied: no string reaches across its boundaries, and the units it takes are deleted. */
  ghost predicate Done(s: DocState, p: ClientRange) {
    && Bounded(s, p)
    && forall id: Id :: Takes(s, p.client, p.range, id) ==> IsDead(s, id)
  }

  predicate Bounded(s: DocState, p: ClientRange) {
    Cut(s, Id(p.client, p.range.clock)) && Cut(s, Id(p.client, LastOf(p.range)))
  }

  // Applying a range keeps what is marked among what is to be deleted.

  lemma StartDecides(s: DocState, id: Id)
    requires Inv(s) && IsStart(s.store, id)
    ensures Deciding(Lookup(s.store, id).value, id) == id.clock
  {
  }

  lemma ApplyKeepsFed(s: DocState, p: ClientRange)
    requires Fed(s) && InDs(s.ds, p)
    ensures Fed(ApplyRange(s, p.client, p.range)) && ApplyRange(s, p.client, p.range).ds == s.ds
  {
    hide Inv, Find, SplitSeq, Divides, Takes, CutOff;
    var t := ApplyRange(s, p.client, p.range);
    ApplyKeepsInv(s, p.client, p.range);
    forall id | id in t.dead ensures Due(t, id) { MarkedIsDue(s, p, id); }
    forall id | ArrivedGone(t, id) ensures IsDead(t, id) { GoneStaysDead(s, p, id); }
  }

  lemma MarkedIsDue(s: DocState, p: ClientRange, id: Id)
    requires Fed(s) && InDs(s.ds, p) && id in ApplyRange(s, p.client, p.range).dead
    ensures Due(ApplyRange(s, p.client, p.range), id)
  {
    hide ApplyRange, SplitAt;
    var t := ApplyRange(s, p.client, p.range);
    ApplyKeepsInv(s, p.client, p.range);
    KeepsDs(s, p);
    StartDecides(t, id);
    SplitItem(s, Id(p.client, p.range.clock), id);
    ApplyUnit(s, p.client, p.range, id);
    assert IsDead(t, id);
    ApplyItem(s, p.client, p.range, id);
    if !Takes(s, p.client, p.range, id) {
      var c := Lookup(s.store, id).value;
      assert c.id in s.dead;
      StartDecides(s, c.id);
    }
  }

  lemma GoneStaysDead(s: DocState, p: ClientRange, id: Id)
    requires Fed(s) && ArrivedGone(ApplyRange(s, p.client, p.range), id)
    ensures IsDead(ApplyRange(s, p.client, p.range), id)
  {
    hide ApplyRange, SplitAt;
    ApplyUnit(s, p.client, p.range, id);
    ApplyItem(s, p.client, p.range, id);
    SplitItem(s, Id(p.client, p.range.clock), id);
    assert ArrivedGone(s, id);
  }

  lemma KeepsDs(s: DocState, p: ClientRange)
    ensures ApplyRange(s, p.client, p.range).ds == s.ds
  {
  }

  // The walk over the delete set.

  /** A range that is still to come starts where the item of this unit starts. */
  ghost predicate Awaits(s: DocState, rest: seq<ClientRange>, id: Id) {
    Held(s, id) && exists r :: r in rest && StartsAt(r, id.client, Lookup(s.store, id).value.id.clock)
  }

  /** Of a range that was applied, what is not deleted is a piece where another range is still to come. */
  ghost predicate Underway(s: DocState, q: ClientRange, rest: seq<ClientRange>) {
    && Bounded(s, q)
    && forall id: Id :: Takes(s, q.client, q.range, id) && !IsDead(s, id) ==> Awaits(s, rest, id)
  }

  /** A string of an applied range lies between its boundaries. */
  lemma StringWithin(s: DocState, q: ClientRange, id: Id)
    requires Inv(s) && Bounded(s, q) && Takes(s, q.client, q.range, id) && Lookup(s.store, id).value.content.Str?
    ensures var c := Lookup(s.store, id).value; q.range.clock <= c.id.clock && End(c) <= LastOf(q.range)
  {
    var c := Lookup(s.store, id).value;
    var lo, hi := Id(q.client, q.range.clock), Id(q.client, LastOf(q.range));
    LookupSized(s, id);
    if Covers(c, lo) { SameItem(s, id, lo); }
    if Covers(c, hi) { SameItem(s, id, hi); }
  }

  lemma BoundedStays(s: DocState, p: ClientRange, q: ClientRange)
    requires Inv(s) && (Bounded(s, q) || p == q)
    ensures Bounded(ApplyRange(s, p.client, p.range), q)
  {
    hide Inv, ApplyRange, SplitAt, Cut;
    ApplyUnit(s, p.client, p.range, Id(q.client, q.range.clock));
    ApplyUnit(s, p.client, p.range, Id(q.client, LastOf(q.range)));
  }

  /** What a range revives starts at its end, strictly inside the other range; there a range starts, which is still to come. */
  lemma RevivedAwaits(s: DocState, p: ClientRange, q: ClientRange, done: set<ClientRange>, rest: seq<ClientRange>, id: Id)
    requires Inv(s) && Resumes(s.ds) && InDs(s.ds, p) && InDs(s.ds, q) && q in done && Bounded(s, q)
    requires forall r :: InDs(s.ds, r) ==> r == p || r in rest || (r in done && Bounded(s, r))
    requires Takes(s, q.client, q.range, id) && !Takes(s, p.client, p.range, id)
    requires var lo, hi := Id(p.client, p.range.clock), Id(p.client, LastOf(p.range));
             CutOff(s, lo, id) || CutOff(SplitAt(s, lo), hi, id)
    ensures Awaits(ApplyRange(s, p.client, p.range), rest, id)
  {
    hide Inv, ApplyRange, SplitAt, Takes, CutOff, Resumes;
    var hi := Id(p.client, LastOf(p.range));
    TakesHeld(s, q, id);
    CutOffReached(s, p.client, p.range, id);
    StringWithin(s, q, id) by { assert Lookup(s.store, id).value.content.Str?; }
    assert EndsInside(p, q);
    var r := Resumption(s.ds, p, q);
    assert Id(r.client, r.range.clock) == hi;
    if r in done && Bounded(s, r) {
      assert false;
    }
    assert r in rest;
  }

  lemma TakesHeld(s: DocState, q: ClientRange, id: Id)
    requires Takes(s, q.client, q.range, id)
    ensures Held(s, id) && id.client == q.client
  {
  }

  lemma Resumption(ds: DeleteSet, p: ClientRange, q: ClientRange) returns (r: ClientRange)
    requires Resumes(ds) && InDs(ds, p) && InDs(ds, q) && EndsInside(p, q)
    ensures InDs(ds, r) && StartsAt(r, p.client, LastOf(p.range)) && r != p
  {
    assert Resumed(ds, p.client, LastOf(p.range));
    r :| InDs(ds, r) && StartsAt(r, p.client, LastOf(p.range));
  }

  /** What a range neither takes nor cuts off awaits the same range as before. */
  lemma StillAwaits(s: DocState, p: ClientRange, rest: seq<ClientRange>, id: Id)
    requires Inv(s) && Awaits(s, [p] + rest, id) && !Takes(s, p.client, p.range, id)
    requires var lo, hi := Id(p.client, p.range.clock), Id(p.client, LastOf(p.range));
             !CutOff(s, lo, id) && !CutOff(SplitAt(s, lo), hi, id)
    ensures Awaits(ApplyRange(s, p.client, p.range), rest, id)
  {
    hide Inv, ApplyRange, SplitAt;
    var c := Lookup(s.store, id).value;
    var lo, hi := Id(p.client, p.range.clock), Id(p.client, LastOf(p.range));
    ApplyItem(s, p.client, p.range, id);
    LookupSized(s, id);
    SplitItem(s, lo, id);
    SplitKeepsInv(s, lo);
    LookupSized(SplitAt(s, lo), id);
    var r :| r in [p] + rest && StartsAt(r, id.client, c.id.clock);
    if r !in rest {
      assert r == p;
      WholeItem(s, p, id);
      assert false;
    }
  }

  /** A range that starts where an item starts, and cuts nothing off, takes it. */
  lemma WholeItem(s: DocState, p: ClientRange, id: Id)
    requires Inv(s) && Held(s, id) && StartsAt(p, id.client, Lookup(s.store, id).value.id.clock)
    requires !CutOff(SplitAt(s, Id(p.client, p.range.clock)), Id(p.client, LastOf(p.range)), id)
    ensures Takes(s, p.client, p.range, id)
  {
    LookupSized(s, id);
    var lo := Id(p.client, p.range.clock);
    SameItem(s, id, lo);
    assert SplitAt(s, lo) == s;
  }

  /** One range of the walk. */
  lemma StepUnderway(s: DocState, p: ClientRange, q: ClientRange, done: set<ClientRange>, rest: seq<ClientRange>)
    requires Inv(s) && Resumes(s.ds) && InDs(s.ds, p) && InDs(s.ds, q)
    requires forall r :: InDs(s.ds, r) ==> r == p || r in rest || (r in done && Bounded(s, r))
    requires q == p || (q in done && Underway(s, q, [p] + rest))
    ensures Underway(ApplyRange(s, p.client, p.range), q, rest)
  {
    hide Inv, ApplyRange, SplitAt, Resumes, CutOff;
    var t := ApplyRange(s, p.client, p.range);
    var lo, hi := Id(p.client, p.range.clock), Id(p.client, LastOf(p.range));
    BoundedStays(s, p, q);
    forall id: Id | Takes(t, q.client, q.range, id) && !IsDead(t, id) ensures Awaits(t, rest, id) {
      ApplyUnit(s, p.client, p.range, id);
      ApplyItem(s, p.client, p.range, id);
      assert Takes(s, q.client, q.range, id) by { TakesBefore(s, p, q, id); }
      if CutOff(s, lo, id) || CutOff(SplitAt(s, lo), hi, id) {
        RevivedAwaits(s, p, q, done, rest, id);
      } else {
        StillAwaits(s, p, rest, id);
      }
    }
  }

  lemma TakesBefore(s: DocState, p: ClientRange, q: ClientRange, id: Id)
    requires Inv(s)
    ensures Takes(ApplyRange(s, p.client, p.range), q.client, q.range, id) <==> Takes(s, q.client, q.range, id)
  {
    hide Inv, ApplyRange, SplitAt;
    ApplyUnit(s, p.client, p.range, id);
    if Held(s, id) {
      ApplyItem(s, p.client, p.range, id);
      SplitItem(s, Id(p.client, p.range.clock), id);
    }
  }

  lemma {:induction false} ApplyAllDone(s: DocState, rs: seq<ClientRange>, done: set<ClientRange>)
    requires Fed(s) && Resumes(s.ds)
    requires forall p :: p in rs ==> InDs(s.ds, p)
    requires forall p :: InDs(s.ds, p) ==> p in rs || p in done
    requires forall q :: q in done ==> InDs(s.ds, q) && Underway(s, q, rs)
    ensures var t := ApplyAll(s, rs);
            && Fed(t) && t.ds == s.ds
            && (forall id :: Held(t, id) <==> Held(s, id))
            && (forall q :: InDs(s.ds, q) ==> Done(t, q))
    decreases |rs|
  {
    hide Bounded, Takes, Awaits, ApplyRange, Inv, Resumes;
    if rs == [] {
      forall q | InDs(s.ds, q) ensures Done(s, q) { NothingAwaits(s, q); }
    } else {
      var p, rest := rs[0], rs[1..];
      var t := ApplyRange(s, p.client, p.range);
      assert rs == [p] + rest;
      ApplyKeepsFed(s, p);
      forall q | q in done + {p} ensures Underway(t, q, rest) {
        StepUnderway(s, p, q, done, rest);
      }
      ApplyAllDone(t, rest, done + {p});
      forall id ensures Held(ApplyAll(s, rs), id) <==> Held(s, id) {
        ApplyUnit(s, p.client, p.range, id);
      }
    }
  }

  lemma NothingAwaits(s: DocState, q: ClientRange)
    requires Underway(s, q, [])
    ensures Done(s, q)
  {
  }

  /**
   * Order-free deletion. If some range starts wherever one ends strictly inside another one, then the
   * delete set of a replica, applied in any order, deletes exactly what is to be deleted: every
   * character of a string that a range covers, and every other item whose first clock is covered. It
   * does not matter which items were marked on arrival.
   */
  lemma OrderFree(s: DocState, rs: seq<ClientRange>)
    requires Fed(s) && Resumes(s.ds)
    requires forall p :: p in rs <==> InDs(s.ds, p)
    ensures var t := ApplyAll(s, rs);
            && Fed(t) && t.ds == s.ds && Settled(t)
            && (forall p :: InDs(t.ds, p) ==> Done(t, p))
            && (forall id :: Held(t, id) <==> Held(s, id))
  {
    hide Fed, Done, Resumes, ApplyAll;
    var t := ApplyAll(s, rs);
    ApplyAllDone(s, rs, {});
    forall id ensures IsDead(t, id) <==> Due(t, id) {
      AllDoneUnit(t, id);
    }
  }

  lemma DeadIsDue(t: DocState, id: Id)
    requires Fed(t) && IsDead(t, id) && forall p :: InDs(t.ds, p) ==> Done(t, p)
    ensures Due(t, id)
  {
    var c := Lookup(t.store, id).value;
    SameItem(t, id, c.id);
    assert Due(t, c.id);
    if c.content.Str? {
      var r :| r in t.ds[id.client] && InRange(r, c.id.clock);
      var p := ClientRange(id.client, r);
      assert Done(t, p);
      StringWithin(t, p, c.id);
      assert InRange(r, id.clock);
    }
  }

  lemma AllDoneUnit(t: DocState, id: Id)
    requires Fed(t) && forall p :: InDs(t.ds, p) ==> Done(t, p)
    ensures IsDead(t, id) <==> Due(t, id)
  {
    if IsDead(t, id) { DeadIsDue(t, id); }
    if Due(t, id) {
      var c := Lookup(t.store, id).value;
      if c.content.Gone? {
        assert ArrivedGone(t, id);
      } else {
        var r :| r in t.ds[id.client] && InRange(r, Deciding(c, id));
        assert Done(t, ClientRange(id.client, r));
        assert Takes(t, id.client, r, id);
      }
    }
  }
}
