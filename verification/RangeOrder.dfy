/**
 * Exactly when the order of delete ranges does not matter: the delete sets of one client for which
 * every replica deletes what is to be deleted, whatever the order in which the ranges came.
 */
module RangeOrder {
  import opened Wrappers
  import opened Values
  import opened Ids
  import opened Cells
  import opened Integration
  import opened Deletion
  import opened Exactness
  import opened DeleteOrder
  import opened Replicas

  function Tagged(client: nat, list: seq<Range>): seq<ClientRange> {
    if list == [] then [] else [ClientRange(client, list[0])] + Tagged(client, list[1..])
  }

  lemma {:induction false} TaggedHas(client: nat, list: seq<Range>, p: ClientRange)
    ensures p in Tagged(client, list) <==> p.client == client && p.range in list
  {
    if list != [] {
      TaggedHas(client, list[1..], p);
      assert list == [list[0]] + list[1..];
    }
  }

  /** A fresh replica takes one update with these items and the ranges of one client, which came in this order. */
  function TakeUpdate(client: nat, items: seq<Cell>, list: seq<Range>): DocState {
    ApplyUpdate(EMPTY, Update(items, map[client := list]), Tagged(client, list))
  }

  ghost predicate CanTake(client: nat, items: seq<Cell>, list: seq<Range>) {
    Lands(EMPTY.(ds := map[client := list]), items)
  }

  lemma OnlyUpdate(client: nat, list: seq<Range>)
    ensures Merge(map[], map[client := list]) == map[client := list] && Visits(Tagged(client, list), map[client := list])
  {
    assert [] + list == list;
    forall p ensures p in Tagged(client, list) <==> InDs(map[client := list], p) { TaggedHas(client, list, p); }
  }

  lemma FreshIsFed(ds: DeleteSet)
    ensures Fed(EMPTY) && Fed(EMPTY.(ds := ds))
  {
  }

  lemma SameResumes(client: nat, ranges: seq<Range>, list: seq<Range>)
    requires multiset(list) == multiset(ranges) && Resumes(map[client := ranges])
    ensures Resumes(map[client := list])
  {
    var ds, other := map[client := list], map[client := ranges];
    forall p ensures InDs(ds, p) <==> InDs(other, p) {
      assert p.range in multiset(list) <==> p.range in multiset(ranges);
    }
    forall p, q | InDs(ds, p) && InDs(ds, q) && EndsInside(p, q) ensures Resumed(ds, p.client, LastOf(p.range)) {
      assert Resumed(other, p.client, LastOf(p.range));
    }
  }

  // A list of ranges that goes wrong.

  function EndingAt(list: seq<Range>, x: nat): seq<Range> {
    if list == [] then [] else (if LastOf(list[0]) == x then [list[0]] else []) + EndingAt(list[1..], x)
  }

  function EndingElsewhere(list: seq<Range>, x: nat): seq<Range> {
    if list == [] then [] else (if LastOf(list[0]) != x then [list[0]] else []) + EndingElsewhere(list[1..], x)
  }

  lemma {:induction false} Regrouped(list: seq<Range>, x: nat)
    ensures multiset(EndingElsewhere(list, x) + EndingAt(list, x)) == multiset(list)
  {
    if list != [] {
      Regrouped(list[1..], x);
      assert list == [list[0]] + list[1..];
    }
  }

  lemma {:induction false} EndsOf(list: seq<Range>, x: nat, r: Range)
    ensures r in EndingAt(list, x) <==> r in list && LastOf(r) == x
    ensures r in EndingElsewhere(list, x) <==> r in list && LastOf(r) != x
  {
    if list != [] {
      EndsOf(list[1..], x, r);
      assert list == [list[0]] + list[1..];
    }
  }

  /** A string reaches across the unit. */
  predicate Reached(s: DocState, id: Id) {
    Held(s, id) && Divides(Lookup(s.store, id).value, id)
  }

  /** No boundary of the range is at the unit, so the string still reaches across it afterwards. */
  lemma StillReached(s: DocState, p: ClientRange, id: Id)
    requires Inv(s) && Reached(s, id) && id.clock != p.range.clock && id.clock != LastOf(p.range)
    ensures Reached(ApplyRange(s, p.client, p.range), id)
  {
    hide Inv, ApplyRange, SplitAt;
    ApplyKeepsInv(s, p.client, p.range);
    ApplyItem(s, p.client, p.range, id);
    LookupSized(ApplyRange(s, p.client, p.range), id);
  }

  /** A unit of a string that is not deleted. */
  predicate Alive(s: DocState, id: Id) {
    Held(s, id) && Lookup(s.store, id).value.content.Str? && !IsDead(s, id)
  }

  /** The range ends at the unit: it is not deleted afterwards. */
  lemma AliveAtEnd(s: DocState, p: ClientRange, id: Id)
    requires Inv(s) && id == Id(p.client, LastOf(p.range)) && (Reached(s, id) || Alive(s, id))
    ensures Alive(ApplyRange(s, p.client, p.range), id)
  {
    hide Inv, ApplyRange, SplitAt;
    var lo := Id(p.client, p.range.clock);
    ApplyUnit(s, p.client, p.range, id);
    ApplyItem(s, p.client, p.range, id);
    SplitItem(s, lo, id);
    SplitKeepsInv(s, lo);
    LookupSized(s, id);
    LookupSized(SplitAt(s, lo), id);
  }

  lemma {:induction false} ReachedAfterAll(s: DocState, client: nat, list: seq<Range>, x: nat)
    requires Inv(s) && Reached(s, Id(client, x)) && forall r :: r in list ==> r.clock != x && LastOf(r) != x
    ensures var t := ApplyAll(s, Tagged(client, list)); Inv(t) && t.ds == s.ds && Reached(t, Id(client, x))
    decreases |list|
  {
    hide Inv, ApplyRange, Reached;
    if list != [] {
      var p := ClientRange(client, list[0]);
      StillReached(s, p, Id(client, x));
      ApplyKeepsInv(s, client, list[0]);
      KeepsDs(s, p);
      ReachedAfterAll(ApplyRange(s, client, list[0]), client, list[1..], x);
    }
  }

  lemma {:induction false} AliveAfterAll(s: DocState, client: nat, list: seq<Range>, x: nat)
    requires Inv(s) && (Alive(s, Id(client, x)) || (list != [] && Reached(s, Id(client, x)))) && forall r :: r in list ==> LastOf(r) == x
    ensures var t := ApplyAll(s, Tagged(client, list)); t.ds == s.ds && Alive(t, Id(client, x))
    decreases |list|
  {
    hide Inv, ApplyRange, Reached, Alive;
    if list != [] {
      var p := ClientRange(client, list[0]);
      AliveAtEnd(s, p, Id(client, x));
      ApplyKeepsInv(s, client, list[0]);
      KeepsDs(s, p);
      AliveAfterAll(ApplyRange(s, client, list[0]), client, list[1..], x);
    }
  }

  lemma {:induction false} ApplyConcat(s: DocState, client: nat, a: seq<Range>, b: seq<Range>)
    ensures ApplyAll(s, Tagged(client, a + b)) == ApplyAll(ApplyAll(s, Tagged(client, a)), Tagged(client, b))
    decreases |a|
  {
    hide ApplyRange;
    if a == [] {
      assert a + b == b;
    } else {
      ApplyConcat(ApplyRange(s, client, a[0]), client, a[1..], b);
      assert (a + b)[0] == a[0] && (a + b)[1..] == a[1..] + b;
    }
  }

  /** One string of n characters, from clock 0 on. */
  function LongString(client: nat, n: nat): Cell {
    Cell(Id(client, 0), n, None, None, Some([0x74]), None, Str(seq(n, _ => [0x61])))
  }

  lemma LongStringReached(ds: DeleteSet, client: nat, n: nat, x: nat)
    requires 0 < x < n
    ensures var s := EMPTY.(ds := ds); var c := LongString(client, n);
            Lands(s, [c]) && Inv(Deliver(s, [c])) && Deliver(s, [c]).ds == ds && Reached(Deliver(s, [c]), Id(client, x))
  {
    var s, c := EMPTY.(ds := ds), LongString(client, n);
    FreshIsFed(ds);
    assert Fits(s, c);
    assert Lands(Receive(s, c), [c][1..]);
    ReceiveKeepsFed(s, c);
    assert Deliver(s, [c]) == Receive(s, c) by { assert [c][1..] == []; }
    LookupAfterAppend(s.store, c, Id(client, x));
  }

  /** A range ends strictly inside another one, and none starts there. */
  predicate Broken(ranges: seq<Range>, p: Range, q: Range) {
    && p in ranges && q in ranges && q.clock < LastOf(p) < LastOf(q)
    && forall r :: r in ranges && r.clock == LastOf(p) ==> r.len == 0
  }

  lemma FindBroken(client: nat, ranges: seq<Range>) returns (p: Range, q: Range)
    requires !Resumes(map[client := ranges])
    ensures Broken(ranges, p, q)
  {
    var ds := map[client := ranges];
    var a, b :| InDs(ds, a) && InDs(ds, b) && EndsInside(a, b) && !Resumed(ds, a.client, LastOf(a.range));
    p, q := a.range, b.range;
    forall r | r in ranges && r.clock == LastOf(p) ensures r.len == 0 {
      assert InDs(ds, ClientRange(client, r));
      assert !StartsAt(ClientRange(client, r), client, LastOf(p));
    }
  }

  /** On a string that reaches across the end of the range, first the ranges with other ends and then those with this one go wrong. */
  lemma GoesWrong(s: DocState, client: nat, ranges: seq<Range>, p: Range, q: Range)
    requires Inv(s) && Broken(ranges, p, q) && Reached(s, Id(client, LastOf(p)))
    ensures var t := ApplyAll(s, Tagged(client, EndingElsewhere(ranges, LastOf(p)) + EndingAt(ranges, LastOf(p))));
            t.ds == s.ds && Alive(t, Id(client, LastOf(p)))
  {
    hide Inv, Reached, Alive, ApplyAll, Tagged;
    var x := LastOf(p);
    var first, last := EndingElsewhere(ranges, x), EndingAt(ranges, x);
    forall r ensures (r in last ==> LastOf(r) == x) && (r in first ==> r.clock != x && LastOf(r) != x) { EndsOf(ranges, x, r); }
    EndsOf(ranges, x, p);
    ApplyConcat(s, client, first, last);
    ReachedAfterAll(s, client, first, x);
    AliveAfterAll(ApplyAll(s, Tagged(client, first)), client, last, x);
  }

  /** A string, and an order of the ranges, for which such a delete set goes wrong. */
  lemma OrderMatters(client: nat, ranges: seq<Range>) returns (items: seq<Cell>, list: seq<Range>)
    requires !Resumes(map[client := ranges])
    ensures multiset(list) == multiset(ranges) && CanTake(client, items, list) && !Settled(TakeUpdate(client, items, list))
  {
    hide Inv, Reached, Alive, ApplyAll, Settled, Lands, Deliver, Resumes, Tagged, EndingAt, EndingElsewhere;
    var p, q := FindBroken(client, ranges);
    var x := LastOf(p);
    list := EndingElsewhere(ranges, x) + EndingAt(ranges, x);
    items := [LongString(client, LastOf(q))];
    Regrouped(ranges, x);
    var ds := map[client := list];
    LongStringReached(ds, client, LastOf(q), x);
    OnlyUpdate(client, list);
    GoesWrong(Deliver(EMPTY.(ds := ds), items), client, ranges, p, q);
    assert q in multiset(list);
    StringUnsettled(TakeUpdate(client, items, list), Id(client, x), list, q);
  }

  lemma StringUnsettled(t: DocState, id: Id, list: seq<Range>, r: Range)
    requires t.ds == map[id.client := list] && Alive(t, id) && r in list && InRange(r, id.clock)
    ensures !Settled(t)
  {
    assert Due(t, id);
  }

  /**
   * The exact condition. For the ranges of a client, every update with them, whatever its items and
   * in whatever order the ranges came, makes of a fresh replica one that has deleted what is to be
   * deleted, if and only if some range starts wherever one ends strictly inside another one.
   */
  lemma SettlesIff(client: nat, ranges: seq<Range>)
    ensures Resumes(map[client := ranges]) <==>
            forall items, list :: multiset(list) == multiset(ranges) && CanTake(client, items, list) ==> Settled(TakeUpdate(client, items, list))
  {
    hide Resumes, Settled, TakeUpdate, CanTake;
    if Resumes(map[client := ranges]) {
      forall items, list | multiset(list) == multiset(ranges) && CanTake(client, items, list)
        ensures Settled(TakeUpdate(client, items, list))
      {
        OneUpdateSettles(client, ranges, items, list);
      }
    } else {
      var items, list := OrderMatters(client, ranges);
    }
  }

  lemma OneUpdateSettles(client: nat, ranges: seq<Range>, items: seq<Cell>, list: seq<Range>)
    requires Resumes(map[client := ranges]) && multiset(list) == multiset(ranges) && CanTake(client, items, list)
    ensures Settled(TakeUpdate(client, items, list))
  {
    hide Resumes, Settled, Fed;
    SameResumes(client, ranges, list);
    OnlyUpdate(client, list);
    FreshIsFed(map[]);
    UpdateSettles(EMPTY, Update(items, map[client := list]), Tagged(client, list));
  }
}
