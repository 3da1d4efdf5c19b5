/** A run in which a deletion moves text that arrives later, on some of the peers. */
module MovedText {
  import opened Wrappers
  import opened Values
  import opened Ids
  import opened Cells
  import opened Integration
  import opened Convergence
  import opened Deletion
  import opened Exactness
  import opened DeleteOrder
  import opened Replicas
  import opened UnitReplicas
  import opened Authoring
  import opened LocalEdits
  import opened SplitLists
  import opened TextReplicas

  /** One character that was typed after another one. */
  function Letter(client: nat, clock: nat, left: Option<Id>, name: Name, r: Rune): Cell {
    Cell(Id(client, clock), 1, left, None, Some(name), None, Str([r]))
  }

  /** Client 3 types p, q and w, one by one. */
  function Typed(name: Name, p: Rune, q: Rune, w: Rune): seq<Cell> {
    [Letter(3, 0, None, name, p), Letter(3, 1, Some(Id(3, 0)), name, q), Letter(3, 2, Some(Id(3, 1)), name, w)]
  }

  /** Client 2 types two characters after the w. */
  function Two(name: Name, a: Rune, b: Rune): Cell {
    Cell(Id(2, 0), 2, Some(Id(3, 2)), None, Some(name), None, Str([a, b]))
  }

  /** Client 1 types y after the q and knows of nothing else. */
  function Late(name: Name, y: Rune): Cell {
    Letter(1, 0, Some(Id(3, 1)), name, y)
  }

  /** The order of split and integration in the list. */
  lemma ListMoves(name: Name, p: Rune, q: Rune, w: Rune, a: Rune, b: Rune, y: Rune)
    ensures var chain, x := Typed(name, p, q, w) + [Two(name, a, b)], Late(name, y);
            && RunesShown(SplitSeq(Integrate(chain, x), Id(2, 1)), {Id(2, 0)}) == [p, q, w, b, y]
            && RunesShown(Integrate(SplitSeq(chain, Id(2, 1)), x), {Id(2, 0)}) == [p, q, w, y, b]
  {
    hide RunesShown, IndexOf, SplitSeq;
    var before, e, x, at := Typed(name, p, q, w), Two(name, a, b), Late(name, y), Id(2, 1);
    var chain := before + [e];
    assert chain == [before[0], before[1], before[2], e];
    IndexOfIs(chain, Id(3, 1), 1);
    PlaceAt(chain, x, 4);
    SplitBetween(before, e, [], at);
    SplitBetween(before, e, [x], at);
    var l, r := LeftPart(e, at), RightPart(e, at);
    var parts := before + [l, r];
    assert before + [e] + [] == chain && before + [l, r] + [] == parts && InsertAt(chain, 4, x) == before + [e] + [x];
    assert parts == [before[0], before[1], before[2], l, r];
    IndexOfIs(parts, Id(3, 1), 1);
    PlaceAt(parts, x, 4);
    assert before + [l, r] + [x] == [before[0], before[1], before[2], l, r, x];
    assert InsertAt(parts, 4, x) == [before[0], before[1], before[2], l, x, r];
    ShownFive(before[0], before[1], before[2], l, r, x);
    ShownFive(before[0], before[1], before[2], l, x, r);
  }

  /** The characters that a text of such items shows. */
  function RunesShown(chain: seq<Cell>, dead: set<Id>): seq<Rune> {
    if chain == [] then []
    else (if chain[0].id in dead || !chain[0].content.Str? then [] else chain[0].content.text) + RunesShown(chain[1..], dead)
  }

  lemma ShownFive(c0: Cell, c1: Cell, c2: Cell, l: Cell, c3: Cell, c4: Cell)
    requires c0.content.Str? && c1.content.Str? && c2.content.Str? && l.content.Str? && c3.content.Str? && c4.content.Str?
    requires c0.id != l.id && c1.id != l.id && c2.id != l.id && c3.id != l.id && c4.id != l.id
    ensures RunesShown([c0, c1, c2, l, c3, c4], {l.id}) == c0.content.text + c1.content.text + c2.content.text + c3.content.text + c4.content.text
  {
    hide RunesShown;
    var dead := {l.id};
    assert [c4] + [] == [c4] && [c3] + [c4] == [c3, c4] && [l] + [c3, c4] == [l, c3, c4];
    assert [c2] + [l, c3, c4] == [c2, l, c3, c4] && [c1] + [c2, l, c3, c4] == [c1, c2, l, c3, c4];
    assert [c0] + [c1, c2, l, c3, c4] == [c0, c1, c2, l, c3, c4];
    RunesStep(c4, [], dead);
    RunesStep(c3, [c4], dead);
    RunesStep(l, [c3, c4], dead);
    RunesStep(c2, [l, c3, c4], dead);
    RunesStep(c1, [c2, l, c3, c4], dead);
    RunesStep(c0, [c1, c2, l, c3, c4], dead);
    RunesNone(dead);
  }

  lemma RunesNone(dead: set<Id>)
    ensures RunesShown([], dead) == []
  {
  }

  lemma RunesStep(c: Cell, rest: seq<Cell>, dead: set<Id>)
    requires c.content.Str?
    ensures RunesShown([c] + rest, dead) == (if c.id in dead then [] else c.content.text) + RunesShown(rest, dead)
  {
    assert ([c] + rest)[1..] == rest;
  }

  // The two runs.

  /** An item that continues the list of a text arrives at its end. */
  lemma Continues(s: DocState, c: Cell, name: Name)
    requires Inv(s) && s.ds == map[] && c.home == Some(name) && name != [] && c.sub.None? && c.right.None? && c.content.Str? && Sized(c)
    requires StateOf(s.store, c.id.client) <= c.id.clock && Lookup(s.store, c.id).None?
    requires var chain := ChainOf(s.chains, ArrayKey(name));
             if chain == [] then c.left.None?
             else c.left.Some? && chain[|chain| - 1].len >= 1 && LastId(chain[|chain| - 1]) == c.left.value
    ensures var key := ArrayKey(name);
            && Enabled(s, Wire(c)) && Receive(s, Wire(c)) == DocState(Append(s.store, c), s.chains[key := ChainOf(s.chains, key) + [c]], map[], s.dead)
  {
    hide Find;
    var key := ArrayKey(name);
    var chain := ChainOf(s.chains, key);
    if chain != [] {
      var o := chain[|chain| - 1];
      ListStored(s, key);
      assert o in chain && o.home == Some(name) && KeyOf(o) == key;
      FindIsUnique(ItemsOf(s.store, o.id.client), o.id.client, c.left.value, o);
      OriginOnce(s, key, c.left.value, |chain| - 1);
    }
    PlaceAt(chain, c, |chain|);
    assert InsertAt(chain, |chain|, c) == chain + [c];
    assert Resolve(s.store, Wire(c)) == Some(name);
  }

  /** The document with the four items, as every peer has it. */
  function FourItems(name: Name, p: Rune, q: Rune, w: Rune, a: Rune, b: Rune): DocState {
    var before, e := Typed(name, p, q, w), Two(name, a, b);
    DocState(map[3 := before, 2 := [e]], map[ArrayKey(name) := before + [e]], map[], {})
  }

  function Arrivals(name: Name, p: Rune, q: Rune, w: Rune, a: Rune, b: Rune): seq<Cell> {
    var before := Typed(name, p, q, w);
    [Wire(before[0]), Wire(before[1]), Wire(before[2]), Wire(Two(name, a, b))]
  }

  lemma FourArrive(name: Name, p: Rune, q: Rune, w: Rune, a: Rune, b: Rune)
    requires name != []
    ensures var items, d := Arrivals(name, p, q, w, a, b), FourItems(name, p, q, w, a, b);
            Flows(EMPTY, items) && Deliver(EMPTY, items) == d && Inv(d)
  {
    hide Receive, Enabled, Inv, Wire, Deliver, Flows;
    var before, e, key := Typed(name, p, q, w), Two(name, a, b), ArrayKey(name);
    var d1 := DocState(map[3 := before[..1]], map[key := before[..1]], map[], {});
    var d2 := DocState(map[3 := before[..2]], map[key := before[..2]], map[], {});
    var d3 := DocState(map[3 := before], map[key := before], map[], {});
    var d4 := FourItems(name, p, q, w, a, b);
    EmptyReplica();
    assert [] + [before[0]] == before[..1] && before[..1] + [before[1]] == before[..2] && before[..2] + [before[2]] == before && [] + [e] == [e];
    Arrives(EMPTY, before[0], name, d1);
    Arrives(d1, before[1], name, d2);
    Arrives(d2, before[2], name, d3);
    Arrives(d3, e, name, d4);
    NothingMore(d4);
    assert [Wire(before[2])] + [Wire(e)] == [Wire(before[2]), Wire(e)];
    assert [Wire(before[1])] + [Wire(before[2]), Wire(e)] == [Wire(before[1]), Wire(before[2]), Wire(e)];
    assert [Wire(before[0])] + [Wire(before[1]), Wire(before[2]), Wire(e)] == Arrivals(name, p, q, w, a, b);
    assert [Wire(e)] + [] == [Wire(e)];
    OneMore(d3, Wire(e), [], d4);
    OneMore(d2, Wire(before[2]), [Wire(e)], d4);
    OneMore(d1, Wire(before[1]), [Wire(before[2]), Wire(e)], d4);
    OneMore(EMPTY, Wire(before[0]), [Wire(before[1]), Wire(before[2]), Wire(e)], d4);
  }

  lemma NothingMore(s: DocState)
    ensures Flows(s, []) && Deliver(s, []) == s
  {
  }

  lemma OneMore(s: DocState, x: Cell, rest: seq<Cell>, u: DocState)
    requires Enabled(s, x) && Flows(Receive(s, x), rest) && Deliver(Receive(s, x), rest) == u
    ensures Flows(s, [x] + rest) && Deliver(s, [x] + rest) == u
  {
    hide Enabled, Receive;
    assert ([x] + rest)[0] == x && ([x] + rest)[1..] == rest;
  }

  lemma Arrives(s: DocState, c: Cell, name: Name, t: DocState)
    requires Inv(s) && s.ds == map[] && c.home == Some(name) && name != [] && c.sub.None? && c.right.None? && c.content.Str? && Sized(c)
    requires StateOf(s.store, c.id.client) <= c.id.clock && Lookup(s.store, c.id).None?
    requires var chain := ChainOf(s.chains, ArrayKey(name));
             if chain == [] then c.left.None?
             else c.left.Some? && chain[|chain| - 1].len >= 1 && LastId(chain[|chain| - 1]) == c.left.value
    requires t == DocState(Append(s.store, c), s.chains[ArrayKey(name) := ChainOf(s.chains, ArrayKey(name)) + [c]], map[], s.dead)
    ensures Enabled(s, Wire(c)) && Receive(s, Wire(c)) == t && Inv(t)
  {
    hide Inv, Receive;
    Continues(s, c, name);
    ReceiveKeepsInv(s, Wire(c));
  }

  /** The first character of a string of client 2 is deleted; the clock 1 divides the string. */
  lemma FirstDeleted(s: DocState, e: Cell)
    requires ItemsOf(s.store, 2) == [e] && e.id == Id(2, 0) && e.len == 2 && e.content.Str? && |e.content.text| == 2
    ensures var at, t := Id(2, 1), ApplyRange(s, 2, Range(0, 1));
            && Divides(e, at) && t == DocState(s.store[2 := [LeftPart(e, at), RightPart(e, at)]], SplitChains(s.chains, at), s.ds, s.dead + {Id(2, 0)})
  {
    var at := Id(2, 1);
    assert SplitAt(s, Id(2, 0)) == s;
    assert SplitSeq([e], at) == [LeftPart(e, at), RightPart(e, at)];
  }

  lemma DeletedAgain(s: DocState, l: Cell, r: Cell)
    requires ItemsOf(s.store, 2) == [l, r] && l.id == Id(2, 0) && l.len == 1 && r.id == Id(2, 1) && r.len == 1
    ensures ApplyRange(s, 2, Range(0, 1)) == s.(dead := s.dead + {Id(2, 0)})
  {
    assert SplitAt(s, Id(2, 0)) == s && SplitAt(s, Id(2, 1)) == s;
    assert (set c | c in ItemsOf(s.store, 2) && InRange(Range(0, 1), c.id.clock) :: c.id) == {Id(2, 0)};
  }

  /** The deletion of the first clock of client 2. */
  const GONE: DeleteSet := map[2 := [Range(0, 1)]]
  const VISIT: seq<ClientRange> := [ClientRange(2, Range(0, 1))]

  /** The late item arrives, and then the deletion; or the other way round. */
  function LateThenDeleted(items: seq<Cell>, x: Cell): seq<Round> {
    [Round(Update(items + [x], map[]), []), Round(Update([], GONE), VISIT)]
  }

  function DeletedThenLate(items: seq<Cell>, x: Cell): seq<Round> {
    [Round(Update(items, map[]), []), Round(Update([], GONE), VISIT), Round(Update([x], map[]), VISIT)]
  }

  lemma MergeGone()
    ensures Merge(map[], GONE) == GONE && Merge(GONE, map[]) == GONE && Merge(map[], map[]) == map[]
    ensures Visits([], map[]) && Visits(VISIT, GONE)
  {
    assert [] + [Range(0, 1)] == [Range(0, 1)] && [Range(0, 1)] + [] == [Range(0, 1)];
  }

  /** y is received and linked where the scan puts it. */
  lemma LateArrives(s: DocState, name: Name, y: Rune, q: Cell)
    requires Inv(s) && InDeleteSet(s.ds, Id(1, 0)) == false && name != []
    requires ItemsOf(s.store, 1) == [] && InStore(s.store, q) && q.id == Id(3, 1) && q.len == 1 && q.home == Some(name)
    ensures var x, key := Late(name, y), ArrayKey(name);
            Receive(s, Wire(x)) == DocState(Append(s.store, x), s.chains[key := Integrate(ChainOf(s.chains, key), x)], s.ds, s.dead)
  {
    hide Find, Integrate;
    FindIsUnique(ItemsOf(s.store, 3), 3, Id(3, 1), q);
  }

  lemma LateEnabled(name: Name, p: Rune, q: Rune, w: Rune, a: Rune, b: Rune, y: Rune)
    requires name != []
    ensures Enabled(FourItems(name, p, q, w, a, b), Wire(Late(name, y)))
  {
    hide Find;
    var d, c := FourItems(name, p, q, w, a, b), Typed(name, p, q, w)[1];
    assert Sorted(ItemsOf(d.store, 3), 3) && c in ItemsOf(d.store, 3);
    FindIsUnique(ItemsOf(d.store, 3), 3, Id(3, 1), c);
    assert c in Typed(name, p, q, w);
  }

  lemma RunOne(s: DocState, r: Round)
    ensures Run(s, [r]) == ApplyUpdate(s, r.update, r.order)
  {
    assert [r][1..] == [];
  }

  lemma RunTwo(s: DocState, r: Round, rest: seq<Round>)
    ensures Run(s, [r] + rest) == Run(ApplyUpdate(s, r.update, r.order), rest)
  {
    assert ([r] + rest)[0] == r && ([r] + rest)[1..] == rest;
  }

  lemma VisitOnce(s: DocState)
    ensures ApplyAll(s, VISIT) == ApplyRange(s, 2, Range(0, 1)) && ApplyAll(s, []) == s
  {
    assert VISIT[1..] == [];
  }

  /** y arrives before the deletion. */
  lemma FirstRun(name: Name, p: Rune, q: Rune, w: Rune, a: Rune, b: Rune, y: Rune)
    requires name != []
    ensures var t := Run(EMPTY, LateThenDeleted(Arrivals(name, p, q, w, a, b), Wire(Late(name, y))));
            && t.dead == {Id(2, 0)}
            && ChainOf(t.chains, ArrayKey(name)) == SplitSeq(Integrate(Typed(name, p, q, w) + [Two(name, a, b)], Late(name, y)), Id(2, 1))
  {
    hide Receive, Deliver, Enabled, Inv, Wire, Merge, ApplyRange, Integrate, SplitSeq, Run, ApplyAll;
    var items, x, d := Arrivals(name, p, q, w, a, b), Late(name, y), FourItems(name, p, q, w, a, b);
    FourArrive(name, p, q, w, a, b);
    MergeGone();
    LateArrives(d, name, y, Typed(name, p, q, w)[1]);
    DeliverConcat(EMPTY, items, [Wire(x)]);
    DeliverOne(d, Wire(x));
    var d5, one, two := Receive(d, Wire(x)), Round(Update(items + [Wire(x)], map[]), []), Round(Update([], GONE), VISIT);
    assert EMPTY.(ds := map[]) == EMPTY && LateThenDeleted(items, Wire(x)) == [one] + [two];
    VisitOnce(d5);
    RunTwo(EMPTY, one, [two]);
    DeletedNow(d5, two, Two(name, a, b));
    SplitChainOf(d5.chains, Id(2, 1), ArrayKey(name));
  }

  /** The deletion arrives. */
  lemma DeletedNow(s: DocState, r: Round, e: Cell)
    requires s.ds == map[] && r == Round(Update([], GONE), VISIT)
    requires ItemsOf(s.store, 2) == [e] && e.id == Id(2, 0) && e.len == 2 && e.content.Str? && |e.content.text| == 2
    ensures Divides(e, Id(2, 1)) && Run(s, [r]) == ApplyUpdate(s, r.update, r.order)
    ensures ApplyUpdate(s, r.update, r.order)
         == DocState(s.store[2 := [LeftPart(e, Id(2, 1)), RightPart(e, Id(2, 1))]], SplitChains(s.chains, Id(2, 1)), GONE, s.dead + {Id(2, 0)})
  {
    hide ApplyRange, Merge, SplitChains, LeftPart, RightPart;
    MergeGone();
    RunOne(s, r);
    NothingMore(s.(ds := GONE));
    VisitOnce(s.(ds := GONE));
    FirstDeleted(s.(ds := GONE), e);
  }

  lemma DeliverOne(s: DocState, x: Cell)
    ensures Deliver(s, [x]) == Receive(s, x) && (Flows(s, [x]) <==> Enabled(s, x))
  {
    assert [x][1..] == [];
  }

  /** y arrives after the deletion. */
  lemma SecondRun(name: Name, p: Rune, q: Rune, w: Rune, a: Rune, b: Rune, y: Rune)
    requires name != []
    ensures var t := Run(EMPTY, DeletedThenLate(Arrivals(name, p, q, w, a, b), Wire(Late(name, y))));
            && t.dead == {Id(2, 0)}
            && ChainOf(t.chains, ArrayKey(name)) == Integrate(SplitSeq(Typed(name, p, q, w) + [Two(name, a, b)], Id(2, 1)), Late(name, y))
  {
    hide Receive, Deliver, Enabled, Inv, Wire, Merge, ApplyRange, Integrate, SplitSeq, Run, ApplyAll, LeftPart, RightPart, SplitChains;
    var items, x, d, e, key := Arrivals(name, p, q, w, a, b), Late(name, y), FourItems(name, p, q, w, a, b), Two(name, a, b), ArrayKey(name);
    FourArrive(name, p, q, w, a, b);
    MergeGone();
    var one, two, three := Round(Update(items, map[]), []), Round(Update([], GONE), VISIT), Round(Update([Wire(x)], map[]), VISIT);
    assert EMPTY.(ds := map[]) == EMPTY && DeletedThenLate(items, Wire(x)) == [one] + ([two] + [three]);
    VisitOnce(d);
    RunTwo(EMPTY, one, [two] + [three]);
    DeletedNow(d, two, e);
    var t := ApplyUpdate(d, two.update, two.order);
    RunTwo(d, two, [three]);
    RunOne(t, three);
    ReplicaStays(d, two);
    LateArrives(t, name, y, Typed(name, p, q, w)[1]);
    DeliverOne(t, Wire(x));
    SplitChainOf(d.chains, Id(2, 1), key);
    var u := Receive(t, Wire(x));
    PartsFit(e, Id(2, 1));
    VisitOnce(u);
    DeletedAgain(u, LeftPart(e, Id(2, 1)), RightPart(e, Id(2, 1)));
  }

  lemma ReplicaStays(s: DocState, r: Round)
    requires Inv(s) && r == Round(Update([], GONE), VISIT)
    ensures Inv(ApplyUpdate(s, r.update, r.order))
  {
    hide Inv, Merge;
    var t := s.(ds := Merge(s.ds, GONE));
    InvIgnoresDs(s, t.ds);
    NothingMore(t);
    VisitOnce(t);
    ApplyKeepsInv(t, 2, Range(0, 1));
  }

  /**
   * For example: client 3 types p, q and w one by one; client 2 types "ab" after the w; client 1 types y
   * after the q without knowing of the rest; and the a is deleted. Two replicas receive the same four
   * items, then the one y and then the deletion, the other the deletion and then y. The text of the
   * first reads "pqwby", that of the second "pqwyb".
   */
  lemma DeletionMoves(name: Name, p: Rune, q: Rune, w: Rune, a: Rune, b: Rune, y: Rune)
    requires name != []
    ensures var items, x, key := Arrivals(name, p, q, w, a, b), Wire(Late(name, y)), ArrayKey(name);
            var s, t := Run(EMPTY, LateThenDeleted(items, x)), Run(EMPTY, DeletedThenLate(items, x));
            && Flat(LateThenDeleted(items, x)) == Flat(DeletedThenLate(items, x)) == items + [x] && Flows(EMPTY, items + [x])
            && RunesShown(ChainOf(s.chains, key), s.dead) == [p, q, w, b, y]
            && RunesShown(ChainOf(t.chains, key), t.dead) == [p, q, w, y, b]
  {
    hide Receive, Deliver, Enabled, Wire, Run, RunesShown, Integrate, SplitSeq, Flat, Flows;
    var items, x := Arrivals(name, p, q, w, a, b), Wire(Late(name, y));
    FirstRun(name, p, q, w, a, b, y);
    SecondRun(name, p, q, w, a, b, y);
    ListMoves(name, p, q, w, a, b, y);
    FourArrive(name, p, q, w, a, b);
    LateEnabled(name, p, q, w, a, b, y);
    DeliverConcat(EMPTY, items, [x]);
    DeliverOne(FourItems(name, p, q, w, a, b), x);
    FlatRuns(items, x);
  }

  lemma FlatRuns(items: seq<Cell>, x: Cell)
    ensures Flat(LateThenDeleted(items, x)) == items + [x] && Flat(DeletedThenLate(items, x)) == items + [x]
  {
    var one, two := LateThenDeleted(items, x), DeletedThenLate(items, x);
    assert one[1..][1..] == [] && two[1..][1..][1..] == [];
    assert Flat(one[1..]) == [] + Flat(one[1..][1..]) && Flat(two[1..][1..]) == [x] + Flat(two[1..][1..][1..]);
    assert Flat(two[1..]) == [] + Flat(two[1..][1..]);
  }
}
