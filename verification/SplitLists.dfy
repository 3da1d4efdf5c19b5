/**
 * Splitting and integrating in one list: exactly when a split for a deletion moves an item that
 * arrives later.
 */
module SplitLists {
  import opened Ids
  import opened Cells
  import opened Integration
  import opened Deletion
  import opened Authoring

  /** Item j is the one that the clock divides. */
  predicate DividedAt(chain: seq<Cell>, at: Id, j: nat) {
    j < |chain| && Divides(chain[j], at) && Sized(chain[j]) && forall i :: 0 <= i < |chain| && i != j ==> !Covers(chain[i], at)
  }

  /** The list after the split. */
  lemma SplitChainIs(chain: seq<Cell>, at: Id, j: nat)
    requires DividedAt(chain, at, j)
    ensures SplitSeq(chain, at) == chain[..j] + [LeftPart(chain[j], at), RightPart(chain[j], at)] + chain[j + 1..]
  {
    hide LeftPart, RightPart;
    SplitSeqIs(chain, at, j);
    var changed := chain[j := LeftPart(chain[j], at)];
    assert changed[..j + 1] == chain[..j] + [LeftPart(chain[j], at)] && changed[j + 1..] == chain[j + 1..];
  }

  lemma IndexOfIs(cells: seq<Cell>, id: Id, i: nat)
    requires i <= |cells| && (i < |cells| ==> Covers(cells[i], id)) && forall k :: 0 <= k < i ==> !Covers(cells[k], id)
    ensures IndexOf(cells, id) == i
  {
  }

  /** The origin is in the item before the start of the scan, on the left of the clock. */
  predicate OriginLeft(chain: seq<Cell>, at: Id, j: nat, x: Cell) {
    Start(chain, x.left) == j + 1 && x.left.Some? && x.left.value.clock < at.clock
  }

  /** After the split the scan starts where it started, one further on if that was behind the right part. */
  lemma StartAfterSplit(chain: seq<Cell>, at: Id, j: nat, x: Cell)
    requires DividedAt(chain, at, j)
    ensures var i := Start(chain, x.left); Start(SplitSeq(chain, at), x.left) == if i > j && !OriginLeft(chain, at, j, x) then i + 1 else i
  {
    hide IndexOf;
    SplitElements(chain, at, j);
    if x.left.Some? {
      var parts, i := SplitSeq(chain, at), IndexOf(chain, x.left.value);
      IndexOfIs(parts, x.left.value, if i >= j && !OriginLeft(chain, at, j, x) then i + 1 else i);
    }
  }

  /**
   * The scan of the new item reaches the right part of the divided one and stops there: it passes
   * every item from its start up to the whole divided item, or it starts right after the left part.
   */
  predicate Disturbs(chain: seq<Cell>, at: Id, j: nat, x: Cell)
    requires DividedAt(chain, at, j)
  {
    && Stops(x, RightPart(chain[j], at))
    && (OriginLeft(chain, at, j, x) || (Start(chain, x.left) <= j && forall k :: Start(chain, x.left) <= k <= j ==> !Stops(x, chain[k])))
  }

  lemma PartsStop(c: Cell, at: Id, x: Cell)
    requires Divides(c, at) && x.right.None?
    ensures Stops(x, LeftPart(c, at)) == Stops(x, c)
  {
  }

  /** The elements after the split. */
  lemma SplitElements(chain: seq<Cell>, at: Id, j: nat)
    requires DividedAt(chain, at, j)
    ensures var parts := SplitSeq(chain, at);
            && |parts| == |chain| + 1 && parts[j] == LeftPart(chain[j], at) && parts[j + 1] == RightPart(chain[j], at)
            && (forall k :: 0 <= k < j ==> parts[k] == chain[k]) && (forall k :: j + 2 <= k < |parts| ==> parts[k] == chain[k - 1])
  {
    hide LeftPart, RightPart, SplitSeq, Divides;
    SplitChainIs(chain, at, j);
  }

  lemma PlaceAfterSplit(chain: seq<Cell>, at: Id, j: nat, x: Cell)
    requires DividedAt(chain, at, j) && x.right.None?
    ensures var p := Place(chain, x);
            Place(SplitSeq(chain, at), x) == if Disturbs(chain, at, j, x) then j + 1 else if p > j then p + 1 else p
  {
    hide LeftPart, RightPart, SplitSeq, Divides, Stops, Start, Covers, Sized;
    var p, parts := Place(chain, x), SplitSeq(chain, at);
    SplitElements(chain, at, j);
    StartAfterSplit(chain, at, j, x);
    PartsStop(chain[j], at, x);
    PlaceAt(parts, x, if Disturbs(chain, at, j, x) then j + 1 else if p > j then p + 1 else p);
  }

  lemma InsertLeft<T>(a: seq<T>, m: seq<T>, b: seq<T>, p: nat, x: T)
    requires p <= |a|
    ensures InsertAt(a + m + b, p, x) == InsertAt(a, p, x) + m + b
  {
  }

  lemma InsertRight<T>(a: seq<T>, m: seq<T>, b: seq<T>, q: nat, x: T)
    requires q <= |b|
    ensures InsertAt(a + m + b, |a| + |m| + q, x) == a + m + InsertAt(b, q, x)
  {
  }

  /** The list after the split, by what is on the left and on the right of the divided item. */
  lemma SplitBetween(a: seq<Cell>, c: Cell, b: seq<Cell>, at: Id)
    requires Divides(c, at) && Sized(c) && forall d :: d in a || d in b ==> !Covers(d, at)
    ensures SplitSeq(a + [c] + b, at) == a + [LeftPart(c, at), RightPart(c, at)] + b
  {
    hide LeftPart, RightPart, Divides, Covers;
    var chain := a + [c] + b;
    assert chain[..|a|] == a && chain[|a|] == c && chain[|a| + 1..] == b;
    forall i | 0 <= i < |chain| && i != |a| ensures !Covers(chain[i], at) { assert chain[i] in a || chain[i] in b; }
    SplitChainIs(chain, at, |a|);
  }

  lemma SplitAfterInsert(chain: seq<Cell>, at: Id, j: nat, p: nat, x: Cell)
    requires DividedAt(chain, at, j) && p <= |chain| && !Covers(x, at)
    ensures |SplitSeq(chain, at)| == |chain| + 1
    ensures SplitSeq(InsertAt(chain, p, x), at) == InsertAt(SplitSeq(chain, at), if p > j then p + 1 else p, x)
  {
    hide LeftPart, RightPart, Divides, Covers, SplitSeq, InsertAt;
    var a, c, b := chain[..j], chain[j], chain[j + 1..];
    var parts := [LeftPart(c, at), RightPart(c, at)];
    assert chain == a + [c] + b;
    SplitBetween(a, c, b, at);
    if p > j {
      var q := p - j - 1;
      InsertAtElements(b, q, x);
      InsertRight(a, [c], b, q, x);
      InsertRight(a, parts, b, q, x);
      SplitBetween(a, c, InsertAt(b, q, x), at);
    } else {
      InsertAtElements(a, p, x);
      InsertLeft(a, [c], b, p, x);
      InsertLeft(a, parts, b, p, x);
      SplitBetween(InsertAt(a, p, x), c, b, at);
    }
  }

  /**
   * Splitting and integrating. Whether an item of the list is split before or after another item is
   * integrated makes no difference, if and only if the scan of the new item does not reach the right
   * part and stop there; the right part has an origin of its own, at an earlier clock.
   */
  lemma IntegrateSplitIff(chain: seq<Cell>, at: Id, j: nat, x: Cell)
    requires DividedAt(chain, at, j) && x.right.None? && !Covers(x, at) && x.id != at
    ensures Integrate(SplitSeq(chain, at), x) == SplitSeq(Integrate(chain, x), at) <==> !Disturbs(chain, at, j, x)
  {
    hide Place, SplitSeq, Divides, Stops, Start;
    PlaceAfterSplit(chain, at, j, x);
    SplitAfterInsert(chain, at, j, Place(chain, x), x);
    if Disturbs(chain, at, j, x) {
      if !OriginLeft(chain, at, j, x) { PassedBy(chain, j, x); }
      SplitElements(chain, at, j);
      assert Integrate(SplitSeq(chain, at), x)[j + 1] == x;
      assert SplitSeq(Integrate(chain, x), at)[j + 1] == RightPart(chain[j], at);
    }
  }

  // All splits of a list.

  /** The new item goes before whatever starts at this clock because of a split there. */
  predicate GoesBefore(x: Cell, at: Id) {
    if OriginRank(x) != at.clock then OriginRank(x) > at.clock else CompareIds(x.id, at) > 0
  }

  lemma RightPartStops(c: Cell, at: Id, x: Cell)
    requires Divides(c, at) && x.right.None?
    ensures Stops(x, RightPart(c, at)) <==> GoesBefore(x, at)
  {
  }

  lemma GoesBeforeEarlier(x: Cell, client: nat, clock: nat, later: nat)
    requires GoesBefore(x, Id(client, later)) && clock <= later
    ensures GoesBefore(x, Id(client, clock))
  {
  }

  /** The clock inside an item, right after this one. */
  predicate InsideString(c: Cell, clock: nat) {
    c.content.Str? && c.id.clock < clock < End(c)
  }

  /**
   * No split of item k disturbs the new item: if the scan starts inside item k, the new item does not go
   * before what follows its origin there, and if the scan passes item k, not before what follows its
   * first character.
   */
  predicate CalmAt(chain: seq<Cell>, x: Cell, k: nat)
    requires k < |chain|
  {
    var c, i := chain[k], Start(chain, x.left);
    && (i == k + 1 && x.left.Some? && InsideString(c, x.left.value.clock + 1) ==> !GoesBefore(x, Id(c.id.client, x.left.value.clock + 1)))
    && (i <= k < Place(chain, x) && InsideString(c, c.id.clock + 1) ==> !GoesBefore(x, Id(c.id.client, c.id.clock + 1)))
  }

  predicate CalmIn(chain: seq<Cell>, x: Cell) {
    forall k :: 0 <= k < |chain| ==> CalmAt(chain, x, k)
  }

  lemma CalmUndisturbed(chain: seq<Cell>, at: Id, j: nat, x: Cell)
    requires DividedAt(chain, at, j) && x.right.None? && CalmAt(chain, x, j)
    ensures !Disturbs(chain, at, j, x)
  {
    hide Start, GoesBefore, RightPart;
    RightPartStops(chain[j], at, x);
    if Disturbs(chain, at, j, x) {
      var c := chain[j];
      if OriginLeft(chain, at, j, x) {
        OriginHere(chain, j, x);
        GoesBeforeEarlier(x, at.client, x.left.value.clock + 1, at.clock);
      } else {
        PassedBy(chain, j, x);
        GoesBeforeEarlier(x, at.client, c.id.clock + 1, at.clock);
      }
    }
  }

  lemma OriginHere(chain: seq<Cell>, j: nat, x: Cell)
    requires j < |chain| && Start(chain, x.left) == j + 1 && x.left.Some?
    ensures Covers(chain[j], x.left.value)
  {
  }

  lemma PassedBy(chain: seq<Cell>, j: nat, x: Cell)
    requires j < |chain| && Start(chain, x.left) <= j && forall k :: Start(chain, x.left) <= k <= j ==> !Stops(x, chain[k])
    ensures j < Place(chain, x)
  {
  }

  /** A split that does not disturb the new item leaves a list whose splits do not disturb it either. */
  lemma CalmAfterSplitIn(chain: seq<Cell>, at: Id, j: nat, x: Cell)
    requires DividedAt(chain, at, j) && x.right.None? && CalmIn(chain, x)
    ensures CalmIn(SplitSeq(chain, at), x)
  {
    hide SplitSeq, Divides, Stops, Start, Place, LeftPart, RightPart, CalmAt;
    var parts := SplitSeq(chain, at);
    assert CalmAt(chain, x, j);
    CalmUndisturbed(chain, at, j, x);
    SplitElements(chain, at, j);
    StartAfterSplit(chain, at, j, x);
    PlaceAfterSplit(chain, at, j, x);
    forall k | 0 <= k < |parts| ensures CalmAt(parts, x, k) {
      if k == j || k == j + 1 {
        CalmPart(chain, at, j, x, k);
      } else {
        var was := if k < j then k else k - 1;
        assert CalmAt(chain, x, was);
        CalmElsewhere(chain, parts, x, was, k);
      }
    }
  }

  /** An item other than the divided one is as far from the start and the end of the scan as it was. */
  lemma CalmElsewhere(chain: seq<Cell>, parts: seq<Cell>, x: Cell, was: nat, k: nat)
    requires was < |chain| && k < |parts| && parts[k] == chain[was] && CalmAt(chain, x, was)
    requires Start(parts, x.left) == k + 1 ==> Start(chain, x.left) == was + 1
    requires Start(parts, x.left) <= k < Place(parts, x) ==> Start(chain, x.left) <= was < Place(chain, x)
    ensures CalmAt(parts, x, k)
  {
    hide Start, Place;
  }

  /** A part of the divided item. */
  lemma CalmPart(chain: seq<Cell>, at: Id, j: nat, x: Cell, k: nat)
    requires DividedAt(chain, at, j) && x.right.None? && CalmAt(chain, x, j) && (k == j || k == j + 1)
    ensures |SplitSeq(chain, at)| == |chain| + 1 && CalmAt(SplitSeq(chain, at), x, k)
  {
    hide SplitSeq, Stops, Start, Place;
    CalmUndisturbed(chain, at, j, x);
    SplitElements(chain, at, j);
    StartAfterSplit(chain, at, j, x);
    PlaceAfterSplit(chain, at, j, x);
    PartsFit(chain[j], at);
    RightPartStops(chain[j], at, x);
    if GoesBefore(x, Id(at.client, at.clock + 1)) { GoesBeforeEarlier(x, at.client, at.clock, at.clock + 1); }
    if Start(chain, x.left) == j + 1 && x.left.Some? { OriginHere(chain, j, x); }
    if Start(chain, x.left) <= j < Place(chain, x) { PassedAll(chain, j, x); }
  }

  lemma PassedAll(chain: seq<Cell>, j: nat, x: Cell)
    requires j < |chain| && Start(chain, x.left) <= j < Place(chain, x)
    ensures forall k :: Start(chain, x.left) <= k <= j ==> !Stops(x, chain[k])
  {
  }

  predicate Commutes(chain: seq<Cell>, at: Id, x: Cell) {
    Integrate(SplitSeq(chain, at), x) == SplitSeq(Integrate(chain, x), at)
  }

  /** A list of items that do not overlap each other, nor a new one. */
  predicate Separate(chain: seq<Cell>, x: Cell) {
    Disjoint(chain) && x.len >= 1 && forall c :: c in chain ==> Sized(c) && NoOverlap(c, x)
  }

  lemma DividesIn(chain: seq<Cell>, x: Cell, k: nat, clock: nat)
    requires Separate(chain, x) && k < |chain| && InsideString(chain[k], clock)
    ensures var at := Id(chain[k].id.client, clock); DividedAt(chain, at, k) && !Covers(x, at) && x.id != at
  {
    assert chain[k] in chain;
    var at := Id(chain[k].id.client, clock);
    forall i | 0 <= i < |chain| && i != k ensures !Covers(chain[i], at) {
      assert if i < k then NoOverlap(chain[i], chain[k]) else NoOverlap(chain[k], chain[i]);
    }
  }

  /** If item k is not calm, then a split of it disturbs the new item. */
  lemma DisturbedAt(chain: seq<Cell>, x: Cell, k: nat) returns (at: Id)
    requires Separate(chain, x) && x.right.None? && k < |chain| && !CalmAt(chain, x, k)
    ensures DividedAt(chain, at, k) && !Covers(x, at) && x.id != at && Disturbs(chain, at, k, x)
  {
    hide Stops, Start, Place, GoesBefore, RightPart, Separate, DividedAt;
    var c, i := chain[k], Start(chain, x.left);
    var inside := i == k + 1 && x.left.Some? && InsideString(c, x.left.value.clock + 1) && GoesBefore(x, Id(c.id.client, x.left.value.clock + 1));
    var clock := if inside then x.left.value.clock + 1 else c.id.clock + 1;
    at := Id(c.id.client, clock);
    DividesIn(chain, x, k, clock);
    DividedDivides(chain, at, k);
    RightPartStops(c, at, x);
    if !inside { PassedAll(chain, k, x); }
  }

  lemma DividedDivides(chain: seq<Cell>, at: Id, j: nat)
    requires DividedAt(chain, at, j)
    ensures Divides(chain[j], at)
  {
  }

  /**
   * When no deletion can move an arriving item. Whatever item of the list is split, and wherever,
   * before or after the new item is integrated makes no difference, if and only if the new item does
   * not go before what follows its origin inside of an item, nor before what follows the first
   * character of a string that its scan passes.
   */
  lemma CalmIff(chain: seq<Cell>, x: Cell)
    requires Separate(chain, x) && x.right.None?
    ensures CalmIn(chain, x) <==> forall at, j :: DividedAt(chain, at, j) ==> Commutes(chain, at, x)
  {
    hide Separate, DividedAt, Disturbs, CalmAt;
    if CalmIn(chain, x) {
      forall at, j | DividedAt(chain, at, j) ensures Commutes(chain, at, x) {
        DividedAvoids(chain, at, j, x);
        assert CalmAt(chain, x, j);
        CalmUndisturbed(chain, at, j, x);
        IntegrateSplitIff(chain, at, j, x);
      }
    } else {
      var k :| 0 <= k < |chain| && !CalmAt(chain, x, k);
      var at := DisturbedAt(chain, x, k);
      IntegrateSplitIff(chain, at, k, x);
      assert DividedAt(chain, at, k) && !Commutes(chain, at, x);
    }
  }

  lemma DividedAvoids(chain: seq<Cell>, at: Id, j: nat, x: Cell)
    requires Separate(chain, x) && DividedAt(chain, at, j)
    ensures j < |chain| && !Covers(x, at) && x.id != at
  {
    assert chain[j] in chain && NoOverlap(chain[j], x);
  }

  lemma {:induction false} UnitsConcat(a: seq<Cell>, b: seq<Cell>)
    ensures Units(a + b) == Units(a) + Units(b)
  {
    hide UnitsOf;
    if a == [] {
      assert a + b == b;
    } else {
      var all := a + b;
      UnitsConcat(a[1..], b);
      assert all[0] == a[0] && all[1..] == a[1..] + b;
      assert Units(all) == UnitsOf(a[0]) + (Units(a[1..]) + Units(b));
    }
  }

  lemma UnitsAfter(a: seq<Cell>, c: Cell, b: seq<Cell>)
    requires Sized(c)
    ensures var units := Units(a + [c] + b); |Units(a)| < |units| && units[|Units(a)|].id == c.id
  {
    hide Units;
    UnitsConcat(a + [c], b);
    UnitsConcat(a, [c]);
    UnitsCons(c, []);
    assert [c] + [] == [c];
  }

  /** A disturbed item shows at another place. */
  lemma DisturbedShows(chain: seq<Cell>, at: Id, j: nat, x: Cell)
    requires DividedAt(chain, at, j) && x.right.None? && !Covers(x, at) && x.id != at && Sized(x) && Disturbs(chain, at, j, x)
    ensures Units(Integrate(SplitSeq(chain, at), x)) != Units(SplitSeq(Integrate(chain, x), at))
  {
    hide Place, SplitSeq, Divides, Stops, Start, Units, LeftPart, RightPart;
    var parts, p := SplitSeq(chain, at), Place(chain, x);
    PlaceAfterSplit(chain, at, j, x);
    SplitAfterInsert(chain, at, j, p, x);
    if !OriginLeft(chain, at, j, x) { PassedBy(chain, j, x); }
    SplitElements(chain, at, j);
    PartsFit(chain[j], at);
    var now, later := Integrate(parts, x), SplitSeq(Integrate(chain, x), at);
    assert now == parts[..j + 1] + [x] + parts[j + 1..];
    assert later[..j + 1] == parts[..j + 1] && later[j + 1] == parts[j + 1];
    assert later == parts[..j + 1] + [parts[j + 1]] + later[j + 2..];
    UnitsAfter(parts[..j + 1], x, parts[j + 1..]);
    UnitsAfter(parts[..j + 1], parts[j + 1], later[j + 2..]);
  }
}
