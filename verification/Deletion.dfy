/**
 * delete.go on values: splitting items at a clock and deleting clock ranges.
 */
module Deletion {
  import opened Wrappers
  import opened Values
  import opened Ids
  import opened Cells
  import opened Integration

  /** splitAtClock divides string items only, and only strictly inside. */
  predicate Divides(c: Cell, at: Id) {
    && Covers(c, at) && c.id.clock < at.clock
    && c.content.Str? && at.clock - c.id.clock < |c.content.text|
  }

  function LeftPart(c: Cell, at: Id): Cell
    requires Divides(c, at)
  {
    var k := at.clock - c.id.clock;
    c.(len := k, content := Str(c.content.text[..k]))
  }

  /** The new item: its origin is the unit before the split, it has no right origin and no key. */
  function RightPart(c: Cell, at: Id): Cell
    requires Divides(c, at)
  {
    var k := at.clock - c.id.clock;
    Cell(at, |c.content.text| - k, Some(Id(at.client, at.clock - 1)), None, c.home, None, Str(c.content.text[k..]))
  }

  /** The first item that the clock divides gives way to its two parts. */
  function SplitSeq(cells: seq<Cell>, at: Id): seq<Cell> {
    if cells == [] then []
    else if Divides(cells[0], at) then [LeftPart(cells[0], at), RightPart(cells[0], at)] + cells[1..]
    else [cells[0]] + SplitSeq(cells[1..], at)
  }

  function SplitChains(chains: Chains, at: Id): (t: Chains)
    ensures t.Keys == chains.Keys && forall k :: k in t ==> t[k] == SplitSeq(chains[k], at)
  {
    map k | k in chains :: SplitSeq(chains[k], at)
  }

  /** splitAtClock, in the store and in the list that holds the item. `dead` does not change: the flag is not copied. */
  function SplitAt(s: DocState, at: Id): DocState {
    var c := Lookup(s.store, at);
    if c.Some? && Divides(c.value, at) then
      s.(store := s.store[at.client := SplitSeq(ItemsOf(s.store, at.client), at)],
         chains := SplitChains(s.chains, at))
    else s
  }

  function MarkRange(s: DocState, client: nat, r: Range): DocState {
    s.(dead := s.dead + set c | c in ItemsOf(s.store, client) && InRange(r, c.id.clock) :: c.id)
  }

  /** applyDeleteRange: split at both ends, then mark what starts in between. */
  function ApplyRange(s: DocState, client: nat, r: Range): DocState {
    MarkRange(SplitAt(SplitAt(s, Id(client, r.clock)), Id(client, r.clock + r.len)), client, r)
  }

  /** One unit of content and its identity: a split must not change the sequence of these. */
  datatype Unit = Char(id: Id, rune: Rune) | Part(id: Id, content: Content)

  function UnitAt(c: Cell, k: nat): Unit
    requires c.content.Str? ==> k < |c.content.text|
  {
    var id := Id(c.id.client, c.id.clock + k);
    if c.content.Str? then Char(id, c.content.text[k]) else Part(id, c.content)
  }

  function UnitsOf(c: Cell): (us: seq<Unit>)
    ensures |us| == if c.content.Str? then |c.content.text| else c.len
  {
    if c.content.Str? then seq(|c.content.text|, k requires 0 <= k < |c.content.text| => UnitAt(c, k))
    else seq(c.len, k requires 0 <= k < c.len => UnitAt(c, k))
  }

  function Units(cells: seq<Cell>): seq<Unit> {
    if cells == [] then [] else UnitsOf(cells[0]) + Units(cells[1..])
  }

  lemma UnitsCons(c: Cell, cells: seq<Cell>)
    ensures Units([c] + cells) == UnitsOf(c) + Units(cells)
  {
    assert ([c] + cells)[1..] == cells;
  }

  lemma UnitsOfParts(c: Cell, at: Id)
    requires Divides(c, at)
    ensures UnitsOf(LeftPart(c, at)) + UnitsOf(RightPart(c, at)) == UnitsOf(c)
  {
  }

  /** Split transparency: the units of a list, with their IDs, are those before the split. */
  lemma {:induction false} SplitKeepsUnits(cells: seq<Cell>, at: Id)
    ensures Units(SplitSeq(cells, at)) == Units(cells)
  {
    hide UnitsOf, LeftPart, RightPart;
    if cells != [] {
      var c, rest := cells[0], cells[1..];
      if Divides(c, at) {
        var l, r := LeftPart(c, at), RightPart(c, at);
        UnitsOfParts(c, at);
        UnitsCons(r, rest);
        UnitsCons(l, [r] + rest);
        assert [l, r] + rest == [l] + ([r] + rest);
      } else {
        SplitKeepsUnits(rest, at);
        UnitsCons(c, SplitSeq(rest, at));
      }
    }
  }

  /** What getItem finds after a split: the same item, unless it was the one divided. */
  function AfterSplit(c: Option<Cell>, at: Id, id: Id): Option<Cell> {
    if c.Some? && Divides(c.value, at)
    then Some(if id.clock < at.clock then LeftPart(c.value, at) else RightPart(c.value, at))
    else c
  }

  predicate Leads(c: Cell, cells: seq<Cell>, client: nat) {
    c.id.client == client && Sized(c) && (cells != [] ==> End(c) <= cells[0].id.clock)
  }

  lemma SortedCons(c: Cell, cells: seq<Cell>, client: nat)
    requires Sorted(cells, client) && Leads(c, cells, client)
    ensures Sorted([c] + cells, client)
  {
    forall j | 0 <= j < |cells| ensures End(c) <= cells[j].id.clock {
      assert j > 0 ==> End(cells[0]) <= cells[j].id.clock;
    }
  }

  lemma SortedUncons(c: Cell, cells: seq<Cell>, client: nat)
    requires Sorted([c] + cells, client)
    ensures Sorted(cells, client) && Leads(c, cells, client)
  {
    var longer := [c] + cells;
    assert longer[0] == c;
    assert forall j :: 0 <= j < |cells| ==> longer[j + 1] == cells[j];
  }

  lemma EndOfCons(c: Cell, cells: seq<Cell>)
    ensures EndOf([c] + cells) == if cells == [] then End(c) else EndOf(cells)
  {
  }

  lemma DistinctCons(c: Cell, cells: seq<Cell>)
    ensures DistinctIds([c] + cells) <==> DistinctIds(cells) && forall d :: d in cells ==> d.id != c.id
  {
    var longer := [c] + cells;
    assert longer[0] == c;
    assert forall j :: 0 <= j < |cells| ==> longer[j + 1] == cells[j];
  }

  lemma PartsFit(c: Cell, at: Id)
    requires Divides(c, at) && Sized(c)
    ensures var l, r := LeftPart(c, at), RightPart(c, at);
            && Sized(l) && Sized(r) && l.id == c.id && r.id == at && l.content.Str? && r.content.Str?
            && End(l) == at.clock && End(r) == End(c)
            && l.home == r.home == c.home && (c.home.Some? ==> KeyOf(l) == KeyOf(r) == KeyOf(c))
  {
  }

  lemma {:induction false} SplitKeepsSorted(cells: seq<Cell>, client: nat, at: Id)
    requires Sorted(cells, client)
    ensures var t := SplitSeq(cells, at);
            Sorted(t, client) && EndOf(t) == EndOf(cells) && (t == [] <==> cells == []) && (t != [] ==> t[0].id == cells[0].id)
  {
    hide LeftPart, RightPart, Sorted, Sized, EndOf;
    if cells != [] {
      var c, rest := cells[0], cells[1..];
      assert cells == [c] + rest;
      SortedUncons(c, rest, client);
      EndOfCons(c, rest);
      if Divides(c, at) {
        var l, r := LeftPart(c, at), RightPart(c, at);
        PartsFit(c, at);
        EndOfCons(r, rest);
        EndOfCons(l, [r] + rest);
        SortedCons(r, rest, client);
        SortedCons(l, [r] + rest, client);
        assert [l, r] + rest == [l] + ([r] + rest);
      } else {
        SplitKeepsSorted(rest, client, at);
        EndOfCons(c, SplitSeq(rest, at));
        SortedCons(c, SplitSeq(rest, at), client);
      }
    }
  }

  lemma SplitFindHere(c: Cell, rest: seq<Cell>, at: Id, id: Id)
    requires Divides(c, at) && Sized(c) && forall d :: d in rest ==> End(c) <= d.id.clock
    ensures Find([LeftPart(c, at), RightPart(c, at)] + rest, id) == AfterSplit(Find([c] + rest, id), at, id)
  {
    hide LeftPart, RightPart, Find;
    var l, r := LeftPart(c, at), RightPart(c, at);
    PartsFit(c, at);
    assert [l, r] + rest == [l] + ([r] + rest);
    FindCons(l, [r] + rest, id);
    FindCons(r, rest, id);
    FindCons(c, rest, id);
  }

  /** In a sorted store getItem finds, for every ID, the item as before or its part. */
  lemma {:induction false} SplitFind(cells: seq<Cell>, client: nat, at: Id, id: Id)
    requires Sorted(cells, client)
    ensures Find(SplitSeq(cells, at), id) == AfterSplit(Find(cells, id), at, id)
  {
    hide LeftPart, RightPart;
    if cells != [] {
      var c, rest := cells[0], cells[1..];
      if Divides(c, at) {
        SplitFindHere(c, rest, at, id);
        assert cells == [c] + rest;
      } else {
        SplitFind(rest, client, at, id);
        assert SplitSeq(cells, at)[1..] == SplitSeq(rest, at);
      }
    }
  }

  lemma SplitLookup(s: DocState, at: Id, id: Id)
    requires StoreSorted(s.store)
    ensures Lookup(SplitAt(s, at).store, id) == AfterSplit(Lookup(s.store, id), at, id)
    ensures StateOf(SplitAt(s, at).store, id.client) == StateOf(s.store, id.client)
  {
    var items := ItemsOf(s.store, at.client);
    SplitKeepsSorted(items, at.client, at);
    if id.client == at.client {
      SplitFind(items, at.client, at, id);
      if Lookup(s.store, id).Some? && Divides(Lookup(s.store, id).value, at) {
        FindIsUnique(items, at.client, at, Lookup(s.store, id).value);
      }
    }
  }

  /** The parts take the place of the item, and nothing else changes. */
  lemma {:induction false} SplitMembers(cells: seq<Cell>, at: Id, e: Cell)
    requires Divides(e, at) && DistinctIds(cells) && forall d :: d in cells && Covers(d, at) ==> d == e
    ensures forall d :: d in SplitSeq(cells, at) <==>
              if e in cells then d == LeftPart(e, at) || d == RightPart(e, at) || (d in cells && d != e) else d in cells
  {
    hide LeftPart, RightPart;
    if cells != [] {
      var c, rest := cells[0], cells[1..];
      assert cells == [c] + rest;
      assert forall d :: d in rest ==> d.id != c.id;
      if c != e { SplitMembers(rest, at, e); }
    }
  }

  lemma {:induction false} SplitAvoids(cells: seq<Cell>, at: Id, id: Id)
    requires id != at && forall c :: c in cells ==> c.id != id
    ensures forall d :: d in SplitSeq(cells, at) ==> d.id != id
  {
    if cells != [] && !Divides(cells[0], at) { SplitAvoids(cells[1..], at, id); }
  }

  lemma {:induction false} SplitKeepsDistinct(cells: seq<Cell>, at: Id)
    requires DistinctIds(cells) && forall d :: d in cells ==> d.id != at
    ensures DistinctIds(SplitSeq(cells, at))
  {
    hide DistinctIds;
    if cells != [] {
      var c, rest := cells[0], cells[1..];
      assert cells == [c] + rest;
      DistinctCons(c, rest);
      if Divides(c, at) {
        var l, r := LeftPart(c, at), RightPart(c, at);
        assert [l, r] + rest == [l] + ([r] + rest);
        DistinctCons(r, rest);
        DistinctCons(l, [r] + rest);
      } else {
        SplitKeepsDistinct(rest, at);
        SplitAvoids(rest, at, c.id);
        DistinctCons(c, SplitSeq(rest, at));
      }
    }
  }

  lemma SplitKeepsChain(store: Store, chain: seq<Cell>, key: Key, at: Id, e: Cell)
    requires StoreSorted(store) && ChainOk(store, chain, key)
    requires Lookup(store, at) == Some(e) && Divides(e, at)
    ensures ChainOk(store[at.client := SplitSeq(ItemsOf(store, at.client), at)], SplitSeq(chain, at), key)
  {
    hide LeftPart, RightPart, Find, SplitSeq;
    var items := ItemsOf(store, at.client);
    forall d | InStore(store, d) && Covers(d, at) ensures d == e {
      FindIsUnique(items, at.client, at, d);
    }
    SplitMembers(items, at, e);
    SplitMembers(chain, at, e);
    PartsFit(e, at);
    SplitKeepsDistinct(chain, at);
  }

  lemma SplitKeepsInv(s: DocState, at: Id)
    requires Inv(s)
    ensures Inv(SplitAt(s, at))
  {
    hide LeftPart, RightPart, Find, SplitSeq, ChainOk, AfterSplit;
    var c, t := Lookup(s.store, at), SplitAt(s, at);
    if c.Some? && Divides(c.value, at) {
      SplitKeepsSorted(ItemsOf(s.store, at.client), at.client, at);
      forall k | k in t.chains ensures ChainOk(t.store, t.chains[k], k) {
        SplitKeepsChain(s.store, s.chains[k], k, at, c.value);
      }
      forall id | id in t.dead ensures IsStart(t.store, id) {
        SplitKeepsStart(s, at, id);
      }
    }
  }

  lemma SplitKeepsStart(s: DocState, at: Id, id: Id)
    requires StoreSorted(s.store) && IsStart(s.store, id)
    ensures IsStart(SplitAt(s, at).store, id)
  {
    SplitLookup(s, at, id);
  }

  /** The first item that the clock divides, at index j, gives way to its parts. */
  lemma {:induction false} SplitSeqIs(cells: seq<Cell>, at: Id, j: nat)
    requires j < |cells| && Divides(cells[j], at) && forall i :: 0 <= i < j ==> !Divides(cells[i], at)
    ensures SplitSeq(cells, at) == InsertAt(cells[j := LeftPart(cells[j], at)], j + 1, RightPart(cells[j], at))
  {
    hide LeftPart, RightPart;
    if j > 0 {
      SplitSeqIs(cells[1..], at, j - 1);
    }
  }

  lemma {:induction false} SplitSeqNone(cells: seq<Cell>, at: Id)
    requires forall c :: c in cells ==> !Divides(c, at)
    ensures SplitSeq(cells, at) == cells
  {
    if cells != [] { SplitSeqNone(cells[1..], at); }
  }

  /**
   * A split in numbers: in the list that holds it, a string with the clock strictly inside gives way to its
   * first characters, with all that the item said, and a new item at the clock with the others, whose origin is
   * the unit before, without a right origin and a key. No flag is set for it.
   */
  lemma SplitPlaces(s: DocState, at: Id, k: Key, i: nat)
    requires Inv(s) && i < |ChainOf(s.chains, k)|
    requires var c := ChainOf(s.chains, k)[i];
             c.content.Str? && c.id.client == at.client && c.id.clock < at.clock < c.id.clock + c.len
    ensures var c, chain := ChainOf(s.chains, k)[i], ChainOf(s.chains, k);
            var n := at.clock - c.id.clock;
            && n < |c.content.text| == c.len
            && ChainOf(SplitAt(s, at).chains, k) == chain[..i]
                 + [Cell(c.id, n, c.left, c.right, c.home, c.sub, Str(c.content.text[..n])),
                    Cell(at, c.len - n, Some(Id(at.client, at.clock - 1)), None, c.home, None, Str(c.content.text[n..]))]
                 + chain[i + 1..]
            && SplitAt(s, at).dead == s.dead
  {
    hide Find, SplitSeq, InsertAt;
    var chain := ChainOf(s.chains, k);
    var c := chain[i];
    assert ChainOk(s.store, chain, k) && c in chain;
    assert Sorted(ItemsOf(s.store, c.id.client), c.id.client) && Sized(c);
    FindIsUnique(ItemsOf(s.store, at.client), at.client, at, c);
    forall j | 0 <= j < i ensures !Divides(chain[j], at) {
      if Divides(chain[j], at) {
        assert chain[j] in chain;
        FindIsUnique(ItemsOf(s.store, at.client), at.client, at, chain[j]);
      }
    }
    SplitSeqIs(chain, at, i);
    PartsPlaced(chain, i, LeftPart(c, at), RightPart(c, at));
  }

  lemma PartsPlaced(cells: seq<Cell>, i: nat, l: Cell, r: Cell)
    requires i < |cells|
    ensures InsertAt(cells[i := l], i + 1, r) == cells[..i] + [l, r] + cells[i + 1..]
  {
  }
}
