/**
 * The store over runs: each client's items stay sorted, disjoint and contiguous, getItem finds the
 * one item that covers a clock, and deleting never changes the state vector.
 */
module Tiling {
  import opened Wrappers
  import opened Ids
  import opened Cells
  import opened Integration
  import opened Deletion
  import opened Exactness

  ghost predicate GapFree(store: Store) {
    forall c :: Tiled(ItemsOf(store, c), c)
  }

  lemma TiledAppend(items: seq<Cell>, client: nat, c: Cell)
    requires Tiled(items, client) && c.id == Id(client, EndOf(items)) && Sized(c)
    ensures Tiled(items + [c], client)
  {
    SortedBelow(items, client, EndOf(items));
  }

  lemma PartsTiled(cells: seq<Cell>, client: nat, j: nat, l: Cell, r: Cell)
    requires Tiled(cells, client) && j < |cells| && Sorted(InsertAt(cells[j := l], j + 1, r), client)
    requires l.id == cells[j].id && End(l) == r.id.clock && End(r) == End(cells[j])
    ensures Tiled(InsertAt(cells[j := l], j + 1, r), client)
  {
    var t := InsertAt(cells[j := l], j + 1, r);
    hide Sorted;
    forall i | 0 < i < |t| ensures t[i].id.clock == End(t[i - 1]) {
      assert i <= j ==> t[i].id == cells[i].id && t[i - 1] == cells[i - 1];
      assert i > j + 1 ==> t[i] == cells[i - 1];
    }
  }

  lemma SplitKeepsTiled(cells: seq<Cell>, client: nat, at: Id)
    requires Tiled(cells, client)
    ensures Tiled(SplitSeq(cells, at), client)
  {
    hide LeftPart, RightPart, InsertAt;
    SplitKeepsSorted(cells, client, at);
    if c :| c in cells && Divides(c, at) {
      var j := IndexOf(cells, at);
      assert forall i :: 0 <= i < j ==> !Divides(cells[i], at);
      var i :| 0 <= i < |cells| && cells[i] == c;
      CoveringIsUnique(cells, client, i, j, at);
      SplitSeqIs(cells, at, j);
      PartsFit(c, at);
      PartsTiled(cells, client, j, LeftPart(c, at), RightPart(c, at));
    } else {
      SplitSeqNone(cells, at);
    }
  }

  /** One step of a replica: an item integrated, or a delete range applied. */
  datatype Event = Arrival(x: Cell) | Deletion(client: nat, range: Range)

  function Happen(s: DocState, e: Event): DocState {
    match e
    case Arrival(x) => Receive(s, x)
    case Deletion(client, range) => ApplyRange(s, client, range)
  }

  function HappenAll(s: DocState, es: seq<Event>): DocState
    decreases |es|
  {
    if es == [] then s else HappenAll(Happen(s, es[0]), es[1..])
  }

  /** Items arrive in order: each starts at the next clock of its client, or is known already. */
  predicate InOrder(s: DocState, es: seq<Event>)
    decreases |es|
  {
    es == [] ||
    ((es[0].Arrival? ==> Sized(es[0].x) && (Held(s, es[0].x.id) || es[0].x.id.clock == StateOf(s.store, es[0].x.id.client)))
     && InOrder(Happen(s, es[0]), es[1..]))
  }

  lemma ReceiveKeepsGapFree(s: DocState, x: Cell)
    requires GapFree(s.store) && Sized(x) && (Held(s, x.id) || x.id.clock == StateOf(s.store, x.id.client))
    ensures GapFree(Receive(s, x).store)
  {
    var t := Receive(s, x);
    if !Held(s, x.id) {
      TiledAppend(ItemsOf(s.store, x.id.client), x.id.client, x.(home := Resolve(s.store, x)));
      forall c ensures Tiled(ItemsOf(t.store, c), c) {
        assert Tiled(ItemsOf(s.store, c), c);
      }
    }
  }

  lemma SplitKeepsGapFree(s: DocState, at: Id)
    requires GapFree(s.store)
    ensures GapFree(SplitAt(s, at).store)
  {
    hide Tiled;
    forall c ensures Tiled(ItemsOf(SplitAt(s, at).store, c), c) {
      assert Tiled(ItemsOf(s.store, c), c);
      SplitKeepsTiled(ItemsOf(s.store, at.client), at.client, at);
    }
  }

  lemma GapFreeSorted(store: Store)
    requires GapFree(store)
    ensures StoreSorted(store)
  {
    forall c | c in store ensures Sorted(store[c], c) {
      assert Tiled(ItemsOf(store, c), c);
    }
  }

  /** Deleting keeps the store contiguous and the state vector as it is. */
  lemma ApplyKeepsGapFree(s: DocState, client: nat, r: Range)
    requires GapFree(s.store)
    ensures GapFree(ApplyRange(s, client, r).store)
    ensures forall c :: StateOf(ApplyRange(s, client, r).store, c) == StateOf(s.store, c)
  {
    hide SplitAt, GapFree, StateOf;
    var lo, hi := Id(client, r.clock), Id(client, r.clock + r.len);
    SplitKeepsGapFree(s, lo);
    SplitKeepsGapFree(SplitAt(s, lo), hi);
    GapFreeSorted(s.store);
    GapFreeSorted(SplitAt(s, lo).store);
    forall c ensures StateOf(ApplyRange(s, client, r).store, c) == StateOf(s.store, c) {
      SplitLookup(s, lo, Id(c, 0));
      SplitLookup(SplitAt(s, lo), hi, Id(c, 0));
    }
  }

  /** In a contiguous store an item covers exactly the clocks below the state, and one item each. */
  lemma GapFreeCovers(store: Store, id: Id)
    requires GapFree(store)
    ensures Lookup(store, id).Some? <==> id.clock < StateOf(store, id.client)
    ensures forall c :: InStore(store, c) && Covers(c, id) ==> Lookup(store, id) == Some(c)
  {
    var items := ItemsOf(store, id.client);
    assert Tiled(items, id.client);
    TiledCoverage(items, id.client, id.clock);
    var i := IndexOf(items, id);
    if i < |items| { FindIsUnique(items, id.client, id, items[i]); }
    forall c | InStore(store, c) && Covers(c, id) ensures Lookup(store, id) == Some(c) {
      FindIsUnique(items, id.client, id, c);
    }
  }

  /**
   * Store tiling: after every run of in-order arrivals and deletions, each client's items are
   * contiguous from clock 0, and getItem returns the unique item that covers a clock exactly when
   * the clock is below getState.
   */
  lemma {:induction false} TilingOverRuns(s: DocState, es: seq<Event>, id: Id)
    requires GapFree(s.store) && InOrder(s, es)
    ensures var t := HappenAll(s, es);
            && GapFree(t.store)
            && (Lookup(t.store, id).Some? <==> id.clock < StateOf(t.store, id.client))
            && (forall c :: InStore(t.store, c) && Covers(c, id) ==> Lookup(t.store, id) == Some(c))
    decreases |es|
  {
    hide GapFree, Receive, ApplyRange, Find;
    if es == [] {
      GapFreeCovers(s.store, id);
    } else {
      match es[0] {
        case Arrival(x) => ReceiveKeepsGapFree(s, x);
        case Deletion(client, range) => ApplyKeepsGapFree(s, client, range);
      }
      TilingOverRuns(Happen(s, es[0]), es[1..], id);
    }
  }

  // Text.splitItemAt does not insert the right half into the store but appends it.

  /** A text splits the k-th stored item of a client at this ID: the right half goes to the end of the slice. */
  function SplitToEnd(items: seq<Cell>, k: nat, at: Id): seq<Cell>
    requires k < |items| && Divides(items[k], at)
  {
    items[k := LeftPart(items[k], at)] + [RightPart(items[k], at)]
  }

  /**
   * After a local split the slice of the client is still sorted, and its state still the same, if and
   * only if the split item was its last one. Otherwise the state falls back to the end of the split
   * item, a clock that a later item holds, and the next local insert would use that clock again.
   */
  lemma LocalSplitSorted(items: seq<Cell>, client: nat, k: nat, at: Id)
    requires Tiled(items, client) && k < |items| && Divides(items[k], at)
    ensures var t := SplitToEnd(items, k, at);
            && (Sorted(t, client) <==> k == |items| - 1)
            && (EndOf(t) == EndOf(items) <==> k == |items| - 1)
            && (k < |items| - 1 ==> EndOf(t) == items[k + 1].id.clock && Covers(items[k + 1], Id(client, EndOf(t))) && items[k + 1] in t)
  {
    var t := SplitToEnd(items, k, at);
    var right := RightPart(items[k], at);
    assert t[|items|] == right && t[k] == LeftPart(items[k], at) && End(right) == End(items[k]);
    assert items[k].id.client == client && Sized(right) && Sized(t[k]);
    if k < |items| - 1 {
      assert t[k + 1] == items[k + 1] && items[k + 1].id.clock == End(items[k]) && items[k + 1].len >= 1;
      assert End(items[k + 1]) <= EndOf(items) by { SortedBelow(items, client, EndOf(items)); }
      assert !(End(t[k + 1]) <= t[|items|].id.clock);
    } else {
      forall i, j | 0 <= i < j < |t| ensures End(t[i]) <= t[j].id.clock {
        if j == |items| && i < k { assert End(items[i]) <= items[k].id.clock; }
      }
    }
  }
}
