/** Transactions on a text: what is recorded of its insertions and deletions, and what is sent. */
module TextTransactions {
  import opened Wrappers
  import opened Values
  import opened Ids
  import opened Cells
  import opened Deletion
  import opened Fragments
  import opened Seams
  import opened Authoring
  import opened Items
  import opened Texts
  import Transactions
  import opened Varints
  import StateVectors
  import E = EncodedItems
  import Updates
  import Encoding

  // Deletions.

  ghost predicate HasId(units: seq<Unit>, id: Id) {
    exists u :: u in units && u.id == id
  }

  predicate DistinctUnits(units: seq<Unit>) {
    forall i, j :: 0 <= i < j < |units| ==> units[i].id != units[j].id
  }

  function Total(cells: seq<Cell>): nat {
    if cells == [] then 0 else cells[0].len + Total(cells[1..])
  }

  lemma UnitAtOf(c: Cell, id: Id)
    requires c.content.Str? && Sized(c)
    ensures HasId(UnitsOf(c), id) <==> Covers(c, id)
  {
    if Covers(c, id) { assert UnitsOf(c)[id.clock - c.id.clock].id == id; }
  }

  lemma HasIdConcat(a: seq<Unit>, b: seq<Unit>, id: Id)
    ensures HasId(a + b, id) <==> HasId(a, id) || HasId(b, id)
  {
    if HasId(a + b, id) {
      var u :| u in a + b && u.id == id;
      assert u in a || u in b;
    } else {
      assert forall u :: u in a || u in b ==> u in a + b;
    }
  }

  /** The units of strings: which there are, how many, and that none is there twice if no items overlap. */
  lemma {:induction false} UnitsCovered(cells: seq<Cell>, id: Id)
    requires TextCells(cells)
    ensures HasId(Units(cells), id) <==> Transactions.SomeCovers(cells, id)
    ensures |Units(cells)| == Total(cells)
  {
    hide UnitsOf;
    if cells != [] {
      var c, rest := cells[0], cells[1..];
      assert c in cells && cells == [c] + rest;
      UnitsCovered(rest, id);
      UnitAtOf(c, id);
      LastUnit(c);
      HasIdConcat(UnitsOf(c), Units(rest), id);
      assert Transactions.SomeCovers(cells, id) <==> Covers(c, id) || Transactions.SomeCovers(rest, id);
    }
  }

  lemma DistinctParts(a: seq<Unit>, b: seq<Unit>, id: Id)
    requires DistinctUnits(a + b)
    ensures DistinctUnits(b) && !(HasId(a, id) && HasId(b, id))
  {
    forall i, j | 0 <= i < j < |b| ensures b[i].id != b[j].id {
      assert (a + b)[|a| + i] == b[i] && (a + b)[|a| + j] == b[j];
    }
    forall i, j | 0 <= i < |a| && 0 <= j < |b| ensures a[i].id != b[j].id {
      assert (a + b)[i] == a[i] && (a + b)[|a| + j] == b[j];
    }
  }

  lemma {:induction false} DistinctApart(cells: seq<Cell>, i: nat, j: nat)
    requires TextCells(cells) && DistinctUnits(Units(cells)) && i < j < |cells|
    ensures NoOverlap(cells[i], cells[j])
  {
    hide UnitsOf;
    var c, rest := cells[0], cells[1..];
    assert c in cells && cells == [c] + rest && cells[i] in cells && cells[j] in cells;
    DistinctParts(UnitsOf(c), Units(rest), c.id);
    if i > 0 {
      DistinctApart(rest, i - 1, j - 1);
    } else {
      var d := rest[j - 1];
      var id := if c.id.clock >= d.id.clock then c.id else d.id;
      UnitAtOf(c, id);
      UnitsCovered(rest, id);
      DistinctParts(UnitsOf(c), Units(rest), id);
      if Covers(d, id) { assert Transactions.SomeCovers(rest, id); }
    }
  }

  lemma DistinctSlice(units: seq<Unit>, i: nat, j: nat)
    requires DistinctUnits(units) && i <= j <= |units|
    ensures DistinctUnits(units[i..j])
  {
  }

  /**
   * The deletion record is exact. If the recorded items are strings with the removed characters, as
   * `Texts.Delete` leaves them, their delete ranges cover the ID of each removed character and no
   * other, have min(length, what is visible from the index on) clocks in all, and are disjoint as
   * far as the visible characters have different IDs.
   */
  lemma {:induction false} RecordIsExact(cells: seq<Cell>, live: seq<Unit>, index: nat, length: nat)
    requires TextCells(cells) && Units(cells) == live[Min(index, |live|)..Min(index + length, |live|)]
    ensures var i, j := Min(index, |live|), Min(index + length, |live|);
            && (forall id :: InDeleteSet(Transactions.DeletedSet(cells), id) <==> HasId(live[i..j], id))
            && Total(cells) == Min(length, |live| - i)
            && (DistinctUnits(live) ==> forall a, b :: 0 <= a < b < |cells| ==> NoOverlap(cells[a], cells[b]))
  {
    hide UnitsOf, Units, Total, TextCells, DistinctUnits, HasId, NoOverlap, InDeleteSet, Transactions.DeletedSet, Transactions.SomeCovers;
    var i, j := Min(index, |live|), Min(index + length, |live|);
    UnitsCovered(cells, Id(0, 0));
    forall id ensures InDeleteSet(Transactions.DeletedSet(cells), id) <==> HasId(live[i..j], id) {
      UnitsCovered(cells, id);
      Transactions.DeletedSetIs(cells, id);
    }
    if DistinctUnits(live) {
      DistinctSlice(live, i, j);
      forall a, b | 0 <= a < b < |cells| ensures NoOverlap(cells[a], cells[b]) {
        DistinctApart(cells, a, b);
      }
    }
  }

  lemma RecordedCells(items: seq<Item>, before: seq<Cell>, gone: seq<Unit>)
    requires RecordedSince(items, 0, before, gone)
    ensures TextCells(Says(items)) && Units(Says(items)) == gone
  {
    assert items[0..] == items;
  }

  /**
   * A transaction that deletes a range of a text: the visible characters of the range are gone, and
   * the delete set that is sent covers their IDs and no others.
   */
  method DeleteInTransaction(t: SharedType, store: StructStore, index: nat, length: nat, ghost nodes: seq<Item>, ghost frags: seq<Frag>)
    returns (ds: DeleteSet, ghost longer: seq<Item>, ghost parts: seq<Frag>, ghost record: seq<Cell>)
    requires IsText(t, nodes, frags)
    modifies store`clients, nodes`content, nodes`length, nodes`left, nodes`right, nodes`deleted
    ensures IsText(t, longer, parts) && ds == Transactions.DeletedSet(record)
    ensures var live := Live(frags);
            var i, j := Min(index, |live|), Min(index + length, |live|);
            && Live(parts) == live[..i] + live[j..] && (forall id :: InDeleteSet(ds, id) <==> HasId(live[i..j], id))
            && Total(record) == Min(length, |live| - i)
            && (DistinctUnits(live) ==> forall a, b :: 0 <= a < b < |record| ==> NoOverlap(record[a], record[b]))
  {
    hide Live, IsText, Units, Transactions.DeletedSet, NoOverlap, DistinctUnits, RecordedSince, Says, Total, InDeleteSet, Edited;
    hide Inner, AfterEdit;
    var tx := new Transaction();
    assert IsText(t, nodes, frags);
    ghost var added, live := [], Live(frags);
    longer, parts, added := Texts.Delete(t, store, tx, index, length, nodes, frags);
    RecordedCells(tx.pendingDeletes, [], live[Min(index, |live|)..Min(index + length, |live|)]);
    record := Says(tx.pendingDeletes);
    RecordIsExact(record, live, index, length);
    ds := Transactions.EncodeDeletes(tx.pendingDeletes);
  }

  // Insertions. An edit that splits an item of the transaction takes the rest of it out of the update.

  /** The strings of items, one after the other. */
  function TextOf(cells: seq<Cell>): seq<Rune> {
    if cells == [] then [] else StringOf(cells[0]) + TextOf(cells[1..])
  }

  function StringOf(c: Cell): seq<Rune> {
    if c.content.Str? then c.content.text else []
  }

  /** What is typed. */
  function Typing(e: Edit): seq<Rune> {
    if e.Ins? then e.text else []
  }

  function TypingAll(edits: seq<Edit>): seq<Rune> {
    if edits == [] then [] else TypingAll(edits[..|edits| - 1]) + Typing(edits[|edits| - 1])
  }

  /** A text when an edit begins: its nodes, what they say, and the items of the transaction so far. */
  datatype Moment = Moment(nodes: seq<Item>, frags: seq<Frag>, pending: seq<Item>)

  /** The edit falls strictly inside a visible item of the transaction. */
  ghost predicate FallsInside(m: Moment, e: Edit) {
    |m.nodes| == |m.frags| && exists k :: 0 <= k < |m.nodes| && m.nodes[k] in m.pending && Shortens(m.frags, k, e)
  }

  /** An index is strictly inside a visible item of the transaction if the character there continues one. */
  lemma WithinMeans(nodes: seq<Item>, frags: seq<Frag>, own: seq<Item>, index: nat)
    requires |nodes| == |frags| && TextFrags(frags)
    ensures var m := Inner(nodes, frags, own);
            (exists k :: 0 <= k < |nodes| && nodes[k] in own && Within(frags, k, index)) <==> index < |m| && m[index]
  {
    hide Live, Inner, Shown;
    var m := Inner(nodes, frags, own);
    if k :| 0 <= k < |nodes| && nodes[k] in own && Within(frags, k, index) {
      LiveShown(frags, k);
      InnerIndex(nodes, frags, own, k, index - |Live(frags[..k])|);
    }
    if index < |m| && m[index] {
      assert frags[..|frags|] == frags;
      var k := Holder(frags, |frags|, index);
      LiveShown(frags, k);
      InnerIndex(nodes, frags, own, k, index - |Live(frags[..k])|);
      assert Within(frags, k, index);
    }
  }

  /** The item, among the first n, that shows the character at an index. */
  lemma {:induction false} Holder(frags: seq<Frag>, n: nat, index: nat) returns (k: nat)
    requires n <= |frags| && index < |Live(frags[..n])|
    ensures k < n && !frags[k].deleted && |Live(frags[..k])| <= index < |Live(frags[..k])| + |Shown(frags[k])|
  {
    hide Live;
    assert n > 0 by {
      EmptyLive();
      assert frags[..0] == [];
    }
    LiveAt(frags, n - 1);
    if |Live(frags[..n - 1])| <= index {
      k := n - 1;
    } else {
      k := Holder(frags, n - 1, index);
    }
  }

  lemma InsideMeans(nodes: seq<Item>, frags: seq<Frag>, own: seq<Item>, e: Edit)
    requires |nodes| == |frags| && TextFrags(frags)
    ensures FallsInside(Moment(nodes, frags, own), e) <==> Inside(Inner(nodes, frags, own), e)
  {
    hide Inner, Within;
    WithinMeans(nodes, frags, own, e.index);
    if e.Del? { WithinMeans(nodes, frags, own, e.index + e.length); }
  }

  lemma {:induction false} TextSnoc(cells: seq<Cell>, c: Cell)
    ensures TextOf(cells + [c]) == TextOf(cells) + StringOf(c)
  {
    hide StringOf;
    if cells == [] {
      assert cells + [c] == [c] && TextOf([c]) == StringOf(c) + TextOf([c][1..]);
    } else {
      TextSnoc(cells[1..], c);
      assert (cells + [c])[1..] == cells[1..] + [c];
    }
  }

  predicate NoLonger(now: seq<Cell>, before: seq<Cell>) {
    |now| == |before| && forall i :: 0 <= i < |now| ==> |StringOf(now[i])| <= |StringOf(before[i])|
  }

  lemma {:induction false} TextShrinks(now: seq<Cell>, before: seq<Cell>)
    requires NoLonger(now, before)
    ensures |TextOf(now)| <= |TextOf(before)|
    ensures (exists i :: 0 <= i < |now| && |StringOf(now[i])| < |StringOf(before[i])|) ==> |TextOf(now)| < |TextOf(before)|
  {
    if now != [] {
      TextShrinks(now[1..], before[1..]);
      if i :| 0 <= i < |now| && |StringOf(now[i])| < |StringOf(before[i])| {
        if i > 0 { assert |StringOf(now[1..][i - 1])| < |StringOf(before[1..][i - 1])|; }
      }
    }
  }

  lemma ShortenedText(frags: seq<Frag>, k: nat, e: Edit)
    requires k < |frags| && TextFrags(frags)
    ensures |StringOf(Shortened(frags, k, e))| <= |StringOf(frags[k].cell)|
    ensures Shortens(frags, k, e) ==> |StringOf(Shortened(frags, k, e))| < |StringOf(frags[k].cell)|
    ensures !Shortens(frags, k, e) ==> Shortened(frags, k, e) == frags[k].cell
  {
    if Shortens(frags, k, e) { ShorterText(frags, k, e); }
  }

  /** What the items of the transaction said before the edit. */
  ghost predicate Said(m: Moment, before: seq<Cell>) {
    && |before| == |m.pending| && |m.nodes| == |m.frags| && TextFrags(m.frags)
    && forall i, j :: 0 <= i < |m.pending| && 0 <= j < |m.nodes| && m.pending[i] == m.nodes[j] ==> before[i] == m.frags[j].cell
  }

  /** After an edit they say less if it fell inside one of them, and the same otherwise. */
  lemma PendingAfter(m: Moment, e: Edit, before: seq<Cell>)
    requires Said(m, before) && Edited(m.nodes, m.frags, e)
    requires forall i :: 0 <= i < |m.pending| && m.pending[i] !in m.nodes ==> m.pending[i].AsCell() == before[i]
    ensures FallsInside(m, e) ==> |TextOf(Says(m.pending))| < |TextOf(before)|
    ensures !FallsInside(m, e) ==> Says(m.pending) == before
  {
    hide Shortens, Shortened;
    var now := Says(m.pending);
    forall i | 0 <= i < |now|
      ensures |StringOf(now[i])| <= |StringOf(before[i])| && (!FallsInside(m, e) ==> now[i] == before[i])
    {
      if m.pending[i] in m.nodes {
        var j :| 0 <= j < |m.nodes| && m.nodes[j] == m.pending[i];
        ShortenedText(m.frags, j, e);
      }
    }
    TextShrinks(now, before);
    if FallsInside(m, e) {
      var j :| 0 <= j < |m.nodes| && m.nodes[j] in m.pending && Shortens(m.frags, j, e);
      var i :| 0 <= i < |m.pending| && m.pending[i] == m.nodes[j];
      ShortenedText(m.frags, j, e);
      assert |StringOf(now[i])| < |StringOf(before[i])|;
    }
  }

  lemma SaidNow(t: SharedType, nodes: seq<Item>, frags: seq<Frag>, pending: seq<Item>)
    requires IsText(t, nodes, frags)
    ensures Said(Moment(nodes, frags, pending), Says(pending))
  {
    forall i, j | 0 <= i < |pending| && 0 <= j < |nodes| && pending[i] == nodes[j] ensures Says(pending)[i] == frags[j].cell {
      assert Frag(nodes[j].AsCell(), nodes[j].deleted) == frags[j];
    }
  }

  /** The items of the transaction after an edit: as before, and the new one if something was typed. */
  ghost predicate Grown(pending: seq<Item>, before: seq<Item>, e: Edit)
    reads pending`content, pending`length, pending`parent
  {
    if Typing(e) == [] then pending == before
    else |pending| == |before| + 1 && pending[..|before|] == before && StringOf(pending[|before|].AsCell()) == Typing(e)
  }

  /** What the strings of the transaction are after an edit. */
  lemma GrownText(pending: seq<Item>, m: Moment, e: Edit, before: seq<Cell>)
    requires Grown(pending, m.pending, e) && |before| == |m.pending|
    requires FallsInside(m, e) ==> |TextOf(Says(m.pending))| < |TextOf(before)|
    requires !FallsInside(m, e) ==> Says(m.pending) == before
    ensures FallsInside(m, e) ==> |TextOf(Says(pending))| < |TextOf(before)| + |Typing(e)|
    ensures !FallsInside(m, e) ==> TextOf(Says(pending)) == TextOf(before) + Typing(e)
  {
    hide FallsInside, Says;
    if Typing(e) != [] {
      var item := pending[|m.pending|];
      assert pending == m.pending + [item];
      SaysMore(m.pending, item);
      TextSnoc(Says(m.pending), item.AsCell());
    }
  }

  /**
   * One edit of a text in a transaction: for a reader the plain edit; the strings of the transaction
   * become those that there were and what is typed, unless the edit falls inside one of its items.
   * Which characters continue an item of the transaction is afterwards what the edit makes of it.
   */
  method EditOne(t: SharedType, store: StructStore, clientID: nat, tx: Transaction, e: Edit, ghost nodes: seq<Item>, ghost frags: seq<Frag>)
    returns (ghost longer: seq<Item>, ghost parts: seq<Frag>, ghost added: seq<Item>)
    requires IsText(t, nodes, frags) && AllDeleted(tx.pendingDeletes)
    modifies t`start, store`clients, tx`pendingItems, tx`pendingDeletes
    modifies nodes`content, nodes`length, nodes`left, nodes`right, nodes`deleted
    ensures IsText(t, longer, parts) && AllDeleted(tx.pendingDeletes)
    ensures AllChars(Live(frags)) && AllChars(Live(parts)) && Runes(Live(parts)) == Plain(Runes(Live(frags)), e)
    ensures Among(longer, nodes, added) && forall n :: n in added ==> fresh(n)
    ensures Grown(tx.pendingItems, old(tx.pendingItems), e)
    ensures |nodes| == |frags| && |longer| == |parts|
    ensures var seams, before := Inner(nodes, frags, old(tx.pendingItems)), TextOf(old(Says(tx.pendingItems)));
            && (Inside(seams, e) ==> |TextOf(Says(tx.pendingItems))| < |before| + |Typing(e)|)
            && (!Inside(seams, e) ==> TextOf(Says(tx.pendingItems)) == before + Typing(e))
            && Inner(longer, parts, tx.pendingItems) == AfterEdit(seams, e)
  {
    hide Live, UnitsOf, IsText, ShowsFrags, TextFrags, Plain, Runes, AllChars, Added, RecordedSince, Says, Edited, Said, FallsInside;
    hide Inner, Inside, AfterEdit;
    ghost var m, before := Moment(nodes, frags, tx.pendingItems), Says(tx.pendingItems);
    ghost var live := Live(frags);
    ReadText(t, nodes, frags);
    LiveChars(frags);
    SaidNow(t, nodes, frags, tx.pendingItems);
    InsideMeans(nodes, frags, tx.pendingItems, e);
    assert forall i :: 0 <= i < |m.pending| ==> m.pending[i].AsCell() == before[i] by { SaysEach(m.pending); }
    match e {
      case Ins(index, s) =>
        ghost var c := Typed(t.name, clientID, store.GetState(clientID), live, Min(index, |live|), s);
        longer, parts, added := Texts.Insert(t, store, clientID, tx, index, s, nodes, frags);
        InsertIsPlain(live, index, s, c, Live(parts));
      case Del(index, length) =>
        longer, parts, added := Texts.Delete(t, store, tx, index, length, nodes, frags);
        DeleteIsPlain(live, index, length, Live(parts));
    }
    PendingAfter(m, e, before);
    GrownText(tx.pendingItems, m, e, before);
  }

  lemma SaysEach(items: seq<Item>)
    ensures |Says(items)| == |items| && forall i :: 0 <= i < |items| ==> Says(items)[i] == items[i].AsCell()
  {
  }

  lemma {:induction false} PlainSnoc(text: seq<Rune>, edits: seq<Edit>, e: Edit)
    ensures PlainRun(text, edits + [e]) == Plain(PlainRun(text, edits), e)
    decreases |edits|
  {
    hide Plain;
    if edits == [] {
      assert edits + [e] == [e] && [e][1..] == [];
    } else {
      PlainSnoc(Plain(text, edits[0]), edits[1..], e);
      assert (edits + [e])[1..] == edits[1..] + [e];
    }
  }

  /** What the strings of the transaction are after some edits. */
  predicate SoFar(seams: seq<bool>, edits: seq<Edit>, now: seq<Rune>, before: seq<Rune>) {
    if NoneInside(seams, edits) then now == before + TypingAll(edits) else |now| < |before| + |TypingAll(edits)|
  }

  lemma SoFarMore(seams: seq<bool>, edits: seq<Edit>, n: nat, was: seq<Rune>, now: seq<Rune>, before: seq<Rune>)
    requires n < |edits| && SoFar(seams, edits[..n], was, before)
    requires Inside(AfterEdits(seams, edits[..n]), edits[n]) ==> |now| < |was| + |Typing(edits[n])|
    requires !Inside(AfterEdits(seams, edits[..n]), edits[n]) ==> now == was + Typing(edits[n])
    ensures SoFar(seams, edits[..n + 1], now, before) && AfterEdits(seams, edits[..n + 1]) == AfterEdit(AfterEdits(seams, edits[..n]), edits[n])
  {
    hide Inside, Typing, AfterEdit;
    TypingMore(edits, n);
    assert edits[..n + 1][..n] == edits[..n];
  }

  lemma TypingMore(edits: seq<Edit>, n: nat)
    requires n < |edits|
    ensures TypingAll(edits[..n + 1]) == TypingAll(edits[..n]) + Typing(edits[n])
  {
    assert edits[..n + 1][..n] == edits[..n];
  }

  lemma PlainMore(start: seq<Rune>, edits: seq<Edit>, n: nat)
    requires n < |edits|
    ensures PlainRun(start, edits[..n + 1]) == Plain(PlainRun(start, edits[..n]), edits[n])
  {
    hide Plain;
    PlainSnoc(start, edits[..n], edits[n]);
    assert edits[..n] + [edits[n]] == edits[..n + 1];
  }

  lemma RunStarts(seams: seq<bool>, edits: seq<Edit>, before: seq<Rune>, start: seq<Rune>)
    ensures SoFar(seams, edits[..0], before, before) && AfterEdits(seams, edits[..0]) == seams && PlainRun(start, edits[..0]) == start
  {
    assert edits[..0] == [] && before + [] == before;
  }

  lemma RunEnds(seams: seq<bool>, edits: seq<Edit>, now: seq<Rune>, before: seq<Rune>)
    requires SoFar(seams, edits[..|edits|], now, before)
    ensures edits[..|edits|] == edits && (NoneInside(seams, edits) <==> now == before + TypingAll(edits))
  {
    assert edits[..|edits|] == edits;
  }

  /**
   * The local edits of a text, in order, in one transaction; then the text is read. For a reader they
   * are the plain edits of a string. The strings of the transaction's items, which are what is sent,
   * are all that was typed if and only if no edit falls strictly inside a visible item of the
   * transaction. Whether one does can be told before, from the edits and from which of the visible
   * characters continue such an item at the start.
   */
  method EditAll(t: SharedType, store: StructStore, clientID: nat, tx: Transaction, edits: seq<Edit>, ghost nodes: seq<Item>, ghost frags: seq<Frag>)
    returns (text: seq<Rune>)
    requires IsText(t, nodes, frags) && AllDeleted(tx.pendingDeletes)
    modifies t`start, store`clients, tx`pendingItems, tx`pendingDeletes
    modifies nodes`content, nodes`length, nodes`left, nodes`right, nodes`deleted
    ensures AllChars(Live(frags)) && text == PlainRun(Runes(Live(frags)), edits)
    ensures |nodes| == |frags|
    ensures NoneInside(Inner(nodes, frags, old(tx.pendingItems)), edits) <==>
            TextOf(Says(tx.pendingItems)) == TextOf(old(Says(tx.pendingItems))) + TypingAll(edits)
  {
    hide Live, IsText, TextFrags, Plain, Runes, AllChars, Says, SoFar, TypingAll, PlainRun, TextOf, Grown, Inner, Inside, AfterEdit, AfterEdits, NoneInside;
    ReadText(t, nodes, frags);
    LiveChars(frags);
    ghost var longer, parts, added: seq<Item>, before := nodes, frags, [], TextOf(Says(tx.pendingItems));
    ghost var seams, start := Inner(nodes, frags, tx.pendingItems), Runes(Live(frags));
    RunStarts(seams, edits, before, start);
    for i := 0 to |edits|
      invariant IsText(t, longer, parts) && AllDeleted(tx.pendingDeletes) && |longer| == |parts|
      invariant Among(longer, nodes, added) && forall n :: n in added ==> fresh(n)
      invariant AllChars(Live(parts)) && Runes(Live(parts)) == PlainRun(start, edits[..i])
      invariant Inner(longer, parts, tx.pendingItems) == AfterEdits(seams, edits[..i])
      invariant SoFar(seams, edits[..i], TextOf(Says(tx.pendingItems)), before)
    {
      ghost var more, was, now := [], longer, TextOf(Says(tx.pendingItems));
      AmongAt(longer, nodes, added);
      longer, parts, more := EditOne(t, store, clientID, tx, edits[i], longer, parts);
      AmongOnward(longer, was, nodes, added, more, 0);
      added := added + more;
      SoFarMore(seams, edits, i, now, TextOf(Says(tx.pendingItems)), before);
      PlainMore(start, edits, i);
    }
    RunEnds(seams, edits, TextOf(Says(tx.pendingItems)), before);
    text := String(t, longer, parts);
  }

  /** The next clock after an item was added to the store. */
  lemma StateAfterAdded(store: StructStore, clients: map<nat, seq<Item>>, added: seq<Item>)
    requires added != [] && store.clients == Added(clients, added)
    ensures var item := added[|added| - 1]; store.GetState(item.id.client) == item.id.clock + item.length
  {
    hide Added;
    var front, item := added[..|added| - 1], added[|added| - 1];
    assert added == front + [item];
    AddedAll(clients, front, [item]);
    AddedOne(Added(clients, front), item);
  }

  /** A visible item that is all there is to see starts at 0, so every index inside of it is strictly inside. */
  lemma WholeText(frags: seq<Frag>, k: nat, index: nat)
    requires TextFrags(frags) && k < |frags| && !frags[k].deleted && |Live(frags)| == frags[k].cell.len && 0 < index < frags[k].cell.len
    ensures Within(frags, k, index) && |Live(frags[..k])| == 0
  {
    hide Live;
    assert frags[k] in frags;
    LiveShown(frags, k);
    LiveParts(frags, k);
    LiveAt(frags, k);
  }

  /** The first insertion into an empty text. */
  method TypeFirst(name: Name, clientID: nat, s: seq<Rune>)
    returns (t: SharedType, store: StructStore, tx: Transaction, ghost item: Item, ghost nodes: seq<Item>, ghost frags: seq<Frag>, ghost k: nat)
    requires s != []
    ensures fresh(t) && fresh(store) && fresh(tx) && t.name == name && IsText(t, nodes, frags) && (forall i :: 0 <= i < |nodes| ==> fresh(nodes[i]))
    ensures k < |nodes| == |frags| && nodes[k] == item && frags[k] == Frag(Typed(name, clientID, 0, [], 0, s), false)
    ensures Live(frags) == UnitsOf(frags[k].cell) && TextFrags(frags)
    ensures tx.pendingItems == [item] && tx.pendingDeletes == [] && store.GetState(clientID) == |s|
  {
    hide IsText, Live, UnitsOf, Added, Edited, RecordedSince, Says, Among;
    hide Inner, AfterEdit;
    t := new SharedType(name, TextType);
    store := new StructStore();
    tx := new Transaction();
    EmptyText(t);
    assert Live([]) == [] by { EmptyLive(); }
    ghost var first;
    nodes, frags, first := Texts.Insert(t, store, clientID, tx, 0, s, [], []);
    item := first[|first| - 1];
    StateAfterAdded(store, map[], first);
    k :| 0 <= k < |nodes| && nodes[k] == item;
    ReadNode(t, nodes, frags, k);
    AmongAt(nodes, [], first);
    assert [] + UnitsOf(frags[k].cell) + [] == UnitsOf(frags[k].cell);
  }

  /**
   * For example: "abc" is typed into an empty text, and in the same transaction x after the a. The
   * text reads "axbc", but the items of the transaction say only "a" and "x".
   */
  method SplitOwnInsertion(name: Name, clientID: nat, a: Rune, b: Rune, c: Rune, x: Rune) returns (tx: Transaction, text: seq<Rune>)
    ensures text == [a, x, b, c] && Says(tx.pendingItems) == Split(name, clientID, a, x)
  {
    hide IsText, Live, UnitsOf, Added, Edited, RecordedSince, Says, Among, TextFrags, Within, Clip;
    hide Inner, AfterEdit;
    var t, store; ghost var item, nodes, frags, k;
    t, store, tx, item, nodes, frags, k := TypeFirst(name, clientID, [a, b, c]);
    ghost var was, live := frags[k].cell, Live(frags);
    ThreeUnits(was, a, b, c);
    WholeText(frags, k, 1);
    ghost var longer, parts, second;
    longer, parts, second := Texts.Insert(t, store, clientID, tx, 1, [x], nodes, frags);
    EditedAt(nodes, frags, Ins(1, [x]), k);
    ClipOne(was, a, b, c);
    text := String(t, longer, parts);
    FourRunes(live, was, a, b, c, x, Typed(name, clientID, 3, live, 1, [x]), Live(parts));
    TwoSaid(tx.pendingItems);
  }

  function Split(name: Name, clientID: nat, a: Rune, x: Rune): seq<Cell> {
    [Cell(Id(clientID, 0), 1, None, None, Some(name), None, Str([a])),
     Cell(Id(clientID, 3), 1, Some(Id(clientID, 0)), None, Some(name), None, Str([x]))]
  }

  lemma EmptyText(t: SharedType)
    requires t.start == null
    ensures IsText(t, [], [])
  {
  }

  lemma EmptyLive()
    ensures Live([]) == []
  {
  }

  lemma EditedAt(nodes: seq<Item>, frags: seq<Frag>, e: Edit, k: nat)
    requires Edited(nodes, frags, e) && k < |nodes|
    ensures |nodes| == |frags| && nodes[k].AsCell() == Shortened(frags, k, e)
  {
  }

  lemma ThreeUnits(was: Cell, a: Rune, b: Rune, c: Rune)
    requires was.content == Str([a, b, c])
    ensures UnitsOf(was) == [Char(was.id, a), Char(Id(was.id.client, was.id.clock + 1), b), Char(Id(was.id.client, was.id.clock + 2), c)]
  {
  }

  lemma FourRunes(live: seq<Unit>, was: Cell, a: Rune, b: Rune, c: Rune, x: Rune, y: Cell, after: seq<Unit>)
    requires was.content == Str([a, b, c]) && live == UnitsOf(was) && y.content == Str([x]) && after == live[..1] + UnitsOf(y) + live[1..]
    ensures AllChars(after) && Runes(after) == [a, x, b, c]
  {
    ThreeUnits(was, a, b, c);
    assert UnitsOf(y) == [Char(y.id, x)];
  }

  lemma ClipOne(was: Cell, a: Rune, b: Rune, c: Rune)
    requires was.content == Str([a, b, c])
    ensures Clip(was, 1) == was.(len := 1, content := Str([a]))
  {
    assert [a, b, c][..1] == [a];
  }

  lemma TwoSaid(items: seq<Item>)
    requires |items| == 2
    ensures Says(items) == [items[0].AsCell(), items[1].AsCell()]
  {
  }

  /** That the second edit falls inside what the first one typed can be told from the two edits alone. */
  lemma InsideOwnInsertion(a: Rune, b: Rune, c: Rune, x: Rune)
    ensures !NoneInside([], [Ins(0, [a, b, c]), Ins(1, [x])])
  {
    var one, two := [Ins(0, [a, b, c])], [Ins(0, [a, b, c]), Ins(1, [x])];
    assert two[..1] == one && one[..0] == [];
    assert AfterEdit([], one[0]) == [false, true, true];
    assert AfterEdits([], one) == AfterEdit(AfterEdits([], one[..0]), one[0]);
  }

  lemma Flat1(r: Rune)
    ensures Encoding.Flat([r]) == r
  {
    assert Encoding.Flat([r]) == r + Encoding.Flat([r][1..]) && [r][1..] == [];
  }

  /** And another document reads even these two wrongly: clocks are counted, so x comes back at the clock of the b. */
  lemma SplitReadBack(name: Name, me: nat, a: Rune, x: Rune)
    requires me < TWO64 && |name| < TWO64 && |a| < TWO64 && |x| < TWO64
    ensures Encoding.AllSendable(Split(name, me, a, x))
    ensures var es := Encoding.Structs(Split(name, me, a, x));
            && Updates.AllFit(es) && Updates.Print(Updates.UpdateV1(es, map[])).Ok?
            && es[1].clock == 3
            && Updates.Parse(Updates.Print(Updates.UpdateV1(es, map[])).value) == Ok(Updates.UpdateV1([es[0], es[1].(clock := 1)], map[]))
  {
    hide Updates.Print, Updates.Parse, Updates.AllFit, Updates.AllWellFormed, Encoding.Flat;
    var cells := Split(name, me, a, x);
    Flat1(a);
    Flat1(x);
    assert Encoding.AllSendable(cells);
    var es := Encoding.Structs(cells);
    Encoding.StructsFit(cells);
    Updates.UpdateRoundTrip(Updates.UpdateV1(es, map[]));
    OneClientBack(es, me);
    TwoBack(es);
    assert Updates.NonEmpty(map[]) == map[];
  }

  lemma OneClientBack(es: seq<E.EncodedItem>, me: nat)
    requires es != [] && forall i :: 0 <= i < |es| ==> es[i].client == me
    ensures Updates.BackAll(es, StateVectors.SortDesc(Updates.ClientsOf(es))) == Updates.BackGroup(es, es[0].clock)
  {
    hide Updates.BackGroup;
    Encoding.OneClient(es, me);
    Encoding.TheClient(es, me);
    Encoding.SortOne(me);
    assert [me][1..] == [] && Updates.BackAll(es, []) == [];
    assert Updates.BackAll(es, [me]) == Updates.BackGroup(es, es[0].clock) + Updates.BackAll(es, [me][1..]);
  }

  lemma TwoBack(es: seq<E.EncodedItem>)
    requires |es| == 2 && es[0].clock == 0 && es[0].length == 1 && es[0].data.Str? && es[1].data.Str?
    ensures Updates.BackGroup(es, 0) == [es[0], es[1].(clock := 1)]
  {
    assert es == [es[0]] + [es[1]] && es[1..] == [es[1]] && es[1..][1..] == [];
    assert Updates.BackGroup(es[1..], 1) == [E.BackItem(es[1], 1)] + Updates.BackGroup([], 2);
  }
}
