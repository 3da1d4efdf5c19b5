/** A text list on values: what its items say and which are deleted, and the characters that are visible. */
module Fragments {
  import opened Values
  import opened Ids
  import opened Cells
  import opened Integration
  import opened Deletion

  /** One item of a list: what it says and its `Deleted` flag. */
  datatype Frag = Frag(cell: Cell, deleted: bool)

  function Shown(f: Frag): seq<Unit> {
    if f.deleted then [] else UnitsOf(f.cell)
  }

  /** The visible characters of a list, each with its ID. */
  function Live(frags: seq<Frag>): seq<Unit> {
    if frags == [] then [] else Shown(frags[0]) + Live(frags[1..])
  }

  /** The visible items of a text are strings, as long as they say. */
  predicate TextFrags(frags: seq<Frag>) {
    forall f :: f in frags && !f.deleted ==> f.cell.content.Str? && Sized(f.cell)
  }

  lemma {:induction false} LiveConcat(a: seq<Frag>, b: seq<Frag>)
    ensures Live(a + b) == Live(a) + Live(b)
  {
    hide Live, Shown;
    if a == [] {
      assert a + b == b;
      LiveNothing();
      assert [] + Live(b) == Live(b);
    } else {
      LiveConcat(a[1..], b);
      LiveFirst(a);
      LiveFirst(a + b);
      assert (a + b)[0] == a[0] && (a + b)[1..] == a[1..] + b;
      assert Shown(a[0]) + (Live(a[1..]) + Live(b)) == Shown(a[0]) + Live(a[1..]) + Live(b);
    }
  }

  lemma LiveNothing()
    ensures Live([]) == []
  {
  }

  lemma LiveFirst(a: seq<Frag>)
    requires a != []
    ensures Live(a) == Shown(a[0]) + Live(a[1..])
  {
  }

  lemma LiveOne(f: Frag)
    ensures Live([f]) == Shown(f)
  {
  }

  lemma LiveParts(frags: seq<Frag>, k: nat)
    requires k <= |frags|
    ensures Live(frags) == Live(frags[..k]) + Live(frags[k..])
  {
    hide Live;
    assert frags == frags[..k] + frags[k..];
    LiveConcat(frags[..k], frags[k..]);
  }

  /** The visible characters before and after one item. */
  lemma LiveAt(frags: seq<Frag>, k: nat)
    requires k < |frags|
    ensures Live(frags[k..]) == Shown(frags[k]) + Live(frags[k + 1..])
    ensures Live(frags[..k + 1]) == Live(frags[..k]) + Shown(frags[k])
  {
    hide Shown, Live;
    var one := [frags[k]];
    LiveOne(frags[k]);
    assert frags[..k + 1] == frags[..k] + one && frags[k..] == one + frags[k + 1..];
    LiveConcat(frags[..k], one);
    LiveConcat(one, frags[k + 1..]);
  }

  lemma {:induction false} LiveNone(frags: seq<Frag>)
    requires forall f :: f in frags ==> f.deleted
    ensures Live(frags) == []
  {
    if frags != [] { LiveNone(frags[1..]); }
  }

  /** The clock inside an item, `offset` characters after its start. */
  function Cut(c: Cell, offset: nat): Id {
    Id(c.id.client, c.id.clock + offset)
  }

  predicate MayCut(f: Frag, offset: nat) {
    !f.deleted && f.cell.content.Str? && Sized(f.cell) && 0 < offset < f.cell.len
  }

  /** splitItemAt: the item keeps its first characters, a new item after it has the others. */
  function SplitFrag(frags: seq<Frag>, k: nat, offset: nat): seq<Frag>
    requires k < |frags| && MayCut(frags[k], offset)
  {
    var c := frags[k].cell;
    InsertAt(frags[k := Frag(LeftPart(c, Cut(c, offset)), false)], k + 1, Frag(RightPart(c, Cut(c, offset)), false))
  }

  function MarkFrag(frags: seq<Frag>, k: nat): seq<Frag>
    requires k < |frags|
  {
    frags[k := frags[k].(deleted := true)]
  }

  lemma CutUnits(c: Cell, offset: nat)
    requires MayCut(Frag(c, false), offset)
    ensures var l, r := LeftPart(c, Cut(c, offset)), RightPart(c, Cut(c, offset));
            && UnitsOf(l) == UnitsOf(c)[..offset] && UnitsOf(r) == UnitsOf(c)[offset..]
            && l.content.Str? && Sized(l) && r.content.Str? && Sized(r) && l.len == offset && r.len == c.len - offset
  {
    var l, r := LeftPart(c, Cut(c, offset)), RightPart(c, Cut(c, offset));
    assert UnitsOf(l) == UnitsOf(c)[..offset];
    assert UnitsOf(r) == UnitsOf(c)[offset..];
  }

  /** A split at k divides the characters of item k between items k and k + 1. */
  lemma SplitParts(frags: seq<Frag>, k: nat, offset: nat)
    requires k < |frags| && MayCut(frags[k], offset) && TextFrags(frags)
    ensures var t, u := SplitFrag(frags, k, offset), UnitsOf(frags[k].cell);
            && |t| == |frags| + 1 && TextFrags(t) && !t[k].deleted && !t[k + 1].deleted
            && t[..k] == frags[..k] && t[k + 2..] == frags[k + 1..] && t[k + 1].cell.len == frags[k].cell.len - offset
            && Shown(t[k]) == u[..offset] && Shown(t[k + 1]) == u[offset..]
            && LastId(t[k].cell) == Cut(frags[k].cell, offset - 1)
  {
    var c := frags[k].cell;
    CutUnits(c, offset);
  }

  /** The first visible item at or after k, or the end of the list. */
  function NextLive(frags: seq<Frag>, k: nat): (q: nat)
    requires k <= |frags|
    ensures k <= q <= |frags| && (q < |frags| ==> !frags[q].deleted)
    ensures forall i :: k <= i < q ==> frags[i].deleted
    decreases |frags| - k
  {
    if k == |frags| || !frags[k].deleted then k else NextLive(frags, k + 1)
  }

  /** One past the last visible item before k, or 0. */
  function LastLive(frags: seq<Frag>, k: nat): (p: nat)
    requires k <= |frags|
    ensures p <= k && (p > 0 ==> !frags[p - 1].deleted)
    ensures forall i :: p <= i < k ==> frags[i].deleted
  {
    if k == 0 || !frags[k - 1].deleted then k else LastLive(frags, k - 1)
  }

  /**
   * A place for an insertion: only deleted items between p and q, the first n visible
   * characters before p and the others from q on.
   */
  predicate Gap(frags: seq<Frag>, p: nat, q: nat, live: seq<Unit>, n: nat) {
    && p <= q <= |frags| && n <= |live| && TextFrags(frags)
    && Live(frags[..p]) == live[..n] && Live(frags[q..]) == live[n..]
    && (p > 0 ==> !frags[p - 1].deleted) && (p == 0 ==> n == 0) && (q < |frags| ==> !frags[q].deleted)
  }

  /** Right after the visible characters of the first items, and before the next visible item. */
  lemma GapAt(frags: seq<Frag>, p: nat, q: nat)
    requires TextFrags(frags) && p <= q <= |frags| && forall i :: p <= i < q ==> frags[i].deleted
    requires (p > 0 ==> !frags[p - 1].deleted) && (q < |frags| ==> !frags[q].deleted)
    ensures Gap(frags, p, q, Live(frags), |Live(frags[..p])|)
  {
    hide Live;
    LiveParts(frags, p);
    LiveParts(frags[p..], q - p);
    LiveNone(frags[p..][..q - p]);
    assert frags[p..][q - p..] == frags[q..];
    assert p == 0 ==> Live(frags[..p]) == [] by { LiveNone([]); }
  }

  /** Deleted items show nothing, so the end of the list is after its last visible item. */
  lemma GapEnd(frags: seq<Frag>)
    requires TextFrags(frags)
    ensures Gap(frags, LastLive(frags, |frags|), |frags|, Live(frags), |Live(frags)|)
  {
    var p := LastLive(frags, |frags|);
    GapAt(frags, p, |frags|);
    LiveParts(frags, p);
    assert frags[p..][|frags| - p..] == [] && Live([]) == [];
  }

  /** Inside an item: between the parts of its split. */
  lemma GapInside(frags: seq<Frag>, k: nat, offset: nat)
    requires TextFrags(frags) && k < |frags| && MayCut(frags[k], offset)
    ensures |Live(frags[..k])| + offset <= |Live(frags)|
    ensures Gap(SplitFrag(frags, k, offset), k + 1, k + 1, Live(frags), |Live(frags[..k])| + offset)
  {
    hide Live, UnitsOf, SplitFrag;
    var t, u := SplitFrag(frags, k, offset), UnitsOf(frags[k].cell);
    SplitParts(frags, k, offset);
    LastUnit(frags[k].cell);
    LiveParts(frags, k);
    LiveAt(frags, k);
    LiveAt(t, k);
    LiveAt(t, k + 1);
    assert Live(t[..k + 1]) == Live(frags[..k]) + u[..offset];
    assert Live(t[k + 1..]) == u[offset..] + Live(frags[k + 1..]);
    assert Live(frags) == Live(frags[..k]) + u[..offset] + (u[offset..] + Live(frags[k + 1..]));
  }

  /** What an insertion makes of the list: the deleted items in the gap are gone from it. */
  function Insertion(frags: seq<Frag>, p: nat, q: nat, c: Cell): seq<Frag>
    requires p <= q <= |frags|
  {
    frags[..p] + [Frag(c, false)] + frags[q..]
  }

  lemma InsertionShows(frags: seq<Frag>, p: nat, q: nat, live: seq<Unit>, n: nat, c: Cell)
    requires Gap(frags, p, q, live, n) && c.content.Str? && Sized(c)
    ensures Live(Insertion(frags, p, q, c)) == live[..n] + UnitsOf(c) + live[n..]
    ensures TextFrags(Insertion(frags, p, q, c))
  {
    hide UnitsOf;
    LiveConcat(frags[..p] + [Frag(c, false)], frags[q..]);
    LiveConcat(frags[..p], [Frag(c, false)]);
    LiveOne(Frag(c, false));
  }

  /** The neighbours of an item are visible: no deleted item is left next to it. */
  predicate Tight(frags: seq<Frag>, i: nat)
    requires i < |frags|
  {
    (i > 0 ==> !frags[i - 1].deleted) && (i + 1 < |frags| ==> !frags[i + 1].deleted)
  }

  lemma InsertionTight(frags: seq<Frag>, p: nat, q: nat, live: seq<Unit>, n: nat, c: Cell)
    requires Gap(frags, p, q, live, n)
    ensures Tight(Insertion(frags, p, q, c), p)
  {
    hide Live, TextFrags;
    var longer := Insertion(frags, p, q, c);
    assert (p > 0 ==> longer[p - 1] == frags[p - 1]) && (q < |frags| ==> longer[p + 1] == frags[q]);
  }

  lemma LastUnit(c: Cell)
    requires c.content.Str? && Sized(c)
    ensures |UnitsOf(c)| == c.len && UnitsOf(c)[c.len - 1].id == LastId(c)
  {
  }

  /** The last visible item before a gap ends with the character before the insertion. */
  lemma GapOrigin(frags: seq<Frag>, p: nat, q: nat, live: seq<Unit>, n: nat)
    requires Gap(frags, p, q, live, n) && p > 0
    ensures n > 0 && live[n - 1].id == LastId(frags[p - 1].cell)
  {
    hide Live, UnitsOf;
    var f := frags[p - 1];
    LiveAt(frags, p - 1);
    assert f in frags;
    LastUnit(f.cell);
    assert live[..n][n - 1] == live[n - 1];
  }

  /** Delete up to `remaining` characters at the start of visible item k, which is split if it is longer. */
  function DeleteAt(frags: seq<Frag>, k: nat, remaining: nat): seq<Frag>
    requires k < |frags| && !frags[k].deleted && frags[k].cell.content.Str? && Sized(frags[k].cell) && remaining > 0
  {
    MarkFrag(if frags[k].cell.len > remaining then SplitFrag(frags, k, remaining) else frags, k)
  }

  lemma DeleteAtShows(frags: seq<Frag>, k: nat, remaining: nat)
    requires k < |frags| && !frags[k].deleted && TextFrags(frags) && remaining > 0
    ensures frags[k] in frags
    ensures var t, u, m := DeleteAt(frags, k, remaining), UnitsOf(frags[k].cell), Min(frags[k].cell.len, remaining);
            && |t| > k && t[..k] == frags[..k] && t[k].deleted && TextFrags(t) && |u| == frags[k].cell.len
            && UnitsOf(t[k].cell) == u[..m] && Live(t[k + 1..]) == u[m..] + Live(frags[k + 1..])
            && t[k].cell.content.Str? && Sized(t[k].cell)
  {
    hide UnitsOf, LeftPart, RightPart;
    assert frags[k] in frags;
    LastUnit(frags[k].cell);
    if frags[k].cell.len > remaining {
      SplitParts(frags, k, remaining);
      CutUnits(frags[k].cell, remaining);
      LiveAt(SplitFrag(frags, k, remaining), k + 1);
      assert DeleteAt(frags, k, remaining)[k + 1..] == SplitFrag(frags, k, remaining)[k + 1..];
    }
  }

  /**
   * Where Text.Delete is on its walk: at item k of the list as it is now, after `pos` of the
   * characters that were visible, with `remaining` to delete and `gone` deleted so far.
   */
  predicate Walk(live: seq<Unit>, index: nat, length: nat, frags: seq<Frag>, k: nat, pos: nat, remaining: nat, gone: seq<Unit>) {
    && k <= |frags| && TextFrags(frags)
    && if remaining == 0 then
         index + length <= |live| && Live(frags) == live[..index] + live[index + length..] && gone == live[index..index + length]
       else
         && pos <= |live| && Live(frags[..k]) == live[..Min(pos, index)] && Live(frags[k..]) == live[pos..]
         && remaining == length - (if pos <= index then 0 else pos - index)
         && gone == if pos <= index then [] else live[index..pos]
  }

  lemma WalkStarts(frags: seq<Frag>, index: nat, length: nat)
    requires TextFrags(frags) && length > 0
    ensures Walk(Live(frags), index, length, frags, 0, 0, length, [])
  {
  }

  lemma WalkBounds(live: seq<Unit>, index: nat, length: nat, frags: seq<Frag>, k: nat, pos: nat, remaining: nat, gone: seq<Unit>)
    requires Walk(live, index, length, frags, k, pos, remaining, gone) && remaining > 0
    ensures pos <= |live| && remaining == length - (if pos <= index then 0 else pos - index)
  {
  }

  lemma OneDeleted(f: Frag)
    requires f.deleted
    ensures Shown(f) == []
  {
  }

  /** A deleted item changes nothing for the walk. */
  lemma WalkPast(live: seq<Unit>, index: nat, length: nat, frags: seq<Frag>, k: nat, pos: nat, remaining: nat, gone: seq<Unit>)
    requires k < |frags| && frags[k].deleted
    ensures Walk(live, index, length, frags, k, pos, remaining, gone) <==> Walk(live, index, length, frags, k + 1, pos, remaining, gone)
  {
    hide Shown;
    assert Shown(frags[k]) == [] by { OneDeleted(frags[k]); }
    LiveAt(frags, k);
  }

  lemma WalkBefore(live: seq<Unit>, index: nat, length: nat, frags: seq<Frag>, k: nat, pos: nat, remaining: nat, gone: seq<Unit>)
    requires Walk(live, index, length, frags, k, pos, remaining, gone) && remaining > 0 && k < |frags| && !frags[k].deleted
    requires pos + frags[k].cell.len <= index
    ensures Walk(live, index, length, frags, k + 1, pos + frags[k].cell.len, remaining, gone)
  {
    hide UnitsOf;
    assert frags[k] in frags;
    LastUnit(frags[k].cell);
    LiveAt(frags, k);
    assert live[..pos] + live[pos..][..frags[k].cell.len] == live[..pos + frags[k].cell.len];
    assert live[pos..][frags[k].cell.len..] == live[pos + frags[k].cell.len..];
  }

  lemma TakeMore(live: seq<Unit>, index: nat, pos: nat, u: seq<Unit>, m: nat, rest: seq<Unit>)
    requires index <= pos <= |live| && live[pos..] == u + rest && m <= |u|
    ensures pos + |u| <= |live| && live[index..pos] + u[..m] == live[index..pos + m]
    ensures u[m..] + rest == live[pos + m..] && rest == live[pos + |u|..]
  {
    var tail := live[pos..];
    assert live == live[..pos] + tail;
    assert u == tail[..|u|] && rest == tail[|u|..];
    assert u[m..] + rest == tail[m..];
    assert u[..m] == tail[..m];
  }

  /** An item that starts in the range, or a right part that does after `before` characters of its item. */
  lemma WalkDelete(live: seq<Unit>, index: nat, length: nat, frags: seq<Frag>, k: nat, pos: nat, remaining: nat, gone: seq<Unit>)
    requires TextFrags(frags) && k < |frags| && !frags[k].deleted && index <= pos <= |live| && remaining > 0
    requires Live(frags[..k]) == live[..index] && Live(frags[k..]) == live[pos..]
    requires remaining == length - (pos - index) && gone == live[index..pos]
    ensures frags[k] in frags
    ensures var t, m := DeleteAt(frags, k, remaining), Min(frags[k].cell.len, remaining);
            k + 1 <= |t| && Walk(live, index, length, t, k + 1, pos + frags[k].cell.len, remaining - m, gone + UnitsOf(t[k].cell))
  {
    hide UnitsOf, DeleteAt, Live;
    var t, m, u := DeleteAt(frags, k, remaining), Min(frags[k].cell.len, remaining), UnitsOf(frags[k].cell);
    DeleteAtShows(frags, k, remaining);
    LiveAt(frags, k);
    LiveAt(t, k);
    TakeMore(live, index, pos, u, m, Live(frags[k + 1..]));
    assert Shown(t[k]) == [] by { OneDeleted(t[k]); }
    assert Live(t[..k + 1]) == live[..index];
    if m == remaining {
      LiveParts(t, k + 1);
    } else {
      assert m == |u| && u[m..] == [];
    }
  }

  /** An item that starts in the range. */
  lemma WalkWithin(live: seq<Unit>, index: nat, length: nat, frags: seq<Frag>, k: nat, pos: nat, remaining: nat, gone: seq<Unit>)
    requires Walk(live, index, length, frags, k, pos, remaining, gone) && remaining > 0 && k < |frags| && !frags[k].deleted
    requires index <= pos
    ensures frags[k] in frags
    ensures var t, m := DeleteAt(frags, k, remaining), Min(frags[k].cell.len, remaining);
            k + 1 <= |t| && Walk(live, index, length, t, k + 1, pos + frags[k].cell.len, remaining - m, gone + UnitsOf(t[k].cell))
  {
    hide DeleteAt, UnitsOf, Live;
    WalkDelete(live, index, length, frags, k, pos, remaining, gone);
  }

  /** After the split at the start of the range, the range begins at the right part. */
  lemma StraddleCut(live: seq<Unit>, index: nat, length: nat, frags: seq<Frag>, k: nat, pos: nat, remaining: nat, gone: seq<Unit>)
    requires Walk(live, index, length, frags, k, pos, remaining, gone) && remaining > 0 && k < |frags| && !frags[k].deleted
    requires pos < index < pos + frags[k].cell.len
    ensures frags[k] in frags && MayCut(frags[k], index - pos)
    ensures var split := SplitFrag(frags, k, index - pos);
            && TextFrags(split) && k + 1 < |split| && !split[k + 1].deleted && split[k + 1].cell.len == frags[k].cell.len - (index - pos)
            && Live(split[..k + 1]) == live[..index] && Live(split[k + 1..]) == live[index..]
    ensures index <= |live| && remaining == length && gone == []
  {
    hide UnitsOf, LeftPart, RightPart, Live, SplitFrag;
    assert frags[k] in frags;
    var split, u := SplitFrag(frags, k, index - pos), UnitsOf(frags[k].cell);
    SplitParts(frags, k, index - pos);
    LastUnit(frags[k].cell);
    LiveAt(frags, k);
    LiveAt(split, k);
    LiveAt(split, k + 1);
    TakeMore(live, 0, pos, u, index - pos, Live(frags[k + 1..]));
  }

  /** An item that reaches over the start of the range is split there, and its right part is deleted. */
  lemma WalkStraddle(live: seq<Unit>, index: nat, length: nat, frags: seq<Frag>, k: nat, pos: nat, remaining: nat, gone: seq<Unit>)
    requires Walk(live, index, length, frags, k, pos, remaining, gone) && remaining > 0 && k < |frags| && !frags[k].deleted
    requires pos < index < pos + frags[k].cell.len
    ensures frags[k] in frags
    ensures var split := SplitFrag(frags, k, index - pos);
            var right := split[k + 1].cell;
            var t, m := DeleteAt(split, k + 1, remaining), Min(right.len, remaining);
            k + 1 < |t| && t[k + 1].deleted &&
            Walk(live, index, length, t, k + 1, pos + frags[k].cell.len, remaining - m, gone + UnitsOf(t[k + 1].cell))
  {
    hide UnitsOf, DeleteAt, LeftPart, RightPart, Live, SplitFrag, Walk;
    StraddleCut(live, index, length, frags, k, pos, remaining, gone);
    var split := SplitFrag(frags, k, index - pos);
    assert live[index..index] == gone;
    WalkDelete(live, index, length, split, k + 1, index, remaining, gone);
    DeleteAtShows(split, k + 1, remaining);
    var t, m := DeleteAt(split, k + 1, remaining), Min(split[k + 1].cell.len, remaining);
    WalkPast(live, index, length, t, k + 1, pos + frags[k].cell.len, remaining - m, gone + UnitsOf(t[k + 1].cell));
  }

  /** The walk ends with exactly the asked-for characters gone, as far as there are that many. */
  lemma WalkEnds(live: seq<Unit>, index: nat, length: nat, frags: seq<Frag>, k: nat, pos: nat, remaining: nat, gone: seq<Unit>)
    requires Walk(live, index, length, frags, k, pos, remaining, gone) && (remaining == 0 || k == |frags|)
    ensures var i, j := Min(index, |live|), Min(index + length, |live|);
            Live(frags) == live[..i] + live[j..] && gone == live[i..j]
  {
    LiveParts(frags, k);
  }

  predicate AllChars(units: seq<Unit>) {
    forall u :: u in units ==> u.Char?
  }

  /** The visible text, as runes. */
  function Runes(units: seq<Unit>): (runes: seq<Rune>)
    requires AllChars(units)
    ensures |runes| == |units| && forall i :: 0 <= i < |units| ==> runes[i] == units[i].rune
  {
    seq<Rune>(|units|, i requires 0 <= i < |units| => units[i].rune)
  }

  lemma {:induction false} LiveChars(frags: seq<Frag>)
    requires TextFrags(frags)
    ensures AllChars(Live(frags))
  {
    if frags != [] {
      assert frags[0] in frags;
      LiveChars(frags[1..]);
    }
  }

  lemma StartsEmpty(frags: seq<Frag>)
    ensures Live(frags[..0]) == [] && AllChars([]) && Runes([]) == []
  {
  }

  /** The text before an item and the text of the item. */
  lemma RunesAt(frags: seq<Frag>, k: nat)
    requires TextFrags(frags) && k < |frags|
    ensures AllChars(Live(frags[..k])) && AllChars(Live(frags[..k + 1]))
    ensures frags[k].deleted ==> Live(frags[..k + 1]) == Live(frags[..k])
    ensures !frags[k].deleted ==>
      && frags[k].cell.content.Str? && |Live(frags[..k + 1])| == |Live(frags[..k])| + frags[k].cell.len
      && Runes(Live(frags[..k + 1])) == Runes(Live(frags[..k])) + frags[k].cell.content.text
  {
    hide Live;
    LiveChars(frags[..k]);
    LiveChars(frags[..k + 1]);
    LiveAt(frags, k);
    assert frags[k] in frags;
  }

  /** A local edit of a plain text. */
  datatype Edit = Ins(index: nat, text: seq<Rune>) | Del(index: nat, length: nat)

  /** Insertions beyond the end go to the end; deletions beyond the end stop there. */
  function Plain(text: seq<Rune>, e: Edit): seq<Rune> {
    match e
    case Ins(index, s) => var i := Min(index, |text|); text[..i] + s + text[i..]
    case Del(index, length) => text[..Min(index, |text|)] + text[Min(index + length, |text|)..]
  }

  lemma RunesConcat(a: seq<Unit>, b: seq<Unit>)
    requires AllChars(a) && AllChars(b)
    ensures AllChars(a + b) && Runes(a + b) == Runes(a) + Runes(b)
  {
  }

  lemma RunesCut(a: seq<Unit>, i: nat)
    requires AllChars(a) && i <= |a|
    ensures AllChars(a[..i]) && Runes(a[..i]) == Runes(a)[..i]
    ensures AllChars(a[i..]) && Runes(a[i..]) == Runes(a)[i..]
  {
  }

  lemma StrRunes(c: Cell)
    requires c.content.Str?
    ensures AllChars(UnitsOf(c)) && Runes(UnitsOf(c)) == c.content.text
  {
  }

  lemma InsertIsPlain(live: seq<Unit>, index: nat, s: seq<Rune>, c: Cell, after: seq<Unit>)
    requires AllChars(live) && c.content == Str(s)
    requires var n := Min(index, |live|); after == if s == [] then live else live[..n] + UnitsOf(c) + live[n..]
    ensures AllChars(after) && Runes(after) == Plain(Runes(live), Ins(index, s))
  {
    hide Runes, UnitsOf;
    var n := Min(index, |live|);
    StrRunes(c);
    RunesCut(live, n);
    RunesConcat(live[..n], UnitsOf(c));
    RunesConcat(live[..n] + UnitsOf(c), live[n..]);
    assert s == [] ==> Runes(live)[..n] + s + Runes(live)[n..] == Runes(live);
  }

  lemma DeleteIsPlain(live: seq<Unit>, index: nat, length: nat, after: seq<Unit>)
    requires AllChars(live) && after == live[..Min(index, |live|)] + live[Min(index + length, |live|)..]
    ensures AllChars(after) && Runes(after) == Plain(Runes(live), Del(index, length))
  {
    var i, j := Min(index, |live|), Min(index + length, |live|);
    RunesCut(live, i);
    RunesCut(live, j);
    RunesConcat(live[..i], live[j..]);
  }

  function PlainRun(text: seq<Rune>, edits: seq<Edit>): seq<Rune>
    decreases |edits|
  {
    if edits == [] then text else PlainRun(Plain(text, edits[0]), edits[1..])
  }

  // What an edit does to each item that was there.

  /** The index is strictly inside a visible item. */
  predicate Within(frags: seq<Frag>, k: nat, index: nat) {
    k < |frags| && !frags[k].deleted && |Live(frags[..k])| < index < |Live(frags[..k])| + frags[k].cell.len
  }

  lemma LiveGrows(frags: seq<Frag>, j: nat, k: nat)
    requires TextFrags(frags) && j < k <= |frags|
    ensures |Live(frags[..j])| + |Shown(frags[j])| <= |Live(frags[..k])|
  {
    hide Live, Shown;
    LiveAt(frags, j);
    LiveParts(frags[..k], j + 1);
    assert frags[..k][..j + 1] == frags[..j + 1];
  }

  /** An index that is not before item k and not after it is inside no other item. */
  lemma WithinOnly(frags: seq<Frag>, k: nat, index: nat)
    requires TextFrags(frags) && k <= |frags| && |Live(frags[..k])| <= index
    requires k < |frags| ==> index <= |Live(frags[..k])| + |Shown(frags[k])|
    ensures forall j :: j != k ==> !Within(frags, j, index)
  {
    hide Live, UnitsOf;
    forall j: nat | j != k ensures !Within(frags, j, index) {
      if j < |frags| && !frags[j].deleted {
        assert frags[j] in frags;
        LastUnit(frags[j].cell);
        if j < k { LiveGrows(frags, j, k); } else { LiveGrows(frags, k, j); }
      }
    }
  }

  /** The edit splits item k. */
  predicate Shortens(frags: seq<Frag>, k: nat, e: Edit) {
    match e
    case Ins(index, s) => s != [] && Within(frags, k, index)
    case Del(index, length) => length > 0 && (Within(frags, k, index) || Within(frags, k, index + length))
  }

  /** The first n characters of an item, if it has more. */
  function Clip(c: Cell, n: nat): Cell {
    if c.content.Str? && n < |c.content.text| then c.(len := n, content := Str(c.content.text[..n])) else c
  }

  /** What an item that was there says after the edit: its characters up to the first split. */
  function Shortened(frags: seq<Frag>, k: nat, e: Edit): Cell
    requires k < |frags|
  {
    var c, at := frags[k].cell, |Live(frags[..k])|;
    if !Shortens(frags, k, e) then c
    else Clip(c, if Within(frags, k, e.index) then e.index - at else e.index + e.length - at)
  }

  lemma ShorterText(frags: seq<Frag>, k: nat, e: Edit)
    requires k < |frags| && TextFrags(frags) && Shortens(frags, k, e)
    ensures var c, t := frags[k].cell, Shortened(frags, k, e);
            c.content.Str? && t.content.Str? && |t.content.text| < |c.content.text|
  {
    assert frags[k] in frags;
  }
}
