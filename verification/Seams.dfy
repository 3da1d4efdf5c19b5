/**
 * Where an edit of a text splits an item of its transaction: for every visible character, whether it
 * continues an item of the transaction, and what edits make of that.
 */
module Seams {
  import opened Values
  import opened Cells
  import opened Integration
  import opened Deletion
  import opened Fragments

  // On values.

  /** The characters of one item: all but the first continue it. */
  function OneItem(mine: bool, n: nat): (m: seq<bool>)
    ensures |m| == n
  {
    if n == 0 then [] else [false] + seq(n - 1, _ => mine)
  }

  /** What is on the right of a split is in an item of its own, which is not the transaction's. */
  function Loose(m: seq<bool>): (r: seq<bool>)
    ensures |r| == |m|
  {
    if m == [] || !m[0] then m else [false] + Loose(m[1..])
  }

  /** The edit falls strictly inside a visible item of the transaction. */
  predicate Inside(m: seq<bool>, e: Edit) {
    match e
    case Ins(index, s) => s != [] && index < |m| && m[index]
    case Del(index, length) => length > 0 && ((index < |m| && m[index]) || (index + length < |m| && m[index + length]))
  }

  /** The characters after an edit. */
  function AfterEdit(m: seq<bool>, e: Edit): seq<bool> {
    match e
    case Ins(index, s) =>
      var n := Min(index, |m|);
      if s == [] then m else m[..n] + OneItem(true, |s|) + Loose(m[n..])
    case Del(index, length) =>
      if length == 0 then m else m[..Min(index, |m|)] + Loose(m[Min(index + length, |m|)..])
  }

  function AfterEdits(m: seq<bool>, edits: seq<Edit>): seq<bool> {
    if edits == [] then m else AfterEdit(AfterEdits(m, edits[..|edits| - 1]), edits[|edits| - 1])
  }

  /** None of the edits falls strictly inside an item that an earlier one has typed, or that was there. */
  predicate NoneInside(m: seq<bool>, edits: seq<Edit>) {
    edits == [] ||
    (NoneInside(m, edits[..|edits| - 1]) && !Inside(AfterEdits(m, edits[..|edits| - 1]), edits[|edits| - 1]))
  }

  /** At the start of a transaction no character continues an item of it. */
  function NoSeams(n: nat): seq<bool> {
    seq(n, _ => false)
  }

  // Of a list.

  /** For every visible character of a list, whether it continues one of these items. */
  function Inner<T(==)>(nodes: seq<T>, frags: seq<Frag>, own: seq<T>): (m: seq<bool>)
    requires |nodes| == |frags|
    ensures |m| == |Live(frags)|
  {
    if nodes == [] then [] else OneItem(nodes[0] in own, |Shown(frags[0])|) + Inner(nodes[1..], frags[1..], own)
  }

  lemma {:induction false} InnerConcat<T>(a: seq<T>, fa: seq<Frag>, b: seq<T>, fb: seq<Frag>, own: seq<T>)
    requires |a| == |fa| && |b| == |fb|
    ensures Inner(a + b, fa + fb, own) == Inner(a, fa, own) + Inner(b, fb, own)
  {
    hide OneItem, Shown;
    if a == [] {
      assert a + b == b && fa + fb == fb;
    } else {
      InnerConcat(a[1..], fa[1..], b, fb, own);
      var all, frags := a + b, fa + fb;
      assert all[0] == a[0] && all[1..] == a[1..] + b && frags[0] == fa[0] && frags[1..] == fa[1..] + fb;
      assert Inner(all, frags, own) == OneItem(a[0] in own, |Shown(fa[0])|) + (Inner(a[1..], fa[1..], own) + Inner(b, fb, own));
    }
  }

  /** A transaction without items has none that a character could continue. */
  lemma {:induction false} InnerFresh<T>(nodes: seq<T>, frags: seq<Frag>)
    requires |nodes| == |frags|
    ensures Inner(nodes, frags, []) == NoSeams(|Live(frags)|)
  {
    hide Shown;
    if nodes != [] {
      InnerFresh(nodes[1..], frags[1..]);
      assert Inner(nodes, frags, []) == OneItem(false, |Shown(frags[0])|) + NoSeams(|Live(frags[1..])|);
    }
  }

  lemma InnerOne<T>(node: T, f: Frag, own: seq<T>)
    ensures Inner([node], [f], own) == OneItem(node in own, |Shown(f)|)
  {
    hide OneItem, Shown;
    assert Inner([node], [f], own) == OneItem(node in own, |Shown(f)|) + Inner([node][1..], [f][1..], own);
  }

  lemma InnerParts<T>(nodes: seq<T>, frags: seq<Frag>, own: seq<T>, k: nat)
    requires k <= |nodes| == |frags|
    ensures Inner(nodes, frags, own) == Inner(nodes[..k], frags[..k], own) + Inner(nodes[k..], frags[k..], own)
  {
    hide Inner;
    InnerConcat(nodes[..k], frags[..k], nodes[k..], frags[k..], own);
    assert nodes == nodes[..k] + nodes[k..] && frags == frags[..k] + frags[k..];
  }

  /** The characters before and after one item. */
  lemma InnerAt<T>(nodes: seq<T>, frags: seq<Frag>, own: seq<T>, k: nat)
    requires k < |nodes| == |frags|
    ensures var here := OneItem(nodes[k] in own, |Shown(frags[k])|);
            && Inner(nodes[k..], frags[k..], own) == here + Inner(nodes[k + 1..], frags[k + 1..], own)
            && Inner(nodes[..k + 1], frags[..k + 1], own) == Inner(nodes[..k], frags[..k], own) + here
  {
    hide Inner, OneItem, Shown;
    InnerOne(nodes[k], frags[k], own);
    InnerConcat([nodes[k]], [frags[k]], nodes[k + 1..], frags[k + 1..], own);
    InnerConcat(nodes[..k], frags[..k], [nodes[k]], [frags[k]], own);
    assert nodes[k..] == [nodes[k]] + nodes[k + 1..] && frags[k..] == [frags[k]] + frags[k + 1..];
    assert nodes[..k + 1] == nodes[..k] + [nodes[k]] && frags[..k + 1] == frags[..k] + [frags[k]];
  }

  /** A list starts with the first character of an item. */
  lemma {:induction false} StartsItem<T>(nodes: seq<T>, frags: seq<Frag>, own: seq<T>)
    requires |nodes| == |frags|
    ensures var m := Inner(nodes, frags, own); Loose(m) == m && (m != [] ==> !m[0])
  {
    hide Shown;
    if nodes != [] { StartsItem(nodes[1..], frags[1..], own); }
  }

  lemma {:induction false} LooseRun(n: nat, mine: bool, rest: seq<bool>)
    requires rest == [] || !rest[0]
    ensures Loose(seq(n, _ => mine) + rest) == NoSeams(n) + rest
  {
    var m := seq(n, _ => mine) + rest;
    if n > 0 {
      assert m[0] == mine && m[1..] == seq(n - 1, _ => mine) + rest;
      if mine {
        LooseRun(n - 1, mine, rest);
        assert NoSeams(n) == [false] + NoSeams(n - 1);
      } else {
        assert NoSeams(n) == seq(n, _ => mine);
      }
    } else {
      assert m == rest && NoSeams(0) + rest == rest;
    }
  }

  /** The right part of an item, which is no item of the transaction. */
  lemma LooseItem(mine: bool, n: nat, i: nat, rest: seq<bool>)
    requires (rest == [] || !rest[0]) && 0 < i <= n
    ensures Loose((OneItem(mine, n) + rest)[i..]) == OneItem(false, n - i) + rest
    ensures (OneItem(mine, n) + rest)[..i] == OneItem(mine, i)
  {
    hide Loose;
    var all := OneItem(mine, n) + rest;
    assert all[i..] == seq(n - i, _ => mine) + rest;
    LooseRun(n - i, mine, rest);
    assert OneItem(false, n - i) == NoSeams(n - i);
  }

  lemma {:induction false} LooseTwice(m: seq<bool>, i: nat)
    requires i <= |m|
    ensures Loose(Loose(m)[i..]) == Loose(m[i..])
  {
    if i == 0 {
      assert m[0..] == m && Loose(m)[0..] == Loose(m);
      LooseAgain(m);
    } else if m[0] {
      LooseTwice(m[1..], i - 1);
      assert Loose(m)[i..] == Loose(m[1..])[i - 1..] && m[i..] == m[1..][i - 1..];
    }
  }

  lemma {:induction false} LooseAgain(m: seq<bool>)
    ensures Loose(Loose(m)) == Loose(m)
  {
  }

  /** What is visible of an item before the index stays in it. */
  lemma InnerIndex<T>(nodes: seq<T>, frags: seq<Frag>, own: seq<T>, k: nat, offset: nat)
    requires k < |nodes| == |frags| && offset < |Shown(frags[k])|
    ensures |Live(frags[..k])| + offset < |Live(frags)|
    ensures Inner(nodes, frags, own)[|Live(frags[..k])| + offset] <==> offset > 0 && nodes[k] in own
  {
    hide Inner, Shown, Live;
    InnerParts(nodes, frags, own, k);
    InnerAt(nodes, frags, own, k);
  }

  // An item is split, strictly inside.

  lemma SplitInner<T>(nodes: seq<T>, frags: seq<Frag>, own: seq<T>, k: nat, offset: nat, right: T)
    requires k < |nodes| == |frags| && MayCut(frags[k], offset) && right !in own && TextFrags(frags)
    ensures var longer, parts, n := InsertAt(nodes, k + 1, right), SplitFrag(frags, k, offset), |Live(frags[..k])| + offset;
            var m := Inner(nodes, frags, own);
            && |longer| == |parts| && n <= |m|
            && Inner(longer[..k + 1], parts[..k + 1], own) == m[..n] && Inner(longer[k + 1..], parts[k + 1..], own) == Loose(m[n..])
  {
    hide Inner, Shown, Live, SplitFrag, OneItem, Loose, UnitsOf;
    var longer, parts := InsertAt(nodes, k + 1, right), SplitFrag(frags, k, offset);
    assert longer[..k] == nodes[..k] && longer[k] == nodes[k] && longer[k + 1] == right && longer[k + 2..] == nodes[k + 1..];
    SplitParts(frags, k, offset);
    ShownWhole(frags[k]);
    InnerParts(nodes, frags, own, k);
    InnerAt(nodes, frags, own, k);
    InnerAt(longer, parts, own, k);
    InnerAt(longer, parts, own, k + 1);
    StartsItem(nodes[k + 1..], frags[k + 1..], own);
    var len, rest := frags[k].cell.len, Inner(nodes[k + 1..], frags[k + 1..], own);
    LooseItem(nodes[k] in own, len, offset, rest);
    var a, b := Inner(nodes[..k], frags[..k], own), OneItem(nodes[k] in own, len) + rest;
    assert (a + b)[..|a| + offset] == a + b[..offset] && (a + b)[|a| + offset..] == b[offset..];
  }

  /** The characters when an item that has the index strictly inside has been split there. */
  function Halved(m: seq<bool>, n: nat): seq<bool>
    requires n <= |m|
  {
    m[..n] + Loose(m[n..])
  }

  lemma SplitHalved<T>(nodes: seq<T>, frags: seq<Frag>, own: seq<T>, k: nat, offset: nat, right: T)
    requires k < |nodes| == |frags| && MayCut(frags[k], offset) && right !in own && TextFrags(frags)
    ensures var longer, parts, n := InsertAt(nodes, k + 1, right), SplitFrag(frags, k, offset), |Live(frags[..k])| + offset;
            |longer| == |parts| && n <= |Live(frags)| && Inner(longer, parts, own) == Halved(Inner(nodes, frags, own), n)
  {
    hide Inner, Live, SplitFrag, Loose;
    SplitInner(nodes, frags, own, k, offset, right);
    InnerParts(InsertAt(nodes, k + 1, right), SplitFrag(frags, k, offset), own, k + 1);
  }

  /** Between two items nothing is split. */
  lemma WholeHalved<T>(nodes: seq<T>, frags: seq<Frag>, own: seq<T>, k: nat)
    requires k <= |nodes| == |frags|
    ensures |Live(frags[..k])| <= |Live(frags)| && Halved(Inner(nodes, frags, own), |Live(frags[..k])|) == Inner(nodes, frags, own)
  {
    hide Inner, Live;
    InnerParts(nodes, frags, own, k);
    StartsItem(nodes[k..], frags[k..], own);
  }

  lemma AtStart<T>(nodes: seq<T>, frags: seq<Frag>, own: seq<T>)
    requires |nodes| == |frags|
    ensures Halved(Inner(nodes, frags, own), 0) == Inner(nodes, frags, own)
  {
    hide Inner;
    WholeHalved(nodes, frags, own, 0);
    assert frags[..0] == [] && Live([]) == [];
  }

  lemma ShownWhole(f: Frag)
    requires !f.deleted && f.cell.content.Str? && Sized(f.cell)
    ensures |Shown(f)| == f.cell.len && Shown(f) == UnitsOf(f.cell)
  {
    LastUnit(f.cell);
  }

  // The walk of Text.Delete.

  /** The deletion of up to `remaining` characters from the start of item k. */
  lemma DeleteInner<T>(nodes: seq<T>, frags: seq<Frag>, own: seq<T>, k: nat, remaining: nat, longer: seq<T>, added: seq<T>)
    requires k < |nodes| == |frags| && !frags[k].deleted && TextFrags(frags) && remaining > 0 && frags[k] in frags
    requires longer == nodes[..k + 1] + added + nodes[k + 1..] && |added| == if frags[k].cell.len > remaining then 1 else 0
    requires forall n :: n in added ==> n !in own
    ensures var parts := DeleteAt(frags, k, remaining);
            && |longer| == |parts| && k < |parts| && parts[k].deleted && Min(frags[k].cell.len, remaining) <= |Inner(nodes[k..], frags[k..], own)|
            && Inner(longer[..k + 1], parts[..k + 1], own) == Inner(nodes[..k], frags[..k], own)
            && Inner(longer[k + 1..], parts[k + 1..], own) == Loose(Inner(nodes[k..], frags[k..], own)[Min(frags[k].cell.len, remaining)..])
  {
    hide Inner, Shown, Live, SplitFrag, Loose, UnitsOf;
    var parts, len, rest := DeleteAt(frags, k, remaining), frags[k].cell.len, Inner(nodes[k + 1..], frags[k + 1..], own);
    ShownWhole(frags[k]);
    InnerAt(nodes, frags, own, k);
    StartsItem(nodes[k + 1..], frags[k + 1..], own);
    LooseItem(nodes[k] in own, len, Min(len, remaining), rest);
    assert longer[..k + 1] == nodes[..k + 1] && longer[..k] == nodes[..k] && longer[k + 1..] == added + nodes[k + 1..];
    DeleteParts(frags, k, remaining);
    InnerAt(longer, parts, own, k);
    OneDeleted(parts[k]);
    if len > remaining {
      InnerAt(longer, parts, own, k + 1);
      assert longer[k + 1] == added[0] && longer[k + 2..] == nodes[k + 1..];
    }
  }

  lemma DeleteParts(frags: seq<Frag>, k: nat, remaining: nat)
    requires k < |frags| && !frags[k].deleted && TextFrags(frags) && remaining > 0 && frags[k] in frags
    ensures var parts, len := DeleteAt(frags, k, remaining), frags[k].cell.len;
            && |parts| == |frags| + (if len > remaining then 1 else 0) && parts[..k] == frags[..k] && parts[k].deleted
            && if len > remaining then |Shown(parts[k + 1])| == len - remaining && parts[k + 2..] == frags[k + 1..] else parts[k + 1..] == frags[k + 1..]
  {
    hide UnitsOf;
    if frags[k].cell.len > remaining {
      SplitParts(frags, k, remaining);
      LastUnit(frags[k].cell);
      assert DeleteAt(frags, k, remaining)[k + 1..] == SplitFrag(frags, k, remaining)[k + 1..];
    }
  }

  /** What has become of item k when the walk has dealt with it: the deletion starts in it, or before it. */
  ghost predicate Reshaped<T>(nodes: seq<T>, frags: seq<Frag>, k: nat, index: nat, pos: nat, remaining: nat,
                                  longer: seq<T>, parts: seq<Frag>, added: seq<T>, toDelete: nat) {
    && k < |nodes| == |frags| && !frags[k].deleted && TextFrags(frags) && remaining > 0 && frags[k] in frags
    && longer == nodes[..k + 1] + added + nodes[k + 1..] && index < pos + frags[k].cell.len
    && if pos < index then
         var split, left := SplitFrag(frags, k, index - pos), frags[k].cell.len - (index - pos);
         && |added| == (if left > remaining then 2 else 1) && toDelete == Min(left, remaining)
         && k + 1 < |split| && !split[k + 1].deleted && split[k + 1].cell.content.Str? && Sized(split[k + 1].cell)
         && parts == DeleteAt(split, k + 1, remaining)
       else
         && |added| == (if frags[k].cell.len > remaining then 1 else 0) && toDelete == Min(frags[k].cell.len, remaining)
         && parts == DeleteAt(frags, k, remaining)
  }

  /** Afterwards: what comes before the range is as it was, and what comes after the deleted characters begins anew. */
  lemma ReshapedInner<T>(nodes: seq<T>, frags: seq<Frag>, own: seq<T>, k: nat, index: nat, pos: nat, remaining: nat,
                         longer: seq<T>, parts: seq<Frag>, added: seq<T>, toDelete: nat)
    requires Reshaped(nodes, frags, k, index, pos, remaining, longer, parts, added, toDelete) && forall n :: n in added ==> n !in own
    ensures var before, rest, i := Inner(nodes[..k], frags[..k], own), Inner(nodes[k..], frags[k..], own), if pos < index then index - pos else 0;
            && k < |longer| == |parts| && i + toDelete <= frags[k].cell.len <= |rest| && toDelete <= remaining
            && (toDelete < remaining ==> i + toDelete == frags[k].cell.len)
            && Inner(longer[..k + 1], parts[..k + 1], own) == before + rest[..i]
            && Inner(longer[k + 1..], parts[k + 1..], own) == Loose(rest[i + toDelete..])
  {
    hide Inner, Shown, Live, SplitFrag, Loose, UnitsOf, DeleteAt, InsertAt;
    ShownWhole(frags[k]);
    InnerAt(nodes, frags, own, k);
    if pos < index {
      Straddled(nodes, frags, own, k, index - pos, remaining, longer, added);
    } else {
      DeleteInner(nodes, frags, own, k, remaining, longer, added);
    }
  }

  lemma Straddled<T>(nodes: seq<T>, frags: seq<Frag>, own: seq<T>, k: nat, offset: nat, remaining: nat, longer: seq<T>, added: seq<T>)
    requires k < |nodes| == |frags| && MayCut(frags[k], offset) && TextFrags(frags) && remaining > 0
    requires var split := SplitFrag(frags, k, offset);
             && k + 1 < |split| && !split[k + 1].deleted && split[k + 1].cell.content.Str? && Sized(split[k + 1].cell)
             && |added| == (if frags[k].cell.len - offset > remaining then 2 else 1)
    requires longer == nodes[..k + 1] + added + nodes[k + 1..] && forall n :: n in added ==> n !in own
    ensures var parts, rest, m := DeleteAt(SplitFrag(frags, k, offset), k + 1, remaining), Inner(nodes[k..], frags[k..], own),
                                  Min(frags[k].cell.len - offset, remaining);
            && k < |longer| == |parts| && offset + m <= |rest|
            && Inner(longer[..k + 1], parts[..k + 1], own) == Inner(nodes[..k], frags[..k], own) + rest[..offset]
            && Inner(longer[k + 1..], parts[k + 1..], own) == Loose(rest[offset + m..])
  {
    hide Inner, Shown, Live, SplitFrag, Loose, UnitsOf, DeleteAt;
    var one, split, right, more := InsertAt(nodes, k + 1, added[0]), SplitFrag(frags, k, offset), added[0], added[1..];
    var parts, left := DeleteAt(split, k + 1, remaining), frags[k].cell.len - offset;
    SplitParts(frags, k, offset);
    SplitInner(nodes, frags, own, k, offset, right);
    InnerParts(nodes, frags, own, k);
    assert added == [right] + more && one[..k + 2] == nodes[..k + 1] + [right] && one[k + 2..] == nodes[k + 1..];
    assert longer == one[..k + 2] + more + one[k + 2..];
    DeleteInner(one, split, own, k + 1, remaining, longer, more);
    DeleteParts(split, k + 1, remaining);
    InnerAt(longer, parts, own, k + 1);
    OneDeleted(parts[k + 1]);
    assert longer[..k + 1] == one[..k + 1] && parts[..k + 1] == split[..k + 1];
    Sliced(Inner(nodes[..k], frags[..k], own), Inner(nodes[k..], frags[k..], own), offset, Min(left, remaining));
  }

  lemma Sliced(a: seq<bool>, b: seq<bool>, i: nat, m: nat)
    requires i + m <= |b|
    ensures (a + b)[..|a| + i] == a + b[..i] && Loose(Loose((a + b)[|a| + i..])[m..]) == Loose(b[i + m..])
  {
    assert (a + b)[|a| + i..] == b[i..] && b[i..][m..] == b[i + m..];
    LooseTwice(b[i..], m);
  }

  /** Where the walk is: what it has passed and what is still to come. */
  predicate Seamed<T(==)>(nodes: seq<T>, frags: seq<Frag>, own: seq<T>, m: seq<bool>, index: nat, length: nat, k: nat, pos: nat, remaining: nat) {
    && k <= |nodes| == |frags|
    && if remaining == 0 then
         index + length <= |m| && Inner(nodes, frags, own) == m[..index] + Loose(m[index + length..])
       else
         && pos <= |m| && remaining == length - (if pos <= index then 0 else pos - index)
         && Inner(nodes[..k], frags[..k], own) == m[..Min(pos, index)] && Inner(nodes[k..], frags[k..], own) == m[pos..]
  }

  lemma SeamsStart<T>(nodes: seq<T>, frags: seq<Frag>, own: seq<T>, index: nat, length: nat)
    requires |nodes| == |frags| && length > 0
    ensures Seamed(nodes, frags, own, Inner(nodes, frags, own), index, length, 0, 0, length)
  {
    assert nodes[0..] == nodes && frags[0..] == frags;
  }

  lemma SeamsPast<T>(nodes: seq<T>, frags: seq<Frag>, own: seq<T>, m: seq<bool>, index: nat, length: nat, k: nat, pos: nat, remaining: nat)
    requires Seamed(nodes, frags, own, m, index, length, k, pos, remaining) && k < |nodes| && frags[k].deleted && remaining > 0
    ensures Seamed(nodes, frags, own, m, index, length, k + 1, pos, remaining)
  {
    hide Inner, Shown;
    InnerAt(nodes, frags, own, k);
    OneDeleted(frags[k]);
  }

  lemma SeamsBefore<T>(nodes: seq<T>, frags: seq<Frag>, own: seq<T>, m: seq<bool>, index: nat, length: nat, k: nat, pos: nat, remaining: nat)
    requires Seamed(nodes, frags, own, m, index, length, k, pos, remaining) && k < |nodes| && !frags[k].deleted && remaining > 0
    requires TextFrags(frags) && pos + frags[k].cell.len <= index
    ensures Seamed(nodes, frags, own, m, index, length, k + 1, pos + frags[k].cell.len, remaining)
  {
    hide Inner, Shown, OneItem;
    assert frags[k] in frags;
    ShownWhole(frags[k]);
    InnerAt(nodes, frags, own, k);
    var here, rest := OneItem(nodes[k] in own, frags[k].cell.len), Inner(nodes[k + 1..], frags[k + 1..], own);
    assert m[pos..] == here + rest;
    assert m[..pos] + m[pos..][..|here|] == m[..pos + |here|] && m[pos..][|here|..] == m[pos + |here|..];
  }

  lemma Passing(m: seq<bool>, index: nat, pos: nat, i: nat, n: nat)
    requires pos + i + n <= |m| && i == if pos < index then index - pos else 0
    ensures m[..Min(pos, index)] + m[pos..][..i] == m[..index]
    ensures m[pos..][i + n..] == m[pos + i + n..]
  {
  }

  lemma ReshapedText<T>(nodes: seq<T>, frags: seq<Frag>, k: nat, index: nat, pos: nat, remaining: nat,
                        longer: seq<T>, parts: seq<Frag>, added: seq<T>, toDelete: nat)
    requires Reshaped(nodes, frags, k, index, pos, remaining, longer, parts, added, toDelete)
    ensures k < |nodes| == |frags| && !frags[k].deleted && frags[k].cell.content.Str? && Sized(frags[k].cell)
    ensures index < pos + frags[k].cell.len && remaining > 0
  {
  }

  /** What comes after an item starts with an item. */
  lemma RestStarts<T>(nodes: seq<T>, frags: seq<Frag>, own: seq<T>, m: seq<bool>, k: nat, pos: nat)
    requires k < |nodes| == |frags| && !frags[k].deleted && frags[k].cell.content.Str? && Sized(frags[k].cell) && pos <= |m|
    requires Inner(nodes[k..], frags[k..], own) == m[pos..]
    ensures pos + frags[k].cell.len <= |m| && Loose(m[pos + frags[k].cell.len..]) == m[pos + frags[k].cell.len..]
  {
    hide Inner, Shown, Loose;
    var len := frags[k].cell.len;
    ShownWhole(frags[k]);
    InnerAt(nodes, frags, own, k);
    StartsItem(nodes[k + 1..], frags[k + 1..], own);
    assert m[pos..][len..] == m[pos + len..] && m[pos..][len..] == Inner(nodes[k + 1..], frags[k + 1..], own);
  }

  lemma SeamsNext<T>(nodes: seq<T>, frags: seq<Frag>, own: seq<T>, m: seq<bool>, index: nat, length: nat, k: nat, pos: nat, remaining: nat,
                     longer: seq<T>, parts: seq<Frag>, added: seq<T>, toDelete: nat)
    requires Seamed(nodes, frags, own, m, index, length, k, pos, remaining)
    requires Reshaped(nodes, frags, k, index, pos, remaining, longer, parts, added, toDelete) && forall n :: n in added ==> n !in own
    ensures toDelete <= remaining && Seamed(longer, parts, own, m, index, length, k + 1, pos + frags[k].cell.len, remaining - toDelete)
  {
    hide Inner, Shown, Loose, Reshaped;
    var i := if pos < index then index - pos else 0;
    ReshapedText(nodes, frags, k, index, pos, remaining, longer, parts, added, toDelete);
    ReshapedInner(nodes, frags, own, k, index, pos, remaining, longer, parts, added, toDelete);
    Passing(m, index, pos, i, toDelete);
    InnerParts(longer, parts, own, k + 1);
    if toDelete < remaining { RestStarts(nodes, frags, own, m, k, pos); }
  }

  lemma NoSeamEdit(m: seq<bool>, e: Edit)
    requires e.Del? && e.length == 0
    ensures AfterEdit(m, e) == m
  {
  }

  /** The walk ends with what the deletion makes of the characters. */
  lemma SeamsEnd<T>(nodes: seq<T>, frags: seq<Frag>, own: seq<T>, m: seq<bool>, index: nat, length: nat, k: nat, pos: nat, remaining: nat)
    requires Seamed(nodes, frags, own, m, index, length, k, pos, remaining) && length > 0 && (remaining == 0 || k == |nodes|)
    ensures Inner(nodes, frags, own) == AfterEdit(m, Del(index, length))
  {
    if remaining > 0 {
      assert m[pos..] == [];
      assert nodes[..k] == nodes && frags[..k] == frags;
    }
  }

  // Insertions.

  /** What an insertion makes of the characters, when the item at the index has been split. */
  lemma InsertInner<T>(nodes: seq<T>, frags: seq<Frag>, own: seq<T>, p: nat, q: nat, item: T, c: Cell, n: nat)
    requires p <= q <= |nodes| == |frags| && item !in own && item !in nodes && c.content.Str? && Sized(c)
    requires |Live(frags[..p])| == n && |Live(frags[q..])| == |Live(frags)| - n
    ensures var longer, parts := nodes[..p] + [item] + nodes[q..], Insertion(frags, p, q, c);
            |longer| == |parts| && Inner(longer, parts, own + [item]) == Inner(nodes, frags, own)[..n] + OneItem(true, c.len) + Inner(nodes, frags, own)[n..]
  {
    hide Inner, Live, OneItem, Shown, UnitsOf;
    var more := own + [item];
    ShownWhole(Frag(c, false));
    InnerConcat(nodes[..p] + [item], frags[..p] + [Frag(c, false)], nodes[q..], frags[q..], more);
    InnerConcat(nodes[..p], frags[..p], [item], [Frag(c, false)], more);
    InnerOne(item, Frag(c, false), more);
    OwnMore(nodes[..p], frags[..p], own, item);
    OwnMore(nodes[q..], frags[q..], own, item);
    InnerParts(nodes, frags, own, p);
    InnerParts(nodes[p..], frags[p..], own, q - p);
    assert nodes[p..][q - p..] == nodes[q..] && frags[p..][q - p..] == frags[q..];
  }

  lemma {:induction false} OwnMore<T>(nodes: seq<T>, frags: seq<Frag>, own: seq<T>, item: T)
    requires |nodes| == |frags| && item !in nodes
    ensures Inner(nodes, frags, own + [item]) == Inner(nodes, frags, own)
  {
    hide OneItem, Shown;
    if nodes != [] { OwnMore(nodes[1..], frags[1..], own, item); }
  }
}
