/** text.go: editing a text in its doubly linked list. */
module Texts {
  import opened Wrappers
  import opened Values
  import opened Ids
  import opened Cells
  import opened Integration
  import opened Deletion
  import opened Fragments
  import opened Seams
  import opened Items
  import opened Linking
  import opened RangeDeleter

  ghost predicate ShowsFrags(nodes: seq<Item>, frags: seq<Frag>)
    reads nodes`parent, nodes`content, nodes`length, nodes`deleted
  {
    |nodes| == |frags| && forall i :: 0 <= i < |nodes| ==> Frag(nodes[i].AsCell(), nodes[i].deleted) == frags[i]
  }

  /** The list of a text: linked from its start, with these items. */
  ghost predicate IsText(t: SharedType, nodes: seq<Item>, frags: seq<Frag>)
    reads t`start, nodes`left, nodes`right, nodes`parent, nodes`content, nodes`length, nodes`deleted
  {
    && |nodes| == |frags| && t.start == HeadOf(nodes) && Linked(nodes) && ShowsFrags(nodes, frags) && TextFrags(frags)
    && OwnedBy(t, nodes)
  }

  ghost predicate OwnedBy(t: SharedType, nodes: seq<Item>)
    reads nodes`parent
  {
    forall n :: n in nodes ==> n.parent == t
  }

  /** Every item that was there says what the edit leaves of it. */
  ghost predicate Edited(nodes: seq<Item>, frags: seq<Frag>, e: Edit)
    reads nodes`parent, nodes`content, nodes`length
  {
    |nodes| == |frags| && forall j :: 0 <= j < |nodes| ==> nodes[j].AsCell() == Shortened(frags, j, e)
  }

  ghost predicate AllDeleted(items: seq<Item>)
    reads items`deleted
  {
    forall n :: n in items ==> n.deleted
  }

  /** addItem of the store, for each of these. */
  ghost function Added(clients: map<nat, seq<Item>>, items: seq<Item>): map<nat, seq<Item>>
    decreases |items|
  {
    if items == [] then clients
    else
      var item := items[0];
      Added(clients[item.id.client := (if item.id.client in clients then clients[item.id.client] else []) + [item]], items[1..])
  }

  lemma SplitShows(nodes: seq<Item>, frags: seq<Frag>, k: nat, offset: nat, right: Item)
    requires k < |nodes| == |frags| && MayCut(frags[k], offset)
    requires var c := frags[k].cell;
             && Frag(nodes[k].AsCell(), nodes[k].deleted) == Frag(LeftPart(c, Cut(c, offset)), false)
             && Frag(right.AsCell(), right.deleted) == Frag(RightPart(c, Cut(c, offset)), false)
    requires forall i :: 0 <= i < |nodes| && i != k ==> Frag(nodes[i].AsCell(), nodes[i].deleted) == frags[i]
    ensures ShowsFrags(InsertAt(nodes, k + 1, right), SplitFrag(frags, k, offset))
  {
    hide LeftPart, RightPart;
  }

  lemma LinkedAt(nodes: seq<Item>, k: nat)
    requires Linked(nodes) && k < |nodes|
    ensures Distinct(nodes) && Joined(nodes, k) && nodes[k].right != nodes[k] && nodes[k] in nodes
  {
    assert Joined(nodes, k);
  }

  /** The first n nodes are the same. */
  ghost predicate Starts(longer: seq<Item>, nodes: seq<Item>, n: nat) {
    n <= |longer| && n <= |nodes| && forall i :: 0 <= i < n ==> longer[i] == nodes[i]
  }

  lemma InsertAfter(nodes: seq<Item>, k: nat, right: Item)
    requires k < |nodes|
    ensures var longer := InsertAt(nodes, k + 1, right);
            && |longer| == |nodes| + 1 && HeadOf(longer) == HeadOf(nodes) && longer[k] == nodes[k] && longer[k + 1] == right
            && Starts(longer, nodes, k + 1) && NodeAt(longer, k + 2) == NodeAt(nodes, k + 1)
  {
  }

  /** A list holds nothing but old nodes and added ones. */
  ghost predicate Among(longer: seq<Item>, nodes: seq<Item>, added: seq<Item>) {
    forall n :: n in longer ==> n in nodes || n in added
  }

  lemma InsertedAmong(nodes: seq<Item>, p: nat, item: Item)
    requires p <= |nodes|
    ensures Among(InsertAt(nodes, p, item), nodes, [item])
  {
  }

  /** The content part of a split. */
  method HalveNode(item: Item, offset: nat, ghost nodes: seq<Item>, ghost frags: seq<Frag>, ghost k: nat) returns (right: Item)
    requires ShowsFrags(nodes, frags) && Distinct(nodes) && k < |nodes| && nodes[k] == item && MayCut(frags[k], offset)
    requires item.parent != null
    modifies item`content, item`length
    ensures fresh(right) && right.parent == item.parent && right.id.client == item.id.client
    ensures ShowsFrags(InsertAt(nodes, k + 1, right), SplitFrag(frags, k, offset))
  {
    hide LeftPart, RightPart, UnitsOf, SplitFrag, InsertAt;
    right := Halve(item, Id(item.id.client, item.id.clock + offset));
    SplitShows(nodes, frags, k, offset, right);
  }

  /** The pointer part of a split, which changes nothing that items say. */
  method LinkNode(item: Item, right: Item, ghost nodes: seq<Item>, ghost k: nat, ghost longer: seq<Item>, ghost parts: seq<Frag>)
    requires Linked(nodes) && k < |nodes| && nodes[k] == item && right !in nodes && item.right != right && ShowsFrags(longer, parts)
    modifies item`right, right`left, right`right, Next(item)`left
    ensures Linked(InsertAt(nodes, k + 1, right)) && item.right == right && ShowsFrags(longer, parts)
  {
    hide Linked, InsertAt;
    LinkedAt(nodes, k);
    LinkInto(item, right, nodes, k + 1);
  }

  /** The split of a visible item, strictly inside. */
  method SplitInside(t: SharedType, item: Item, offset: nat, ghost nodes: seq<Item>, ghost frags: seq<Frag>, ghost k: nat)
    returns (right: Item)
    requires IsText(t, nodes, frags) && k < |nodes| && nodes[k] == item && MayCut(frags[k], offset)
    modifies item`content, item`length, item`right, Next(item)`left
    ensures fresh(right) && IsText(t, InsertAt(nodes, k + 1, right), SplitFrag(frags, k, offset))
    ensures right.id.client == item.id.client && item.right == right
  {
    hide LeftPart, RightPart, UnitsOf, Linked, ShowsFrags, TextFrags, SplitFrag, InsertAt;
    LinkedAt(nodes, k);
    right := HalveNode(item, offset, nodes, frags, k);
    LinkNode(item, right, nodes, k, InsertAt(nodes, k + 1, right), SplitFrag(frags, k, offset));
    SplitParts(frags, k, offset);
    InsertAfter(nodes, k, right);
    InsertAtElements(nodes, k + 1, right);
    assert OwnedBy(t, InsertAt(nodes, k + 1, right));
  }

  /** The visible item to the left, passing deleted ones. */
  method LiveLeft(item: Item, ghost nodes: seq<Item>, ghost frags: seq<Frag>, ghost k: nat) returns (left: Item?)
    requires Linked(nodes) && ShowsFrags(nodes, frags) && k < |nodes| && nodes[k] == item
    ensures left == NodeBefore(nodes, LastLive(frags, k))
  {
    assert Joined(nodes, k);
    left := item.left;
    ghost var j := k;
    while left != null && left.deleted
      invariant 0 <= j <= k && left == NodeBefore(nodes, j) && LastLive(frags, j) == LastLive(frags, k)
      decreases j
    {
      assert Joined(nodes, j - 1);
      left := left.left;
      j := j - 1;
    }
  }

  /** The visible item to the right of a node, or the first one. */
  method LiveRight(from: Item?, ghost nodes: seq<Item>, ghost frags: seq<Frag>, ghost k: nat) returns (right: Item?)
    requires Linked(nodes) && ShowsFrags(nodes, frags) && k <= |nodes| && from == NodeAt(nodes, k)
    ensures right == NodeAt(nodes, NextLive(frags, k))
  {
    right := from;
    ghost var j := k;
    while right != null && right.deleted
      invariant k <= j <= |nodes| && right == NodeAt(nodes, j) && NextLive(frags, j) == NextLive(frags, k)
      decreases |nodes| - j
    {
      assert Joined(nodes, j);
      right := right.right;
      j := j + 1;
    }
  }

  lemma ReadText(t: SharedType, nodes: seq<Item>, frags: seq<Frag>)
    requires IsText(t, nodes, frags)
    ensures |nodes| == |frags| && t.start == HeadOf(nodes) && Linked(nodes) && ShowsFrags(nodes, frags) && TextFrags(frags)
  {
  }

  lemma AddedNone(clients: map<nat, seq<Item>>)
    ensures Added(clients, []) == clients
  {
  }

  lemma AddedOne(clients: map<nat, seq<Item>>, item: Item)
    ensures Added(clients, [item]) == clients[item.id.client := (if item.id.client in clients then clients[item.id.client] else []) + [item]]
  {
  }

  /** splitItemAt: at offset 0 nothing is split, and the visible item before this one is looked up. */
  method SplitItemAt(t: SharedType, store: StructStore, item: Item, offset: nat, ghost nodes: seq<Item>, ghost frags: seq<Frag>, ghost k: nat)
    returns (left: Item?, right: Item)
    requires IsText(t, nodes, frags) && k < |nodes| && nodes[k] == item && !item.deleted && offset < item.length
    modifies item`content, item`length, item`right, Next(item)`left, store`clients
    ensures offset == 0 ==> IsText(t, nodes, frags) && store.clients == old(store.clients)
    ensures offset == 0 ==> right == item && left == NodeBefore(nodes, LastLive(frags, k))
    ensures offset > 0 ==> MayCut(frags[k], offset) && left == item && fresh(right)
    ensures offset > 0 ==> IsText(t, InsertAt(nodes, k + 1, right), SplitFrag(frags, k, offset))
    ensures offset > 0 ==> store.clients == Added(old(store.clients), [right])
  {
    hide SplitFrag, InsertAt, IsText, Added;
    ReadText(t, nodes, frags);
    assert frags[k] in frags && frags[k].deleted == item.deleted && frags[k].cell.len == item.length;
    if offset == 0 {
      left := LiveLeft(item, nodes, frags, k);
      return left, item;
    }
    right := SplitInside(t, item, offset, nodes, frags, k);
    AddedOne(store.clients, right);
    ghost var longer, parts := InsertAt(nodes, k + 1, right), SplitFrag(frags, k, offset);
    assert IsText(t, longer, parts);
    store.AddItem(right);
    assert IsText(t, longer, parts);
    left := item;
  }

  /** Index 0: nothing on the left, the first visible item on the right. */
  method FindStart(t: SharedType, ghost nodes: seq<Item>, ghost frags: seq<Frag>) returns (right: Item?, ghost q: nat)
    requires IsText(t, nodes, frags)
    ensures q <= |nodes| && Gap(frags, 0, q, Live(frags), 0) && right == NodeAt(nodes, q)
  {
    q := NextLive(frags, 0);
    GapAt(frags, 0, q);
    right := LiveRight(t.start, nodes, frags, 0);
  }

  /** The walk of findPositionAt: the visible item that holds the character before the index, or the end. */
  method FindIndex(t: SharedType, index: nat, ghost nodes: seq<Item>, ghost frags: seq<Frag>)
    returns (left: Item?, item: Item?, pos: nat, ghost k: nat)
    requires IsText(t, nodes, frags) && index > 0
    ensures k <= |nodes| == |frags| && item == NodeAt(nodes, k) && pos == |Live(frags[..k])| < index
    ensures item == null ==> k == |nodes| && left == NodeBefore(nodes, LastLive(frags, |frags|))
    ensures item != null ==> k < |nodes| && nodes[k] == item && !item.deleted && index <= pos + item.length
  {
    hide Live, UnitsOf, Linked, OwnedBy;
    pos, left, item, k := 0, null, t.start, 0;
    assert Live(frags[..0]) == [] by { LiveNone([]); }
    while item != null
      invariant k <= |nodes| && item == NodeAt(nodes, k) && left == NodeBefore(nodes, LastLive(frags, k))
      invariant pos == |Live(frags[..k])| < index
      decreases |nodes| - k
    {
      LinkedAt(nodes, k);
      assert frags[k] in frags;
      LiveAt(frags, k);
      if item.deleted {
        OneDeleted(frags[k]);
      } else {
        LastUnit(frags[k].cell);
        if pos + item.length >= index {
          return;
        }
        pos := pos + item.length;
        left := item;
      }
      item := item.right;
      k := k + 1;
    }
  }

  /** The index is right after an item: its right neighbour is the next visible one. */
  method AfterItem(t: SharedType, item: Item, ghost nodes: seq<Item>, ghost frags: seq<Frag>, ghost k: nat) returns (right: Item?)
    requires IsText(t, nodes, frags) && k < |nodes| == |frags| && nodes[k] == item && !item.deleted
    ensures right == NodeAt(nodes, NextLive(frags, k + 1))
    ensures var n := |Live(frags[..k])| + item.length;
            n <= |Live(frags)| && Gap(frags, k + 1, NextLive(frags, k + 1), Live(frags), n)
  {
    hide Live, UnitsOf;
    assert Joined(nodes, k) && frags[k] in frags;
    LiveAt(frags, k);
    LastUnit(frags[k].cell);
    LiveParts(frags, k + 1);
    GapAt(frags, k + 1, NextLive(frags, k + 1));
    right := LiveRight(item.right, nodes, frags, k + 1);
  }

  /** The index is inside an item, which is split there. */
  method InsideItem(t: SharedType, store: StructStore, item: Item, offset: nat, ghost nodes: seq<Item>, ghost frags: seq<Frag>, ghost k: nat)
    returns (right: Item, ghost longer: seq<Item>, ghost parts: seq<Frag>)
    requires IsText(t, nodes, frags) && k < |nodes| == |frags| && nodes[k] == item && !item.deleted && 0 < offset < item.length
    modifies store`clients, item`content, item`length, item`right, Next(item)`left
    ensures IsText(t, longer, parts) && store.clients == Added(old(store.clients), [right]) && fresh(right)
    ensures k + 1 < |longer| == |parts| && longer[k + 1] == right && Starts(longer, nodes, k + 1)
    ensures longer == InsertAt(nodes, k + 1, right) && MayCut(frags[k], offset) && parts == SplitFrag(frags, k, offset)
    ensures item.right == right && right.right == old(item.right)
    ensures Among(longer, nodes, [right])
    ensures var n := |Live(frags[..k])| + offset; n <= |Live(frags)| && Gap(parts, k + 1, k + 1, Live(frags), n)
  {
    hide Live, UnitsOf, SplitFrag, Added, IsText, InsertAt, Gap, LastLive;
    ReadText(t, nodes, frags);
    assert Joined(nodes, k) && nodes[k] in nodes && frags[k] in frags;
    assert item.right != null ==> item.right in nodes;
    GapInside(frags, k, offset);
    var left;
    left, right := SplitItemAt(t, store, item, offset, nodes, frags, k);
    longer, parts := InsertAt<Item>(nodes, k + 1, right), SplitFrag(frags, k, offset);
    InsertAfter(nodes, k, right);
    InsertedAmong(nodes, k + 1, right);
    ReadText(t, longer, parts);
    ReadNode(t, longer, parts, k);
    ReadNode(t, longer, parts, k + 1);
  }

  lemma InsideReach(nodes: seq<Item>, k: nat)
    requires Linked(nodes) && k < |nodes|
    ensures nodes[k] in nodes && (nodes[k].right != null ==> nodes[k].right in nodes)
  {
    assert Joined(nodes, k);
  }

  /** No item was split. */
  lemma NothingOpened(nodes: seq<Item>, frags: seq<Frag>, e: Edit, k: nat)
    requires ShowsFrags(nodes, frags) && TextFrags(frags) && e.Ins? && k <= |frags| && |Live(frags[..k])| <= e.index
    requires k < |frags| ==> e.index <= |Live(frags[..k])| + |Shown(frags[k])|
    requires k < |frags| && !frags[k].deleted ==> e.index == |Live(frags[..k])| || |Live(frags[..k])| + frags[k].cell.len == e.index
    ensures Edited(nodes, frags, e)
  {
    hide Live, Shown;
    WithinOnly(frags, k, e.index);
  }

  /** Item k was split at the index. */
  lemma OneOpened(nodes: seq<Item>, frags: seq<Frag>, e: Edit, k: nat, right: Item)
    requires |nodes| == |frags| && TextFrags(frags) && e.Ins? && e.text != [] && Within(frags, k, e.index)
    requires MayCut(frags[k], e.index - |Live(frags[..k])|)
    requires |nodes| == |frags| && ShowsFrags(InsertAt(nodes, k + 1, right), SplitFrag(frags, k, e.index - |Live(frags[..k])|))
    ensures Edited(nodes, frags, e)
  {
    hide Live;
    assert frags[k] in frags;
    LiveShown(frags, k);
    WithinOnly(frags, k, e.index);
    var longer, parts := InsertAt(nodes, k + 1, right), SplitFrag(frags, k, e.index - |Live(frags[..k])|);
    forall j | 0 <= j < |nodes| ensures nodes[j].AsCell() == Shortened(frags, j, e) {
      var i := if j <= k then j else j + 1;
      assert longer[i] == nodes[j] && Frag(longer[i].AsCell(), longer[i].deleted) == parts[i];
    }
  }

  lemma NothingBefore(nodes: seq<Item>, frags: seq<Frag>, e: Edit)
    requires ShowsFrags(nodes, frags) && TextFrags(frags) && e.Ins? && e.index == 0
    ensures Edited(nodes, frags, e)
  {
  }

  lemma LiveShown(frags: seq<Frag>, k: nat)
    requires TextFrags(frags) && k < |frags| && !frags[k].deleted
    ensures |Shown(frags[k])| == frags[k].cell.len
  {
    assert frags[k] in frags;
    LastUnit(frags[k].cell);
  }

  /** The index is in an item, or right after it. */
  method OpenItem(t: SharedType, store: StructStore, item: Item, offset: nat, ghost nodes: seq<Item>, ghost frags: seq<Frag>,
                  ghost k: nat, ghost e: Edit, ghost own: seq<Item>)
    returns (right: Item?, ghost longer: seq<Item>, ghost parts: seq<Frag>, ghost q: nat, ghost added: seq<Item>)
    requires IsText(t, nodes, frags) && e.Ins? && e.text != [] && k < |nodes| == |frags| && nodes[k] == item && !item.deleted
    requires 0 < offset <= item.length && e.index == |Live(frags[..k])| + offset
    modifies store`clients, item`content, item`length, item`right, Next(item)`left
    ensures IsText(t, longer, parts) && store.clients == Added(old(store.clients), added)
    ensures e.index <= |Live(frags)| && k + 1 <= q <= |longer| == |parts| && Gap(parts, k + 1, q, Live(frags), e.index)
    ensures longer[k] == item && right == NodeAt(longer, q) && Among(longer, nodes, added) && forall n :: n in added ==> fresh(n)
    ensures Edited(nodes, frags, e) && |nodes| == |frags| && Inner(longer, parts, own) == Halved(Inner(nodes, frags, own), e.index)
  {
    hide Live, UnitsOf, SplitFrag, InsertAt, Added, Gap, IsText, NextLive, Edited, Shown, Linked, ShowsFrags, TextFrags, Inner, Halved;
    longer, parts, added := nodes, frags, [];
    AddedNone(store.clients);
    ReadText(t, nodes, frags);
    ReadNode(t, nodes, frags, k);
    if offset == item.length {
      q := NextLive(frags, k + 1);
      right := AfterItem(t, item, nodes, frags, k);
      LiveShown(frags, k);
      NothingOpened(nodes, frags, e, k);
      LiveAt(frags, k);
      WholeHalved(nodes, frags, own, k + 1);
    } else {
      right, longer, parts := InsideItem(t, store, item, offset, nodes, frags, k);
      q, added := k + 1, [right];
      ReadText(t, longer, parts);
      OneOpened(nodes, frags, e, k, right);
      SplitHalved<Item>(nodes, frags, own, k, offset, right);
    }
  }

  /** Text.findPositionAt, with the list it leaves: if the index is inside an item, the item was split. */
  method FindPositionAt(t: SharedType, store: StructStore, index: nat, ghost nodes: seq<Item>, ghost frags: seq<Frag>, ghost kept: seq<Item>,
                        ghost e: Edit, ghost own: seq<Item>)
    returns (left: Item?, right: Item?, ghost longer: seq<Item>, ghost parts: seq<Frag>, ghost p: nat, ghost q: nat, ghost added: seq<Item>)
    requires IsText(t, nodes, frags) && AllDeleted(kept) && e.Ins? && e.index == index && e.text != []
    modifies store`clients, nodes`content, nodes`length, nodes`left, nodes`right
    ensures IsText(t, longer, parts) && store.clients == Added(old(store.clients), added)
    ensures Gap(parts, p, q, Live(frags), Min(index, |Live(frags)|)) && p <= q <= |longer| == |parts|
    ensures left == NodeBefore(longer, p) && right == NodeAt(longer, q)
    ensures Among(longer, nodes, added)
    ensures forall n :: n in added ==> fresh(n)
    ensures Says(kept) == old(Says(kept)) && AllDeleted(kept)
    ensures Edited(nodes, frags, e)
    ensures |nodes| == |frags| && Inner(longer, parts, own) == Halved(Inner(nodes, frags, own), Min(index, |Live(frags)|))
  {
    hide Live, UnitsOf, SplitFrag, InsertAt, Added, Gap, IsText, LastLive, NextLive, Says, Edited, Shown, Inner, Halved;
    longer, parts, added := nodes, frags, [];
    AddedNone(store.clients);
    ReadText(t, nodes, frags);
    if index == 0 {
      left, p := null, 0;
      right, q := FindStart(t, nodes, frags);
      NothingBefore(nodes, frags, e);
      AtStart(nodes, frags, own);
      return;
    }
    var item, pos; ghost var k;
    left, item, pos, k := FindIndex(t, index, nodes, frags);
    if item == null {
      right := null;
      p, q := LastLive(frags, |frags|), |frags|;
      GapEnd(frags);
      assert frags[..k] == frags;
      NothingOpened(nodes, frags, e, k);
      WholeHalved(nodes, frags, own, k);
    } else {
      InsideReach(nodes, k);
      right, longer, parts, q, added := OpenItem(t, store, item, index - pos, nodes, frags, k, e, own);
      left, p := item, k + 1;
    }
  }

  /** The list that an insertion makes: the nodes between p and q are gone from it. */
  function Spliced(nodes: seq<Item>, p: nat, q: nat, item: Item): seq<Item>
    requires p <= q <= |nodes|
  {
    nodes[..p] + [item] + nodes[q..]
  }

  /** The neighbours of the gap point to the new item, all other links are as before. */
  ghost predicate Bridged(nodes: seq<Item>, i: nat, p: nat, q: nat, item: Item)
    requires i < |nodes|
    reads nodes`left, nodes`right
  {
    && nodes[i].left == (if i == q then item else NodeBefore(nodes, i))
    && nodes[i].right == (if i + 1 == p then item else NodeAt(nodes, i + 1))
  }

  lemma SplicedAt(nodes: seq<Item>, p: nat, q: nat, item: Item, i: nat)
    requires p <= q <= |nodes| && i < |Spliced(nodes, p, q, item)|
    ensures Spliced(nodes, p, q, item)[i] == if i < p then nodes[i] else if i == p then item else nodes[i + q - p - 1]
  {
  }

  lemma SplicedHas(nodes: seq<Item>, p: nat, q: nat, item: Item)
    requires p <= q <= |nodes|
    ensures item in Spliced(nodes, p, q, item)
  {
    assert Spliced(nodes, p, q, item)[p] == item;
  }

  /** The item has no deleted neighbour. */
  ghost predicate TightAt(nodes: seq<Item>, frags: seq<Frag>, item: Item) {
    |nodes| == |frags| && forall i :: 0 <= i < |nodes| && nodes[i] == item ==> Tight(frags, i)
  }

  /** The deleted items of the gap are gone: the new item has visible neighbours only. */
  lemma SplicedTight(nodes: seq<Item>, frags: seq<Frag>, p: nat, q: nat, item: Item, c: Cell, live: seq<Unit>, n: nat)
    requires |nodes| == |frags| && p <= q <= |nodes| && item !in nodes && Gap(frags, p, q, live, n)
    ensures TightAt(Spliced(nodes, p, q, item), Insertion(frags, p, q, c), item)
  {
    hide Gap;
    var list := Spliced(nodes, p, q, item);
    InsertionTight(frags, p, q, live, n, c);
    forall i | 0 <= i < |list| && list[i] == item ensures i == p {
      SplicedAt(nodes, p, q, item, i);
    }
  }

  lemma DistinctSpliced(nodes: seq<Item>, p: nat, q: nat, item: Item)
    requires Distinct(nodes) && item !in nodes && p <= q <= |nodes|
    ensures Distinct(Spliced(nodes, p, q, item))
  {
    var list := Spliced(nodes, p, q, item);
    forall i, j | 0 <= i < j < |list| ensures list[i] != list[j] {
      SplicedAt(nodes, p, q, item, i);
      SplicedAt(nodes, p, q, item, j);
    }
  }

  lemma LinkedAfterSplice(nodes: seq<Item>, p: nat, q: nat, item: Item)
    requires Distinct(nodes) && item !in nodes && p <= q <= |nodes|
    requires item.left == NodeBefore(nodes, p) && item.right == NodeAt(nodes, q)
    requires forall i :: (0 <= i < p || q <= i < |nodes|) ==> Bridged(nodes, i, p, q, item)
    ensures Linked(Spliced(nodes, p, q, item))
  {
    var list := Spliced(nodes, p, q, item);
    forall i | 0 <= i < |list| ensures Joined(list, i) {
      SplicedAt(nodes, p, q, item, i);
      if i > 0 { SplicedAt(nodes, p, q, item, i - 1); }
      if i + 1 < |list| { SplicedAt(nodes, p, q, item, i + 1); }
      if i < p {
        assert Bridged(nodes, i, p, q, item);
      } else if i > p {
        assert Bridged(nodes, i + q - p - 1, p, q, item);
      }
    }
    DistinctSpliced(nodes, p, q, item);
  }

  /** Link a new item between two nodes; the nodes between them are no longer reached. */
  method Bridge(t: SharedType, item: Item, left: Item?, splitRight: Item?, ghost nodes: seq<Item>, ghost p: nat, ghost q: nat)
    requires Linked(nodes) && item !in nodes && p <= q <= |nodes| && t.start == HeadOf(nodes)
    requires left == NodeBefore(nodes, p) && splitRight == NodeAt(nodes, q)
    modifies t`start, item`left, item`right, nodes`left, nodes`right
    ensures Linked(Spliced(nodes, p, q, item)) && t.start == HeadOf(Spliced(nodes, p, q, item))
  {
    item.left := left;
    item.right := splitRight;
    if left != null {
      left.right := item;
    } else {
      t.start := item;
    }
    if splitRight != null {
      splitRight.left := item;
    }
    forall i | 0 <= i < p || q <= i < |nodes| ensures Bridged(nodes, i, p, q, item) {
      assert old(Joined(nodes, i));
    }
    LinkedAfterSplice(nodes, p, q, item);
  }

  /** The cell of an inserted text: its origin is the visible character before the index. */
  function Typed(name: Name, clientID: nat, clock: nat, live: seq<Unit>, n: nat, s: seq<Rune>): Cell
    requires n <= |live|
  {
    Cell(Id(clientID, clock), |s|, if n == 0 then None else Some(live[n - 1].id), None, Some(name), None, Str(s))
  }

  /** The new item of an insertion, not linked yet. */
  method NewText(t: SharedType, clientID: nat, clock: nat, left: Item?, s: seq<Rune>, ghost nodes: seq<Item>,
                 ghost frags: seq<Frag>, ghost p: nat, ghost q: nat, ghost live: seq<Unit>, ghost n: nat) returns (item: Item)
    requires IsText(t, nodes, frags) && Gap(frags, p, q, live, n) && s != []
    requires p <= |nodes| && left == NodeBefore(nodes, p)
    ensures fresh(item) && item.AsCell() == Typed(t.name, clientID, clock, live, n, s) && !item.deleted && item.parent == t
  {
    hide Gap;
    if p > 0 {
      GapOrigin(frags, p, q, live, n);
      assert frags[p - 1] in frags && Frag(left.AsCell(), left.deleted) == frags[p - 1];
    } else {
      GapHead(frags, q, live, n);
    }
    var originLeft := None;
    if left != null {
      originLeft := Some(Id(left.id.client, left.id.clock + left.length - 1));
    }
    item := new Item(Id(clientID, clock), originLeft, None, None, None, t, Str(s), |s|);
  }

  lemma GapHead(frags: seq<Frag>, q: nat, live: seq<Unit>, n: nat)
    requires Gap(frags, 0, q, live, n)
    ensures n == 0
  {
  }

  lemma SplicedShows(t: SharedType, nodes: seq<Item>, frags: seq<Frag>, p: nat, q: nat, item: Item)
    requires ShowsFrags(nodes, frags) && OwnedBy(t, nodes) && TextFrags(frags) && p <= q <= |nodes|
    requires item.parent == t && !item.deleted && item.content.Str? && Sized(item.AsCell())
    ensures var list, parts := Spliced(nodes, p, q, item), Insertion(frags, p, q, item.AsCell());
            ShowsFrags(list, parts) && OwnedBy(t, list) && TextFrags(parts) && |list| == |parts|
  {
    var list, parts := Spliced(nodes, p, q, item), Insertion(frags, p, q, item.AsCell());
    forall i | 0 <= i < |list| ensures Frag(list[i].AsCell(), list[i].deleted) == parts[i] && list[i].parent == t {
      SplicedAt(nodes, p, q, item, i);
    }
  }

  /** Linking changes nothing that the items say. */
  method BridgeShown(t: SharedType, item: Item, left: Item?, splitRight: Item?, ghost nodes: seq<Item>, ghost p: nat, ghost q: nat,
                     ghost list: seq<Item>, ghost parts: seq<Frag>)
    requires Linked(nodes) && item !in nodes && p <= q <= |nodes| && t.start == HeadOf(nodes)
    requires left == NodeBefore(nodes, p) && splitRight == NodeAt(nodes, q)
    requires ShowsFrags(list, parts) && OwnedBy(t, list)
    modifies t`start, item`left, item`right, nodes`left, nodes`right
    ensures Linked(Spliced(nodes, p, q, item)) && t.start == HeadOf(Spliced(nodes, p, q, item))
    ensures ShowsFrags(list, parts) && OwnedBy(t, list)
  {
    hide Linked, Spliced;
    Bridge(t, item, left, splitRight, nodes, p, q);
  }

  /** The linking of an insertion, on the list and on what it says. */
  method LinkText(t: SharedType, item: Item, left: Item?, right: Item?, ghost nodes: seq<Item>, ghost frags: seq<Frag>,
                  ghost p: nat, ghost q: nat)
    requires IsText(t, nodes, frags) && item !in nodes && p <= q <= |nodes| && item.parent == t && !item.deleted
    requires item.content.Str? && Sized(item.AsCell())
    requires left == NodeBefore(nodes, p) && right == NodeAt(nodes, q)
    modifies t`start, item`left, item`right, nodes`left, nodes`right
    ensures IsText(t, Spliced(nodes, p, q, item), Insertion(frags, p, q, item.AsCell()))
  {
    hide Linked, Spliced, Insertion, ShowsFrags, OwnedBy, TextFrags;
    SplicedShows(t, nodes, frags, p, q, item);
    BridgeShown(t, item, left, right, nodes, p, q, Spliced(nodes, p, q, item), Insertion(frags, p, q, item.AsCell()));
  }

  lemma SpliceAmong(longer: seq<Item>, p: nat, q: nat, item: Item, nodes: seq<Item>, added: seq<Item>)
    requires p <= q <= |longer| && Among(longer, nodes, added)
    ensures Among(Spliced(longer, p, q, item), nodes, added + [item])
  {
  }

  /** The new item of an insertion enters the store, the list and the transaction. */
  method Place(t: SharedType, store: StructStore, tx: Transaction, item: Item, left: Item?, splitRight: Item?, ghost nodes: seq<Item>,
               ghost frags: seq<Frag>, ghost p: nat, ghost q: nat, ghost live: seq<Unit>, ghost n: nat)
    requires IsText(t, nodes, frags) && Gap(frags, p, q, live, n) && p <= q <= |nodes| == |frags|
    requires item !in nodes && item.parent == t && !item.deleted && item.content.Str? && Sized(item.AsCell())
    requires left == NodeBefore(nodes, p) && splitRight == NodeAt(nodes, q)
    modifies t`start, store`clients, tx`pendingItems, item`left, item`right, nodes`left, nodes`right
    ensures IsText(t, Spliced(nodes, p, q, item), Insertion(frags, p, q, item.AsCell()))
    ensures item in Spliced(nodes, p, q, item) && TightAt(Spliced(nodes, p, q, item), Insertion(frags, p, q, item.AsCell()), item)
    ensures Live(Insertion(frags, p, q, item.AsCell())) == live[..n] + UnitsOf(item.AsCell()) + live[n..]
    ensures store.clients == Added(old(store.clients), [item]) && tx.pendingItems == old(tx.pendingItems) + [item]
  {
    hide Live, UnitsOf, Gap, IsText, Added, Spliced, Insertion, TightAt;
    ghost var list, parts := Spliced(nodes, p, q, item), Insertion(frags, p, q, item.AsCell());
    SplicedHas(nodes, p, q, item);
    SplicedTight(nodes, frags, p, q, item, item.AsCell(), live, n);
    InsertionShows(frags, p, q, live, n, item.AsCell());
    AddedOne(store.clients, item);
    store.AddItem(item);
    LinkText(t, item, left, splitRight, nodes, frags, p, q);
    assert IsText(t, list, parts);
    tx.AddItem(item);
    assert IsText(t, list, parts);
  }

  /**
   * Text.Insert: at the index, or at the end of the text if that is shorter, the characters of the
   * new item are added to the visible ones, and nothing else changes. The item takes the next
   * clock of the client and is recorded for the update.
   */
  method Insert(t: SharedType, store: StructStore, clientID: nat, tx: Transaction, index: nat, s: seq<Rune>,
                ghost nodes: seq<Item>, ghost frags: seq<Frag>)
    returns (ghost longer: seq<Item>, ghost parts: seq<Frag>, ghost added: seq<Item>)
    requires IsText(t, nodes, frags) && AllDeleted(tx.pendingDeletes)
    modifies t`start, store`clients, tx`pendingItems, nodes`content, nodes`length, nodes`left, nodes`right
    ensures IsText(t, longer, parts) && Among(longer, nodes, added) && forall n :: n in added ==> fresh(n)
    ensures s == [] ==> longer == nodes && parts == frags && added == [] && tx.pendingItems == old(tx.pendingItems)
    ensures s != [] ==>
      var live, n := Live(frags), Min(index, |Live(frags)|);
      var origin := if n == 0 then None else Some(live[n - 1].id);
      var c := Cell(Id(clientID, old(store.GetState(clientID))), |s|, origin, None, Some(t.name), None, Str(s));
      && Live(parts) == live[..n] + UnitsOf(c) + live[n..]
      && added != [] && added[|added| - 1].AsCell() == c && tx.pendingItems == old(tx.pendingItems) + [added[|added| - 1]]
      && added[|added| - 1] in longer && !added[|added| - 1].deleted && TightAt(longer, parts, added[|added| - 1])
    ensures store.clients == Added(old(store.clients), added)
    ensures AllDeleted(tx.pendingDeletes) && Says(tx.pendingDeletes) == old(Says(tx.pendingDeletes))
    ensures Edited(nodes, frags, Ins(index, s))
    ensures |nodes| == |frags| && |longer| == |parts|
    ensures Inner(longer, parts, tx.pendingItems) == AfterEdit(Inner(nodes, frags, old(tx.pendingItems)), Ins(index, s))
  {
    hide Live, UnitsOf, Gap, IsText, Added, Spliced, Insertion, Says, Edited, Inner, Loose, OneItem, TightAt, Halved;
    ReadText(t, nodes, frags);
    longer, parts, added := nodes, frags, [];
    if s == [] {
      AddedNone(store.clients);
      NoEdit(nodes, frags, Ins(index, s));
      return;
    }
    ghost var live, n, seams := Live(frags), Min(index, |Live(frags)|), Inner(nodes, frags, tx.pendingItems);
    var clock := store.GetState(clientID);
    var left, splitRight; ghost var p, q;
    left, splitRight, longer, parts, p, q, added :=
      FindPositionAt(t, store, index, nodes, frags, tx.pendingDeletes, Ins(index, s), tx.pendingItems);
    var item := NewText(t, clientID, clock, left, s, longer, parts, p, q, live, n);
    SpliceAmong(longer, p, q, item, nodes, added);
    AddedAll(old(store.clients), added, [item]);
    assert forall i :: 0 <= i < |longer| ==> longer[i] in nodes || fresh(longer[i]);
    SpliceInner(longer, parts, tx.pendingItems, p, q, item, live, n, seams);
    Place(t, store, tx, item, left, splitRight, longer, parts, p, q, live, n);
    longer, parts, added := Spliced(longer, p, q, item), Insertion(parts, p, q, item.AsCell()), added + [item];
  }

  /** The characters of the list that an insertion makes. */
  lemma SpliceInner(nodes: seq<Item>, frags: seq<Frag>, own: seq<Item>, p: nat, q: nat, item: Item, live: seq<Unit>, n: nat, seams: seq<bool>)
    requires Gap(frags, p, q, live, n) && p <= q <= |nodes| == |frags| && |seams| == |live| && Inner(nodes, frags, own) == Halved(seams, n)
    requires item !in own && item !in nodes && item.content.Str? && Sized(item.AsCell())
    ensures var longer, parts := Spliced(nodes, p, q, item), Insertion(frags, p, q, item.AsCell());
            && |longer| == |parts|
            && Inner(longer, parts, own + [item]) == seams[..n] + OneItem(true, item.length) + Loose(seams[n..])
  {
    hide Live, Inner, OneItem, Loose;
    InsertInner(nodes, frags, own, p, q, item, item.AsCell(), n);
  }

  lemma NoEdit(nodes: seq<Item>, frags: seq<Frag>, e: Edit)
    requires ShowsFrags(nodes, frags) && TextFrags(frags) && (e.Ins? ==> e.text == []) && (e.Del? ==> e.length == 0)
    ensures Edited(nodes, frags, e)
  {
  }

  /** The flag of one item of the list. */
  method MarkNode(item: Item, ghost nodes: seq<Item>, ghost frags: seq<Frag>, ghost k: nat)
    requires ShowsFrags(nodes, frags) && Distinct(nodes) && k < |nodes| == |frags| && nodes[k] == item
    modifies item`deleted
    ensures ShowsFrags(nodes, MarkFrag(frags, k)) && item.deleted
  {
    item.deleted := true;
  }

  lemma MarkKeepsText(frags: seq<Frag>, k: nat)
    requires TextFrags(frags) && k < |frags|
    ensures TextFrags(MarkFrag(frags, k)) && |MarkFrag(frags, k)| == |frags|
  {
  }

  /** Mark one item of the list deleted and record it. */
  method MarkItem(t: SharedType, tx: Transaction, item: Item, ghost nodes: seq<Item>, ghost frags: seq<Frag>, ghost k: nat)
    requires IsText(t, nodes, frags) && k < |nodes| == |frags| && nodes[k] == item && !item.deleted && AllDeleted(tx.pendingDeletes)
    modifies item`deleted, tx`pendingDeletes
    ensures IsText(t, nodes, MarkFrag(frags, k)) && AllDeleted(tx.pendingDeletes) && item.deleted
    ensures tx.pendingDeletes == old(tx.pendingDeletes) + [item]
  {
    hide UnitsOf, Linked, TextFrags, MarkFrag;
    LinkedAt(nodes, k);
    MarkKeepsText(frags, k);
    hide ShowsFrags;
    MarkNode(item, nodes, frags, k);
    assert Linked(nodes);
    tx.AddDeletedItem(item);
    assert Linked(nodes) && ShowsFrags(nodes, MarkFrag(frags, k));
  }

  lemma DeleteClips(frags: seq<Frag>, k: nat, remaining: nat)
    requires k < |frags| && !frags[k].deleted && TextFrags(frags) && remaining > 0
    ensures frags[k] in frags && |DeleteAt(frags, k, remaining)| > k
    ensures var c := DeleteAt(frags, k, remaining)[k].cell; c == Clip(frags[k].cell, remaining) && c.content.Str? && Sized(c)
  {
    assert frags[k] in frags;
  }

  /** Delete up to `remaining` characters of a visible item, from its start on. */
  method DeleteItem(t: SharedType, store: StructStore, tx: Transaction, item: Item, remaining: nat,
                    ghost nodes: seq<Item>, ghost frags: seq<Frag>, ghost k: nat)
    returns (toDelete: nat, ghost longer: seq<Item>, ghost added: seq<Item>)
    requires IsText(t, nodes, frags) && k < |nodes| == |frags| && nodes[k] == item && !item.deleted && AllDeleted(tx.pendingDeletes)
    requires frags[k] in frags && remaining > 0
    modifies store`clients, tx`pendingDeletes, item`content, item`length, item`right, item`deleted, Next(item)`left
    ensures toDelete == Min(old(item.length), remaining) && Starts(longer, nodes, k + 1)
    ensures IsText(t, longer, DeleteAt(frags, k, remaining)) && AllDeleted(tx.pendingDeletes)
    ensures |DeleteAt(frags, k, remaining)| > k && item.AsCell() == DeleteAt(frags, k, remaining)[k].cell
    ensures item.deleted && tx.pendingDeletes == old(tx.pendingDeletes) + [item]
    ensures toDelete == old(item.length) ==> item.right == old(item.right)
    ensures longer == nodes[..k + 1] + added + nodes[k + 1..] && |added| == if frags[k].cell.len > remaining then 1 else 0
    ensures Among(longer, nodes, added) && store.clients == Added(old(store.clients), added) && forall n :: n in added ==> fresh(n)
  {
    hide UnitsOf, IsText, Added, Linked, SplitFrag, Live, DeleteAt;
    ReadNode(t, nodes, frags, k);
    longer, added := nodes, [];
    AddedNone(store.clients);
    ghost var parts := frags;
    toDelete := item.length;
    if toDelete > remaining {
      var right;
      right, longer, parts := InsideItem(t, store, item, remaining, nodes, frags, k);
      added := [right];
      toDelete := remaining;
      Wedged(nodes, k, right);
    } else {
      NothingWedged(nodes, k);
    }
    DeleteAtIs(frags, parts, k, remaining);
    MarkItem(t, tx, item, longer, parts, k);
    ReadNode(t, longer, DeleteAt(frags, k, remaining), k);
  }

  lemma Wedged(nodes: seq<Item>, k: nat, right: Item)
    requires k < |nodes|
    ensures InsertAt(nodes, k + 1, right) == nodes[..k + 1] + [right] + nodes[k + 1..]
  {
  }

  lemma NothingWedged(nodes: seq<Item>, k: nat)
    requires k < |nodes|
    ensures nodes == nodes[..k + 1] + [] + nodes[k + 1..]
  {
  }

  lemma WedgedTwice(nodes: seq<Item>, k: nat, right: Item, one: seq<Item>, more: seq<Item>)
    requires k < |nodes| && one == InsertAt(nodes, k + 1, right)
    ensures one[..k + 2] + more + one[k + 2..] == nodes[..k + 1] + ([right] + more) + nodes[k + 1..]
  {
  }

  lemma DeleteAtIs(frags: seq<Frag>, parts: seq<Frag>, k: nat, remaining: nat)
    requires k < |frags| && !frags[k].deleted && frags[k].cell.content.Str? && Sized(frags[k].cell) && remaining > 0
    requires parts == if frags[k].cell.len > remaining then SplitFrag(frags, k, remaining) else frags
    ensures k < |parts| && DeleteAt(frags, k, remaining) == MarkFrag(parts, k)
  {
  }

  /** A visible node of a text, its neighbour, and what it says. */
  lemma ReadNode(t: SharedType, nodes: seq<Item>, frags: seq<Frag>, k: nat)
    requires IsText(t, nodes, frags) && k < |nodes|
    ensures |nodes| == |frags| && TextFrags(frags) && frags[k] in frags && frags[k].deleted == nodes[k].deleted
    ensures frags[k].cell == nodes[k].AsCell() && nodes[k] in nodes
    ensures nodes[k].right == NodeAt(nodes, k + 1)
  {
    assert Joined(nodes, k);
  }

  lemma AmongAt(longer: seq<Item>, nodes: seq<Item>, added: seq<Item>)
    requires Among(longer, nodes, added)
    ensures forall i :: 0 <= i < |longer| ==> longer[i] in nodes || longer[i] in added
  {
  }

  lemma {:induction false} AddedAll(clients: map<nat, seq<Item>>, items: seq<Item>, more: seq<Item>)
    ensures Added(clients, items + more) == Added(Added(clients, items), more)
    decreases |items|
  {
    if items == [] {
      assert items + more == more;
    } else {
      AddedOne(clients, items[0]);
      AddedAll(Added(clients, [items[0]]), items[1..], more);
      assert (items + more)[1..] == items[1..] + more;
    }
  }

  lemma NothingGone(live: seq<Unit>, i: nat)
    requires i <= |live|
    ensures live[..i] + live[i..] == live && live[i..i] == []
  {
  }

  lemma AmongOnward(longest: seq<Item>, longer: seq<Item>, nodes: seq<Item>, added: seq<Item>, more: seq<Item>, n: nat)
    requires Among(longer, nodes, added) && Among(longest, longer, more)
    ensures Among(longest, nodes, added + more)
    ensures Starts(longer, nodes, n) && Starts(longest, longer, n + 1) ==> Starts(longest, nodes, n)
  {
  }

  /** An item that reaches over the start of the range: split it there and delete from its right part. */
  method DeleteRight(t: SharedType, store: StructStore, tx: Transaction, item: Item, offset: nat, remaining: nat,
                     ghost nodes: seq<Item>, ghost frags: seq<Frag>, ghost k: nat)
    returns (toDelete: nat, right: Item, ghost longer: seq<Item>, ghost parts: seq<Frag>, ghost added: seq<Item>)
    requires IsText(t, nodes, frags) && k < |nodes| == |frags| && nodes[k] == item && !item.deleted && AllDeleted(tx.pendingDeletes)
    requires frags[k] in frags && remaining > 0 && 0 < offset < item.length
    modifies store`clients, tx`pendingDeletes, item`content, item`length, item`right, Next(item)`left
    ensures MayCut(frags[k], offset)
    ensures var split := SplitFrag(frags, k, offset);
            && |split| > k + 1 && split[k + 1] in split && TextFrags(split) && !split[k + 1].deleted
            && parts == DeleteAt(split, k + 1, remaining) && |parts| > k + 1 && toDelete == Min(split[k + 1].cell.len, remaining)
            && right.AsCell() == parts[k + 1].cell && item.AsCell() == split[k].cell
    ensures fresh(right) && right.deleted && item.right == right && tx.pendingDeletes == old(tx.pendingDeletes) + [right]
    ensures toDelete < remaining ==> right.right == old(item.right)
    ensures longer == nodes[..k + 1] + added + nodes[k + 1..] && |added| == if frags[k].cell.len - offset > remaining then 2 else 1
    ensures IsText(t, longer, parts) && Starts(longer, nodes, k + 1) && AllDeleted(tx.pendingDeletes)
    ensures Among(longer, nodes, added) && store.clients == Added(old(store.clients), added) && forall n :: n in added ==> fresh(n)
  {
    hide UnitsOf, IsText, Added, Linked, SplitFrag, Live, Gap, ShowsFrags, DeleteAt, Starts, Among, InsertAt;
    ReadNode(t, nodes, frags, k);
    right, longer, parts := InsideItem(t, store, item, offset, nodes, frags, k);
    ghost var one, more := longer, [];
    SplitParts(frags, k, offset);
    ReadNode(t, one, parts, k + 1);
    InsertAfter(nodes, k, right);
    ReadNode(t, one, parts, k);
    toDelete, longer, more := DeleteItem(t, store, tx, right, remaining, one, parts, k + 1);
    parts := DeleteAt(parts, k + 1, remaining);
    added := [right] + more;
    WedgedTwice(nodes, k, right, one, more);
    AddedAll(old(store.clients), [right], more);
    AmongOnward(longer, one, nodes, [right], more, k + 1);
  }

  predicate TextCells(cells: seq<Cell>) {
    forall c :: c in cells ==> c.content.Str? && Sized(c)
  }

  /** What was recorded since the first n items are strings with these characters; the first n are as before. */
  ghost predicate RecordedSince(items: seq<Item>, n: nat, before: seq<Cell>, gone: seq<Unit>)
    reads items`parent, items`content, items`length
  {
    && n <= |items| && Says(items[..n]) == before
    && TextCells(Says(items[n..])) && Units(Says(items[n..])) == gone
  }

  lemma {:induction false} UnitsSnoc(cells: seq<Cell>, c: Cell)
    ensures Units(cells + [c]) == Units(cells) + UnitsOf(c)
  {
    hide UnitsOf;
    if cells == [] {
      assert cells + [c] == [c] && Units([c]) == UnitsOf(c) + Units([c][1..]);
    } else {
      UnitsSnoc(cells[1..], c);
      assert (cells + [c])[1..] == cells[1..] + [c];
    }
  }

  lemma RecordMore(items: seq<Item>, n: nat, before: seq<Cell>, gone: seq<Unit>, item: Item)
    requires RecordedSince(items, n, before, gone) && item.AsCell().content.Str? && Sized(item.AsCell())
    ensures RecordedSince(items + [item], n, before, gone + UnitsOf(item.AsCell()))
  {
    hide UnitsOf, Units, Says;
    assert (items + [item])[..n] == items[..n] && (items + [item])[n..] == items[n..] + [item];
    SaysMore(items[n..], item);
    UnitsSnoc(Says(items[n..]), item.AsCell());
  }

  /** What Text.Delete keeps from one item to the next. */
  ghost predicate Deleting(t: SharedType, tx: Transaction, item: Item?, nodes: seq<Item>, frags: seq<Frag>, k: nat,
                           live: seq<Unit>, index: nat, length: nat, pos: nat, remaining: nat, kept: seq<Item>, before: seq<Cell>, gone: seq<Unit>)
    reads t`start, nodes`left, nodes`right, nodes`parent, nodes`content, nodes`length, nodes`deleted
    reads tx`pendingDeletes, tx.pendingDeletes`parent, tx.pendingDeletes`content, tx.pendingDeletes`length, tx.pendingDeletes`deleted
  {
    && IsText(t, nodes, frags) && AllDeleted(tx.pendingDeletes)
    && k <= |nodes| == |frags| && item == NodeAt(nodes, k)
    && Walk(live, index, length, frags, k, pos, remaining, gone)
    && kept <= tx.pendingDeletes && RecordedSince(tx.pendingDeletes, |kept|, before, gone)
  }

  lemma StraddleClips(frags: seq<Frag>, k: nat, offset: nat)
    requires k < |frags| && MayCut(frags[k], offset)
    ensures SplitFrag(frags, k, offset)[k].cell == Clip(frags[k].cell, offset)
  {
  }

  /** One visible item of the walk of Text.Delete, which has reached the range. */
  method DeleteVisible(t: SharedType, store: StructStore, tx: Transaction, item: Item, index: nat, pos: nat, remaining: nat,
                       ghost nodes: seq<Item>, ghost frags: seq<Frag>, ghost k: nat, ghost live: seq<Unit>, ghost length: nat,
                       ghost kept: seq<Item>, ghost before: seq<Cell>, ghost gone: seq<Unit>)
    returns (toDelete: nat, ghost longer: seq<Item>, ghost parts: seq<Frag>, ghost added: seq<Item>, ghost more: seq<Unit>)
    requires Deleting(t, tx, item, nodes, frags, k, live, index, length, pos, remaining, kept, before, gone)
    requires k < |nodes| && !item.deleted && remaining > 0 && index < pos + item.length
    modifies store`clients, tx`pendingDeletes, item`content, item`length, item`right, item`deleted, Next(item)`left
    ensures toDelete <= remaining
    ensures k < |longer|
    ensures Deleting(t, tx, NodeAt(longer, k + 1), longer, parts, k + 1, live, index, length, pos + old(item.length), remaining - toDelete,
                     kept, before, more)
    ensures longer[k] == item && Among(longer, nodes, added)
    ensures store.clients == Added(old(store.clients), added) && forall n :: n in added ==> fresh(n)
    ensures item.AsCell() == Clip(old(item.AsCell()), if pos < index then index - pos else remaining)
    ensures toDelete == remaining ==> (if pos < index then index else pos) + remaining <= pos + old(item.length)
    ensures toDelete < remaining ==>
              if pos < index then item.right != null && fresh(item.right) && item.right.deleted && item.right.right == old(item.right)
              else item.right == old(item.right)
    ensures Reshaped(nodes, frags, k, index, pos, remaining, longer, parts, added, toDelete)
  {
    hide Live, UnitsOf, IsText, Added, DeleteAt, SplitFrag, Walk, Among, Linked, ShowsFrags, RecordedSince, Clip;
    ReadNode(t, nodes, frags, k);
    ghost var recorded := tx.pendingDeletes;
    assert item !in recorded;
    if pos < index {
      WalkStraddle(live, index, length, frags, k, pos, remaining, gone);
      StraddleClips(frags, k, index - pos);
      SplitParts(frags, k, index - pos);
      var right;
      toDelete, right, longer, parts, added := DeleteRight(t, store, tx, item, index - pos, remaining, nodes, frags, k);
      DeleteClips(SplitFrag(frags, k, index - pos), k + 1, remaining);
      RecordMore(recorded, |kept|, before, gone, right);
      more := gone + UnitsOf(parts[k + 1].cell);
    } else {
      WalkWithin(live, index, length, frags, k, pos, remaining, gone);
      parts := DeleteAt(frags, k, remaining);
      DeleteClips(frags, k, remaining);
      toDelete, longer, added := DeleteItem(t, store, tx, item, remaining, nodes, frags, k);
      RecordMore(recorded, |kept|, before, gone, item);
      more := gone + UnitsOf(parts[k].cell);
    }
    ReadText(t, longer, parts);
  }

  // Where the walk of Text.Delete is in the list that it started from.

  ghost predicate Chained(rest: seq<Item>)
    reads rest`right
  {
    forall j :: 0 <= j < |rest| ==> rest[j].right == NodeAt(rest, j + 1)
  }

  /** The items that the walk has not reached yet are as they were. */
  ghost predicate Untouched(rest: seq<Item>, frags: seq<Frag>)
    reads rest`right, rest`parent, rest`content, rest`length, rest`deleted
  {
    ShowsFrags(rest, frags) && Chained(rest)
  }

  /** The items that it has passed say what the deletion leaves of them. */
  ghost predicate Passed(done: seq<Item>, frags: seq<Frag>, e: Edit)
    reads done`parent, done`content, done`length
  {
    |done| <= |frags| && forall j :: 0 <= j < |done| ==> done[j].AsCell() == Shortened(frags, j, e)
  }

  /** The walk is at the next original item, or at a right part that it has deleted, just before it. */
  ghost predicate AtNode(nodes: seq<Item>, m: nat, item: Item?)
    requires m <= |nodes|
    reads if item == null then {} else {item}
  {
    item == NodeAt(nodes, m) || (item != null && item !in nodes && item.deleted && item.right == NodeAt(nodes, m))
  }

  ghost predicate Tracking(nodes: seq<Item>, frags: seq<Frag>, m: nat, item: Item?, e: Edit, pos: nat, remaining: nat)
    reads nodes`right, nodes`parent, nodes`content, nodes`length, nodes`deleted, if item == null then {} else {item}
  {
    && e.Del? && e.length > 0 && m <= |nodes| == |frags| && Distinct(nodes) && TextFrags(frags)
    && Passed(nodes[..m], frags, e) && Untouched(nodes[m..], frags[m..]) && pos == |Live(frags[..m])|
    && if remaining > 0 then AtNode(nodes, m, item) else e.index + e.length <= pos
  }

  lemma TrackingStarts(t: SharedType, nodes: seq<Item>, frags: seq<Frag>, e: Edit)
    requires IsText(t, nodes, frags) && e.Del? && e.length > 0
    ensures Tracking(nodes, frags, 0, t.start, e, 0, e.length)
  {
    assert nodes[0..] == nodes && frags[0..] == frags;
    forall j | 0 <= j < |nodes| ensures nodes[j].right == NodeAt(nodes, j + 1) {
      assert Joined(nodes, j);
    }
  }

  /** The rest after one more item. */
  lemma UntouchedRest(nodes: seq<Item>, frags: seq<Frag>, m: nat)
    requires m < |nodes| == |frags| && Untouched(nodes[m..], frags[m..])
    ensures Untouched(nodes[m + 1..], frags[m + 1..])
    ensures nodes[m].AsCell() == frags[m].cell && nodes[m].deleted == frags[m].deleted && nodes[m].right == NodeAt(nodes, m + 1)
  {
    var rest, parts, rest', parts' := nodes[m..], frags[m..], nodes[m + 1..], frags[m + 1..];
    assert rest[0] == nodes[m] && parts[0] == frags[m];
    forall j | 0 <= j < |rest'| ensures Frag(rest'[j].AsCell(), rest'[j].deleted) == parts'[j] && rest'[j].right == NodeAt(rest', j + 1) {
      assert rest[j + 1] == rest'[j] && parts[j + 1] == parts'[j];
    }
  }

  lemma PassedMore(nodes: seq<Item>, frags: seq<Frag>, m: nat, e: Edit)
    requires m < |nodes| == |frags| && Passed(nodes[..m], frags, e) && nodes[m].AsCell() == Shortened(frags, m, e)
    ensures Passed(nodes[..m + 1], frags, e)
  {
    forall j | 0 <= j < m + 1 ensures nodes[..m + 1][j].AsCell() == Shortened(frags, j, e) {
      if j < m { assert nodes[..m][j] == nodes[..m + 1][j]; }
    }
  }

  /** A visible item of the walk is an original one that is as it was. */
  lemma TrackHere(nodes: seq<Item>, frags: seq<Frag>, m: nat, item: Item, e: Edit, pos: nat, remaining: nat)
    requires Tracking(nodes, frags, m, item, e, pos, remaining) && remaining > 0 && !item.deleted
    ensures m < |nodes| && nodes[m] == item && item.AsCell() == frags[m].cell && !frags[m].deleted
    ensures item.content.Str? && item.length == |item.content.text| > 0 && item.right == NodeAt(nodes, m + 1)
    ensures item !in nodes[..m] && item !in nodes[m + 1..] && Untouched(nodes[m + 1..], frags[m + 1..])
    ensures |Live(frags[..m + 1])| == pos + item.length && |Shown(frags[m])| == item.length
  {
    hide Live, Shown, Untouched;
    UntouchedRest(nodes, frags, m);
    assert frags[m] in frags;
    LiveShown(frags, m);
    LiveAt(frags, m);
  }

  /** A deleted item changes nothing. */
  lemma TrackPast(nodes: seq<Item>, frags: seq<Frag>, m: nat, item: Item, e: Edit, pos: nat, remaining: nat)
    requires Tracking(nodes, frags, m, item, e, pos, remaining) && remaining > 0 && item.deleted
    ensures if item in nodes then m < |nodes| && Tracking(nodes, frags, m + 1, item.right, e, pos, remaining)
            else Tracking(nodes, frags, m, item.right, e, pos, remaining)
  {
    hide Live, Shown, Untouched, Passed;
    if item in nodes {
      UntouchedRest(nodes, frags, m);
      LiveAt(frags, m);
      OneDeleted(frags[m]);
      PassedMore(nodes, frags, m, e);
    }
  }

  /** An item before the range is not split. */
  lemma TrackBefore(nodes: seq<Item>, frags: seq<Frag>, m: nat, item: Item, e: Edit, pos: nat, remaining: nat)
    requires Tracking(nodes, frags, m, item, e, pos, remaining) && remaining > 0 && !item.deleted && pos + item.length <= e.index
    ensures m < |nodes| && Tracking(nodes, frags, m + 1, item.right, e, pos + item.length, remaining)
  {
    hide Live, Shown, Untouched, Passed;
    TrackHere(nodes, frags, m, item, e, pos, remaining);
    PassedMore(nodes, frags, m, e);
  }

  /** An item that the range has reached, when it has been dealt with. */
  lemma TrackVisible(nodes: seq<Item>, frags: seq<Frag>, m: nat, item: Item, e: Edit, pos: nat, remaining: nat, left: nat)
    requires e.Del? && e.length > 0 && m < |nodes| == |frags| && Distinct(nodes) && TextFrags(frags) && nodes[m] == item
    requires Passed(nodes[..m], frags, e) && Untouched(nodes[m + 1..], frags[m + 1..]) && pos == |Live(frags[..m])|
    requires !frags[m].deleted && e.index < pos + frags[m].cell.len == |Live(frags[..m + 1])|
    requires frags[m].cell.content.Str? && Sized(frags[m].cell)
    requires remaining > 0 && remaining == e.length - (if pos <= e.index then 0 else pos - e.index)
    requires item.AsCell() == Clip(frags[m].cell, if pos < e.index then e.index - pos else remaining)
    requires left > 0 ==> AtNode(nodes, m + 1, item.right)
    requires left == 0 ==> (if pos < e.index then e.index else pos) + remaining <= pos + frags[m].cell.len
    ensures Tracking(nodes, frags, m + 1, item.right, e, pos + frags[m].cell.len, left)
  {
    hide Live, Untouched, Passed;
    PassedMore(nodes, frags, m, e);
  }

  /** At its end every item says what the deletion leaves of it. */
  lemma TrackEnds(nodes: seq<Item>, frags: seq<Frag>, m: nat, item: Item?, e: Edit, pos: nat, remaining: nat)
    requires Tracking(nodes, frags, m, item, e, pos, remaining) && (remaining == 0 || item == null)
    ensures Edited(nodes, frags, e)
  {
    hide Live, Shown;
    forall j | 0 <= j < |nodes| ensures nodes[j].AsCell() == Shortened(frags, j, e) {
      if j < m {
        assert nodes[..m][j] == nodes[j];
      } else {
        assert nodes[m..][j - m] == nodes[j] && frags[m..][j - m] == frags[j];
        if m < j { LiveGrows(frags, m, j); }
      }
    }
  }

  lemma TrackParts(nodes: seq<Item>, frags: seq<Frag>, m: nat, item: Item, e: Edit, pos: nat, remaining: nat)
    requires Tracking(nodes, frags, m, item, e, pos, remaining)
    ensures e.Del? && e.length > 0 && m <= |nodes| == |frags| && Distinct(nodes) && TextFrags(frags)
    ensures Passed(nodes[..m], frags, e) && pos == |Live(frags[..m])|
  {
  }

  /** One visible item that the range has reached, on the list as it is and as it was. */
  method DeleteNext(t: SharedType, store: StructStore, tx: Transaction, item: Item, index: nat, pos: nat, remaining: nat,
                    ghost nodes: seq<Item>, ghost frags: seq<Frag>, ghost k: nat, ghost live: seq<Unit>, ghost length: nat,
                    ghost kept: seq<Item>, ghost before: seq<Cell>, ghost gone: seq<Unit>,
                    ghost start: seq<Item>, ghost begun: seq<Frag>, ghost m: nat, ghost own: seq<Item>, ghost seams: seq<bool>)
    returns (toDelete: nat, ghost longer: seq<Item>, ghost parts: seq<Frag>, ghost added: seq<Item>, ghost more: seq<Unit>)
    requires Deleting(t, tx, item, nodes, frags, k, live, index, length, pos, remaining, kept, before, gone)
    requires Tracking(start, begun, m, item, Del(index, length), pos, remaining)
    requires Seamed(nodes, frags, own, seams, index, length, k, pos, remaining)
    requires k < |nodes| && !item.deleted && remaining > 0 && index < pos + item.length
    modifies store`clients, tx`pendingDeletes, item`content, item`length, item`right, item`deleted, Next(item)`left
    ensures toDelete <= remaining && k < |longer| && longer[k] == item && item.right == NodeAt(longer, k + 1)
    ensures Deleting(t, tx, item.right, longer, parts, k + 1, live, index, length, pos + old(item.length), remaining - toDelete,
                     kept, before, more)
    ensures Tracking(start, begun, m + 1, item.right, Del(index, length), pos + old(item.length), remaining - toDelete)
    ensures Among(longer, nodes, added) && store.clients == Added(old(store.clients), added) && forall n :: n in added ==> fresh(n)
    ensures Seamed(longer, parts, own, seams, index, length, k + 1, pos + old(item.length), remaining - toDelete)
  {
    hide Live, UnitsOf, IsText, Added, Walk, Linked, ShowsFrags, RecordedSince, Tracking, Untouched, Passed, Distinct, Clip, Among, Reshaped;
    hide Seamed;
    ghost var e := Del(index, length);
    ReadNode(t, nodes, frags, k);
    WalkBounds(live, index, length, frags, k, pos, remaining, gone);
    TrackHere(start, begun, m, item, e, pos, remaining);
    TrackParts(start, begun, m, item, e, pos, remaining);
    toDelete, longer, parts, added, more :=
      DeleteVisible(t, store, tx, item, index, pos, remaining, nodes, frags, k, live, length, kept, before, gone);
    TrackVisible(start, begun, m, item, e, pos, remaining, remaining - toDelete);
    SeamsNext(nodes, frags, own, seams, index, length, k, pos, remaining, longer, parts, added, toDelete);
    ReadNode(t, longer, parts, k);
  }

  lemma DeletingStarts(t: SharedType, tx: Transaction, nodes: seq<Item>, frags: seq<Frag>, index: nat, length: nat, kept: seq<Item>, before: seq<Cell>)
    requires IsText(t, nodes, frags) && AllDeleted(tx.pendingDeletes) && length > 0
    requires kept == tx.pendingDeletes && RecordedSince(tx.pendingDeletes, |kept|, before, [])
    ensures Deleting(t, tx, t.start, nodes, frags, 0, Live(frags), index, length, 0, length, kept, before, [])
  {
    hide Live, UnitsOf, RecordedSince;
    WalkStarts(frags, index, length);
  }

  /** The item that the walk is at. */
  lemma DeletingAt(t: SharedType, tx: Transaction, item: Item, nodes: seq<Item>, frags: seq<Frag>, k: nat,
                    live: seq<Unit>, index: nat, length: nat, pos: nat, remaining: nat, kept: seq<Item>, before: seq<Cell>, gone: seq<Unit>)
    requires Deleting(t, tx, item, nodes, frags, k, live, index, length, pos, remaining, kept, before, gone) && remaining > 0
    ensures IsText(t, nodes, frags) && k < |nodes| == |frags| && nodes[k] == item && item.right == NodeAt(nodes, k + 1)
    ensures frags[k].deleted == item.deleted && frags[k].cell == item.AsCell() && TextFrags(frags) && pos <= |live|
    ensures !item.deleted ==> item.length > 0 && pos + item.length <= |live|
  {
    hide Live, UnitsOf, IsText, Linked, ShowsFrags, RecordedSince;
    ReadNode(t, nodes, frags, k);
    WalkBounds(live, index, length, frags, k, pos, remaining, gone);
    if !item.deleted {
      LiveShown(frags, k);
      LiveAt(frags, k);
    }
  }

  /** Past a deleted item, or one before the range. */
  lemma DeletingOnward(t: SharedType, tx: Transaction, item: Item, nodes: seq<Item>, frags: seq<Frag>, k: nat,
                    live: seq<Unit>, index: nat, length: nat, pos: nat, remaining: nat, kept: seq<Item>, before: seq<Cell>, gone: seq<Unit>)
    requires Deleting(t, tx, item, nodes, frags, k, live, index, length, pos, remaining, kept, before, gone) && remaining > 0
    requires item.deleted || pos + item.length <= index
    ensures Deleting(t, tx, item.right, nodes, frags, k + 1, live, index, length, if item.deleted then pos else pos + item.length, remaining,
                     kept, before, gone)
  {
    hide Live, UnitsOf, IsText, Linked, ShowsFrags, RecordedSince, Walk;
    ReadNode(t, nodes, frags, k);
    if item.deleted {
      WalkPast(live, index, length, frags, k, pos, remaining, gone);
    } else {
      WalkBefore(live, index, length, frags, k, pos, remaining, gone);
    }
  }

  /** At its end the characters of the range are gone and recorded. */
  lemma DeletingEnds(t: SharedType, tx: Transaction, item: Item?, nodes: seq<Item>, frags: seq<Frag>, k: nat,
                    live: seq<Unit>, index: nat, length: nat, pos: nat, remaining: nat, kept: seq<Item>, before: seq<Cell>, gone: seq<Unit>)
    requires Deleting(t, tx, item, nodes, frags, k, live, index, length, pos, remaining, kept, before, gone) && (remaining == 0 || item == null)
    ensures IsText(t, nodes, frags) && AllDeleted(tx.pendingDeletes) && kept <= tx.pendingDeletes
    ensures |nodes| == |frags| && (item == null ==> k == |nodes|)
    ensures var i, j := Min(index, |live|), Min(index + length, |live|);
            Live(frags) == live[..i] + live[j..] && RecordedSince(tx.pendingDeletes, |kept|, before, live[i..j])
  {
    hide Live, UnitsOf, IsText, Linked, ShowsFrags, RecordedSince, Walk;
    WalkEnds(live, index, length, frags, k, pos, remaining, gone);
  }

  /**
   * Text.Delete: exactly the visible characters from the index on, at most `length` of them, are
   * gone, and what is recorded for the update are string items with exactly these characters, in
   * order. Every item that was there keeps its characters up to the first split. The walk ends
   * although its splits make the list longer.
   */
  method Delete(t: SharedType, store: StructStore, tx: Transaction, index: nat, length: nat, ghost nodes: seq<Item>, ghost frags: seq<Frag>)
    returns (ghost longer: seq<Item>, ghost parts: seq<Frag>, ghost added: seq<Item>)
    requires IsText(t, nodes, frags) && AllDeleted(tx.pendingDeletes)
    modifies store`clients, tx`pendingDeletes, nodes`content, nodes`length, nodes`left, nodes`right, nodes`deleted
    ensures IsText(t, longer, parts) && AllDeleted(tx.pendingDeletes)
    ensures var live := Live(frags);
            var i, j := Min(index, |live|), Min(index + length, |live|);
            && Live(parts) == live[..i] + live[j..]
            && old(tx.pendingDeletes) <= tx.pendingDeletes
            && RecordedSince(tx.pendingDeletes, |old(tx.pendingDeletes)|, old(Says(tx.pendingDeletes)), live[i..j])
    ensures Among(longer, nodes, added) && forall n :: n in added ==> fresh(n)
    ensures store.clients == Added(old(store.clients), added)
    ensures Edited(nodes, frags, Del(index, length))
    ensures |nodes| == |frags| && |longer| == |parts|
    ensures Inner(longer, parts, tx.pendingItems) == AfterEdit(Inner(nodes, frags, tx.pendingItems), Del(index, length))
  {
    hide Live, UnitsOf, IsText, Added, Walk, Linked, ShowsFrags, RecordedSince, Says, Tracking, Edited, Untouched, Passed, Distinct, Clip;
    hide Inner, Seamed, Reshaped, AfterEdit, Deleting;
    longer, parts, added := nodes, frags, [];
    AddedNone(store.clients);
    ghost var live, kept, gone := Live(frags), tx.pendingDeletes, [];
    ghost var before, e := Says(kept), Del(index, length);
    RecordNothing(kept);
    ReadText(t, nodes, frags);
    if length == 0 {
      NothingGone(live, Min(index, |live|));
      NoEdit(nodes, frags, e);
      NoSeamEdit(Inner(nodes, frags, tx.pendingItems), e);
      return;
    }
    DeletingStarts(t, tx, nodes, frags, index, length, kept, before);
    TrackingStarts(t, nodes, frags, e);
    ghost var own, seams := tx.pendingItems, Inner(nodes, frags, tx.pendingItems);
    SeamsStart(nodes, frags, own, index, length);
    var pos, remaining := 0, length;
    var item := t.start;
    ghost var k, m := 0, 0;
    while item != null && remaining > 0
      invariant Deleting(t, tx, item, longer, parts, k, live, index, length, pos, remaining, kept, before, gone)
      invariant Tracking(nodes, frags, m, item, e, pos, remaining)
      invariant Seamed(longer, parts, own, seams, index, length, k, pos, remaining)
      invariant Among(longer, nodes, added) && forall n :: n in added ==> fresh(n)
      invariant store.clients == Added(old(store.clients), added)
      decreases |live| - pos, |longer| - k
    {
      DeletingAt(t, tx, item, longer, parts, k, live, index, length, pos, remaining, kept, before, gone);
      if item.deleted {
        DeletingOnward(t, tx, item, longer, parts, k, live, index, length, pos, remaining, kept, before, gone);
        SeamsPast(longer, parts, own, seams, index, length, k, pos, remaining);
        TrackPast(nodes, frags, m, item, e, pos, remaining);
        if item in nodes { m := m + 1; }
      } else {
        var end := pos + item.length;
        if end <= index {
          DeletingOnward(t, tx, item, longer, parts, k, live, index, length, pos, remaining, kept, before, gone);
          SeamsBefore(longer, parts, own, seams, index, length, k, pos, remaining);
          TrackBefore(nodes, frags, m, item, e, pos, remaining);
        } else {
          var toDelete; ghost var more, was := [], longer;
          AmongAt(longer, nodes, added);
          toDelete, longer, parts, more, gone :=
            DeleteNext(t, store, tx, item, index, pos, remaining, longer, parts, k, live, length, kept, before, gone, nodes, frags, m, own, seams);
          AddedAll(old(store.clients), added, more);
          AmongOnward(longer, was, nodes, added, more, 0);
          added := added + more;
          remaining := remaining - toDelete;
        }
        m := m + 1;
        pos := end;
      }
      item := item.right;
      k := k + 1;
    }
    DeletingEnds(t, tx, item, longer, parts, k, live, index, length, pos, remaining, kept, before, gone);
    TrackEnds(nodes, frags, m, item, e, pos, remaining);
    SeamsEnd(longer, parts, own, seams, index, length, k, pos, remaining);
  }

  lemma RecordNothing(items: seq<Item>)
    ensures RecordedSince(items, |items|, Says(items), [])
  {
    assert items[..|items|] == items;
  }

  /** Text.String: the visible string items, one after the other. */
  method String(t: SharedType, ghost nodes: seq<Item>, ghost frags: seq<Frag>) returns (out: seq<Rune>)
    requires IsText(t, nodes, frags)
    ensures AllChars(Live(frags)) && out == Runes(Live(frags))
  {
    hide Live, UnitsOf, IsText, Linked, ShowsFrags, TextFrags;
    ReadText(t, nodes, frags);
    LiveChars(frags);
    StartsEmpty(frags);
    out := [];
    var item := t.start;
    ghost var k := 0;
    while item != null
      invariant k <= |nodes| == |frags| && item == NodeAt(nodes, k)
      invariant AllChars(Live(frags[..k])) && out == Runes(Live(frags[..k]))
      decreases |nodes| - k
    {
      ReadNode(t, nodes, frags, k);
      RunesAt(frags, k);
      if !(item.deleted || !item.content.Str?) {
        out := out + item.content.text;
      }
      item := item.right;
      k := k + 1;
    }
    assert frags[..k] == frags;
  }

  /** Text.Len */
  method Len(t: SharedType, ghost nodes: seq<Item>, ghost frags: seq<Frag>) returns (n: nat)
    requires IsText(t, nodes, frags)
    ensures n == |Live(frags)|
  {
    hide Live, UnitsOf, IsText, Linked, ShowsFrags, TextFrags;
    ReadText(t, nodes, frags);
    StartsEmpty(frags);
    n := 0;
    var item := t.start;
    ghost var k := 0;
    while item != null
      invariant k <= |nodes| == |frags| && item == NodeAt(nodes, k) && n == |Live(frags[..k])|
      decreases |nodes| - k
    {
      ReadNode(t, nodes, frags, k);
      RunesAt(frags, k);
      LiveAt(frags, k);
      if !item.deleted {
        n := n + item.length;
      }
      item := item.right;
      k := k + 1;
    }
    assert frags[..k] == frags;
  }
}
