/** The pointer part of integrateItem: the scan for the place, and the relinking of the neighbours. */
module Linking {
  import opened Ids
  import opened Cells
  import opened Integration
  import opened Items

  ghost predicate Distinct(nodes: seq<Item>) {
    forall i, j :: 0 <= i < j < |nodes| ==> nodes[i] != nodes[j]
  }

  function NodeBefore(nodes: seq<Item>, p: nat): Item?
    requires p <= |nodes|
  {
    if p == 0 then null else nodes[p - 1]
  }

  function NodeAt(nodes: seq<Item>, p: nat): Item?
    requires p <= |nodes|
  {
    if p == |nodes| then null else nodes[p]
  }

  ghost predicate Joined(nodes: seq<Item>, i: nat)
    requires i < |nodes|
    reads nodes`left, nodes`right
  {
    nodes[i].left == NodeBefore(nodes, i) && nodes[i].right == NodeAt(nodes, i + 1)
  }

  /** The nodes, in this order, are a doubly linked list that ends in nil on both sides. */
  ghost predicate Linked(nodes: seq<Item>)
    reads nodes`left, nodes`right
  {
    Distinct(nodes) && forall i :: 0 <= i < |nodes| ==> Joined(nodes, i)
  }

  function HeadOf(nodes: seq<Item>): Item? {
    if nodes == [] then null else nodes[0]
  }

  lemma InsertAtIndex<T>(s: seq<T>, p: nat, x: T, i: nat)
    requires p <= |s| && i <= |s|
    ensures InsertAt(s, p, x)[i] == if i < p then s[i] else if i == p then x else s[i - 1]
    ensures i > 0 ==> InsertAt(s, p, x)[i - 1] == if i - 1 < p then s[i - 1] else if i - 1 == p then x else s[i - 2]
    ensures i < |s| ==> InsertAt(s, p, x)[i + 1] == if i + 1 < p then s[i + 1] else if i + 1 == p then x else s[i]
  {
  }

  lemma DistinctInsert(nodes: seq<Item>, p: nat, item: Item)
    requires Distinct(nodes) && item !in nodes && p <= |nodes|
    ensures Distinct(InsertAt(nodes, p, item))
  {
    var longer := InsertAt(nodes, p, item);
    forall i, j | 0 <= i < j < |longer| ensures longer[i] != longer[j] {
      InsertAtIndex(nodes, p, item, i);
      InsertAtIndex(nodes, p, item, j);
    }
  }

  /** lssIsBefore on items. */
  function LssIsBefore(item: Item, other: Item): bool
    ensures LssIsBefore(item, other) <==> Before(item.AsCell(), other.AsCell())
    reads item`parent, item`content, item`length, other`parent, other`content, other`length
  {
    var itemOriginClock := if item.originLeft.Some? then item.originLeft.value.clock + 1 else 0;
    var otherOriginClock := if other.originLeft.Some? then other.originLeft.value.clock + 1 else 0;
    if itemOriginClock != otherOriginClock then itemOriginClock > otherOriginClock
    else CompareIds(item.id, other.id) > 0
  }

  /** `o` is OriginRight itself, found by getItem. */
  ghost predicate IsRightOrigin(item: Item, o: Item)
    reads o`length, o`parent, o`content
  {
    item.originRight.Some? && Covers(o.AsCell(), item.originRight.value)
  }

  /** The scan: walk right until the end, OriginRight, or an item that the new one goes before. */
  method ScanRight(item: Item, from: Item?, first: Item?, right: Item?, ghost nodes: seq<Item>, ghost cells: seq<Cell>)
    returns (left: Item?, o: Item?, ghost p: nat)
    requires Linked(nodes) && Shows(nodes, cells) && first == HeadOf(nodes)
    requires from == NodeBefore(nodes, Start(cells, item.originLeft))
    requires forall o :: o in nodes ==> (o == right <==> IsRightOrigin(item, o))
    ensures p == Place(cells, item.AsCell()) && p <= |nodes|
    ensures left == NodeBefore(nodes, Place(cells, item.AsCell())) && o == NodeAt(nodes, Place(cells, item.AsCell()))
    ensures forall r :: Start(cells, item.originLeft) <= r < |nodes| && nodes[r] == right ==> p <= r
  {
    hide Before, Place, Start, Covers;
    ghost var x := item.AsCell();
    ghost var start := Start(cells, item.originLeft);
    left := from;
    o := if left != null then left.right else first;
    p := start;
    assert start > 0 ==> Joined(nodes, start - 1);
    while o != null && o != right
      invariant start <= p <= |nodes|
      invariant left == NodeBefore(nodes, p) && o == NodeAt(nodes, p)
      invariant forall j :: start <= j < p ==> !Stops(x, cells[j])
      decreases |nodes| - p
    {
      assert Joined(nodes, p) && nodes[p].AsCell() == cells[p] && o in nodes;
      if LssIsBefore(item, o) {
        break;
      }
      left := o;
      o := o.right;
      p := p + 1;
    }
    assert p < |nodes| ==> o in nodes && nodes[p].AsCell() == cells[p];
    PlaceAt(cells, x, p);
    forall r | start <= r < |nodes| && nodes[r] == right ensures p <= r {
      assert nodes[r] in nodes && nodes[r].AsCell() == cells[r];
      LeftOfRightOrigin(cells, x, r);
    }
  }

  /** Node i of a list that makes room for an item at p: the neighbours of the gap point to the item. */
  ghost predicate Spread(nodes: seq<Item>, i: nat, p: nat, item: Item)
    requires i < |nodes|
    reads nodes`left, nodes`right
  {
    && nodes[i].left == (if i == p then item else NodeBefore(nodes, i))
    && nodes[i].right == (if i + 1 == p then item else NodeAt(nodes, i + 1))
  }

  lemma LinkedAfterInsert(nodes: seq<Item>, p: nat, item: Item)
    requires Distinct(nodes) && item !in nodes && p <= |nodes|
    requires item.left == NodeBefore(nodes, p) && item.right == NodeAt(nodes, p)
    requires forall i :: 0 <= i < |nodes| ==> Spread(nodes, i, p, item)
    ensures Linked(InsertAt(nodes, p, item))
  {
    var longer := InsertAt(nodes, p, item);
    forall i | 0 <= i < |longer| ensures Joined(longer, i) {
      InsertAtIndex(nodes, p, item, i);
      if i < p {
        assert Spread(nodes, i, p, item);
      } else if i > p {
        assert Spread(nodes, i - 1, p, item);
      }
    }
    DistinctInsert(nodes, p, item);
  }

  /** Insert the item between two neighbours, either of which may be nil. */
  method Join(item: Item, left: Item?, o: Item?, ghost nodes: seq<Item>, ghost p: nat)
    requires Linked(nodes) && item !in nodes && p <= |nodes|
    requires left == NodeBefore(nodes, p) && o == NodeAt(nodes, p)
    modifies item`left, item`right, nodes`left, nodes`right
    ensures Linked(InsertAt(nodes, p, item))
  {
    item.left := left;
    item.right := o;
    if left != null {
      left.right := item;
    }
    if o != null {
      o.left := item;
    }
    forall i | 0 <= i < |nodes| ensures Spread(nodes, i, p, item) {
      assert old(Joined(nodes, i));
    }
    LinkedAfterInsert(nodes, p, item);
  }
}
