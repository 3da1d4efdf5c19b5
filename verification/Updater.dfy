/** ApplyUpdate of doc.go on the objects: accumulate the delete set, integrate the items, apply all deletes. */
module Updater {
  import opened Wrappers
  import opened Values
  import opened Cells
  import opened Integration
  import opened Deletion
  import opened DeleteOrder
  import opened Replicas
  import opened Items
  import opened Linking
  import opened Docs
  import opened Integrator
  import opened RangeDeleter

  /** The items use every name for the kind of type given for it. */
  predicate KindsOf(cells: seq<Cell>, kinds: map<Name, TypeKind>) {
    forall i :: 0 <= i < |cells| && cells[i].home.Some? ==> cells[i].home.value in kinds && kinds[cells[i].home.value] == KindFor(cells[i])
  }

  /** No name is used for types of different kinds. */
  ghost predicate KindsFit(share: Share, cells: seq<Cell>, kinds: map<Name, TypeKind>) {
    KnownKinds(share, kinds) && KindsOf(cells, kinds)
  }

  /** Items as the decoder makes them: distinct objects, new to the document, not linked. */
  ghost predicate Decoded(items: seq<Item>, known: set<Item>)
    reads items
  {
    && Distinct(items)
    && forall i :: i in items ==> i !in known && i.parent == null && i.deleted == i.content.Gone? && i.left == null && i.right == null
  }

  /** deleteSet.add for each range of one client. */
  method AddRanges(ds: DeleteSet, client: nat, ranges: seq<Range>) returns (all: DeleteSet)
    requires ranges != []
    ensures all == ds[client := RangesOf(ds, client) + ranges]
  {
    all := ds;
    for i := 0 to |ranges|
      invariant i == 0 ==> all == ds
      invariant i > 0 ==> all == ds[client := RangesOf(ds, client) + ranges[..i]]
    {
      assert RangesOf(ds, client) + ranges[..i + 1] == RangesOf(all, client) + [ranges[i]];
      all := all[client := RangesOf(all, client) + [ranges[i]]];
    }
    assert ranges[..|ranges|] == ranges;
  }

  /** The ranges of all clients but these have been appended. */
  ghost predicate Merging(all: DeleteSet, ds: DeleteSet, ranges: DeleteSet, todo: set<nat>) {
    && todo <= ranges.Keys && all.Keys == ds.Keys + (ranges.Keys - todo)
    && forall c :: c in all ==> all[c] == RangesOf(ds, c) + if c in todo then [] else RangesOf(ranges, c)
  }

  lemma MergingStarts(ds: DeleteSet, ranges: DeleteSet)
    ensures Merging(ds, ds, ranges, ranges.Keys)
  {
  }

  lemma MergingNext(all: DeleteSet, ds: DeleteSet, ranges: DeleteSet, todo: set<nat>, c: nat)
    requires Merging(all, ds, ranges, todo) && c in todo
    ensures Merging(all[c := RangesOf(all, c) + ranges[c]], ds, ranges, todo - {c})
  {
    assert RangesOf(all, c) == RangesOf(ds, c);
  }

  lemma MergingEnds(all: DeleteSet, ds: DeleteSet, ranges: DeleteSet)
    requires Merging(all, ds, ranges, {})
    ensures all == Merge(ds, ranges)
  {
  }

  /** Append the ranges of an update to those of the document, client by client. */
  method Accumulate(ds: DeleteSet, ranges: DeleteSet) returns (all: DeleteSet)
    requires forall c :: c in ranges ==> ranges[c] != []
    ensures all == Merge(ds, ranges)
  {
    hide Merge, Merging;
    all := ds;
    var todo := ranges.Keys;
    MergingStarts(ds, ranges);
    while todo != {}
      invariant todo <= ranges.Keys && Merging(all, ds, ranges, todo)
      decreases |todo|
    {
      var c :| c in todo;
      MergingNext(all, ds, ranges, todo, c);
      all := AddRanges(all, c, ranges[c]);
      todo := todo - {c};
    }
    MergingEnds(all, ds, ranges);
  }

  /** A document learns of more delete ranges before it applies them. */
  method Learn(d: Doc, ranges: DeleteSet)
    requires d.Valid() && forall c :: c in ranges ==> ranges[c] != []
    modifies d`ds, d`held
    ensures d.Valid() && d.ds == Merge(old(d.held.view.ds), ranges)
    ensures d.held == old(d.held).(view := old(d.held.view).(ds := d.ds))
  {
    hide StoreIs, ItemsAre, ListsAre, SaysTrue, FlagsAre, ParentsAre, ListsLinked, LooseApart, HeadsAre, Merge, Inv;
    var all := Accumulate(d.ds, ranges);
    InvIgnoresDs(d.held.view, all);
    d.ds := all;
    d.held := d.held.(view := d.held.view.(ds := all));
  }

  lemma RestDecoded(items: seq<Item>, known: set<Item>)
    requires Decoded(items, known) && items != []
    ensures Decoded(items[1..], known + {items[0]}) && items[0] !in items[1..] && forall i :: i in items[1..] ==> i in items
  {
  }

  lemma DecodedAmong(items: seq<Item>, known: set<Item>, fewer: set<Item>)
    requires Decoded(items, known) && fewer <= known
    ensures Decoded(items, fewer)
  {
  }

  lemma KindsAfter(before: Share, after: Share, rest: seq<Cell>, kinds: map<Name, TypeKind>, name: Option<Name>, kind: TypeKind)
    requires KindsFit(before, rest, kinds) && Extends(before, after, name, kind)
    requires name.Some? ==> name.value in kinds && kinds[name.value] == kind
    ensures KindsFit(after, rest, kinds)
  {
  }

  lemma RestKinds(share: Share, items: seq<Item>, kinds: map<Name, TypeKind>)
    requires KindsFit(share, Says(items), kinds) && items != [] && items[0].parent == null
    ensures KindsFit(share, Says(items)[1..], kinds) && Typed(share, items[0])
    ensures items[0].parentName.Some? ==> items[0].parentName.value in kinds && kinds[items[0].parentName.value] == KindFor(items[0].AsCell())
  {
    hide KindFor;
    assert Says(items)[0] == items[0].AsCell();
  }

  /** Integrate the first of the remaining items; the others stay as the decoder made them. */
  method IntegrateFirst(d: Doc, items: seq<Item>, ghost kinds: map<Name, TypeKind>)
    requires d.Valid() && Decoded(items, d.held.says.Keys) && KindsFit(d.share, Says(items), kinds)
    requires items != [] && Lands(d.held.view, Says(items))
    modifies d`share, d`held, d.store`clients, items[0], d.share.Values, d.held.says.Keys
    ensures d.Valid() && d.held.view == Receive(old(d.held.view), old(Says(items))[0])
    ensures Decoded(items[1..], d.held.says.Keys) && KindsFit(d.share, Says(items[1..]), kinds)
    ensures Says(items[1..]) == old(Says(items))[1..] && Lands(d.held.view, Says(items[1..]))
    ensures d.held.says.Keys <= old(d.held.says.Keys) + {items[0]} && fresh(d.share.Values - old(d.share.Values))
  {
    hide Inv, Receive, Fits, Coherent, Embodied, Placed, Distinct, KindsFit, Extends, KindFor, Typed;
    ghost var cells := Says(items);
    var item, rest := items[0], items[1..];
    RestDecoded(items, d.held.says.Keys);
    RestKinds(d.share, items, kinds);
    ghost var known, share, kind := d.held.says.Keys + {item}, d.share, KindFor(item.AsCell());
    IntegrateItem(d, item);
    KindsAfter(share, d.share, cells[1..], kinds, item.parentName, kind);
    DecodedAmong(rest, known, d.held.says.Keys);
    assert Says(rest) == cells[1..];
  }

  /** The integration loop. */
  method IntegrateAll(d: Doc, items: seq<Item>, ghost kinds: map<Name, TypeKind>)
    requires d.Valid() && Decoded(items, d.held.says.Keys) && KindsFit(d.share, Says(items), kinds)
    requires Lands(d.held.view, Says(items))
    modifies d`share, d`held, d.store`clients, items, d.share.Values, d.held.says.Keys
    ensures d.Valid() && d.held.view == Deliver(old(d.held.view), old(Says(items)))
    ensures d.held.says.Keys <= old(d.held.says.Keys) + set i | i in items
    ensures fresh(d.share.Values - old(d.share.Values)) && KnownKinds(d.share, kinds)
  {
    hide Inv, Receive, Fits, Coherent, Embodied, Placed, Decoded, KnownKinds, KindsOf, Lands;
    ghost var cells, s := Says(items), d.held.view;
    var rest := items;
    while rest != []
      invariant d.Valid()
      invariant Decoded(rest, d.held.says.Keys) && KindsFit(d.share, Says(rest), kinds) && Lands(d.held.view, Says(rest))
      invariant Deliver(d.held.view, Says(rest)) == Deliver(s, cells)
      invariant forall i :: i in rest ==> i in items
      invariant d.held.says.Keys <= old(d.held.says.Keys) + set i | i in items
      invariant fresh(d.share.Values - old(d.share.Values))
      decreases |rest|
    {
      assert rest[0] in rest;
      IntegrateFirst(d, rest, kinds);
      rest := rest[1..];
    }
  }

  /** The ranges of one client, in order. */
  function Tagged(client: nat, ranges: seq<Range>): (order: seq<ClientRange>)
    ensures |order| == |ranges| && forall i :: 0 <= i < |order| ==> order[i] == ClientRange(client, ranges[i])
  {
    seq(|ranges|, i requires 0 <= i < |ranges| => ClientRange(client, ranges[i]))
  }

  lemma TaggedHas(client: nat, ranges: seq<Range>)
    ensures forall p :: p in Tagged(client, ranges) <==> p.client == client && p.range in ranges
  {
    forall r | r in ranges ensures ClientRange(client, r) in Tagged(client, ranges) {
      var i :| 0 <= i < |ranges| && ranges[i] == r;
      assert Tagged(client, ranges)[i] == ClientRange(client, r);
    }
  }

  lemma {:induction false} ApplyAllConcat(s: DocState, a: seq<ClientRange>, b: seq<ClientRange>)
    ensures ApplyAll(s, a + b) == ApplyAll(ApplyAll(s, a), b)
    decreases |a|
  {
    hide ApplyRange;
    if a == [] {
      assert a + b == b;
    } else {
      ApplyAllConcat(ApplyRange(s, a[0].client, a[0].range), a[1..], b);
      assert (a + b)[1..] == a[1..] + b;
    }
  }

  /** All ranges of one client, in the order of the delete set. */
  method DeleteRanges(d: Doc, client: nat, ranges: seq<Range>)
    requires d.Valid()
    modifies d`held, d.store`clients, d.held.says.Keys
    ensures d.Valid() && d.held.view == ApplyAll(old(d.held.view), Tagged(client, ranges))
    ensures old(d.held.says.Keys) <= d.held.says.Keys && fresh(d.held.says.Keys - old(d.held.says.Keys))
  {
    hide Inv, Coherent, Embodied, Placed, ApplyRange;
    ghost var s, order := d.held.view, Tagged(client, ranges);
    for i := 0 to |ranges|
      invariant d.Valid() && ApplyAll(d.held.view, order[i..]) == ApplyAll(s, order)
      invariant old(d.held.says.Keys) <= d.held.says.Keys && fresh(d.held.says.Keys - old(d.held.says.Keys))
    {
      ApplyDeleteRange(d, client, ranges[i].clock, ranges[i].len);
      assert order[i..][1..] == order[i + 1..];
    }
  }

  /** The whole accumulated delete set, its clients in whatever order the map iteration gives. */
  method ApplyDeletes(d: Doc) returns (ghost order: seq<ClientRange>)
    requires d.Valid()
    modifies d`held, d.store`clients, d.held.says.Keys
    ensures d.Valid() && Visits(order, d.ds) && d.held.view == ApplyAll(old(d.held.view), order)
    ensures old(d.held.says.Keys) <= d.held.says.Keys && fresh(d.held.says.Keys - old(d.held.says.Keys))
  {
    hide Inv, Coherent, Embodied, Placed, ApplyAll;
    ghost var s := d.held.view;
    var fullDS := d.ds;
    var todo := fullDS.Keys;
    order := [];
    assert ApplyAll(s, order) == s by { Nothing(s); }
    while todo != {}
      invariant d.Valid() && todo <= fullDS.Keys && d.held.view == ApplyAll(s, order)
      invariant forall p :: p in order <==> InDs(fullDS, p) && p.client !in todo
      invariant old(d.held.says.Keys) <= d.held.says.Keys && fresh(d.held.says.Keys - old(d.held.says.Keys))
      decreases |todo|
    {
      var client :| client in todo;
      DeleteRanges(d, client, fullDS[client]);
      ApplyAllConcat(s, order, Tagged(client, fullDS[client]));
      TaggedHas(client, fullDS[client]);
      order := order + Tagged(client, fullDS[client]);
      todo := todo - {client};
    }
  }

  lemma Nothing(s: DocState)
    ensures ApplyAll(s, []) == s
  {
  }

  /** The first half: the ranges are known when the items are integrated. */
  method LearnAndIntegrate(d: Doc, items: seq<Item>, ranges: DeleteSet, ghost kinds: map<Name, TypeKind>)
    requires d.Valid() && Decoded(items, d.held.says.Keys) && KindsFit(d.share, Says(items), kinds)
    requires forall c :: c in ranges ==> ranges[c] != []
    requires Lands(d.held.view.(ds := Merge(d.held.view.ds, ranges)), Says(items))
    modifies d`ds, d`share, d`held, d.store`clients, items, d.share.Values, d.held.says.Keys
    ensures d.Valid() && d.ds == Merge(old(d.held.view.ds), ranges)
    ensures d.held.view == Deliver(old(d.held.view.(ds := Merge(d.held.view.ds, ranges))), old(Says(items)))
    ensures d.held.says.Keys <= old(d.held.says.Keys) + set i | i in items
    ensures fresh(d.share.Values - old(d.share.Values)) && KnownKinds(d.share, kinds)
  {
    hide Inv, Coherent, Embodied, Placed, Lands, Decoded, KnownKinds, KindsOf, Merge, Deliver, Says;
    Learn(d, ranges);
    IntegrateAll(d, items, kinds);
  }

  /**
   * ApplyUpdate, after decoding: the document becomes what ApplyUpdate makes of its state, for
   * some order in which the accumulated delete set was visited.
   */
  method ApplyDecoded(d: Doc, items: seq<Item>, ranges: DeleteSet, ghost kinds: map<Name, TypeKind>)
    returns (ghost order: seq<ClientRange>)
    requires d.Valid() && Decoded(items, d.held.says.Keys) && KindsFit(d.share, Says(items), kinds)
    requires forall c :: c in ranges ==> ranges[c] != []
    requires Lands(d.held.view.(ds := Merge(d.held.view.ds, ranges)), Says(items))
    modifies d`ds, d`share, d`held, d.store`clients, items, d.share.Values, d.held.says.Keys
    ensures d.Valid() && Visits(order, Merge(old(d.held.view.ds), ranges))
    ensures d.held.view == ApplyUpdate(old(d.held.view), Update(old(Says(items)), ranges), order)
    ensures fresh(d.held.says.Keys - old(d.held.says.Keys) - set i | i in items)
    ensures fresh(d.share.Values - old(d.share.Values)) && KnownKinds(d.share, kinds)
  {
    hide Inv, Coherent, Embodied, Placed, Lands, Decoded, KnownKinds, KindsOf, Merge, Deliver, ApplyAll, Visits, Says;
    LearnAndIntegrate(d, items, ranges, kinds);
    order := ApplyDeletes(d);
  }
}
