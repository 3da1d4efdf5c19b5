/** doc.go's ApplyUpdate from the bytes on: decodeUpdateV1, then integration and deletion on the objects. */
module Applying {
  import opened Wrappers
  import opened Values
  import opened Ids
  import opened Cells
  import opened Integration
  import opened Convergence
  import opened Varints
  import opened Exactness
  import opened DeleteOrder
  import opened Replicas
  import E = EncodedItems
  import Updates
  import opened Encoding
  import opened DeletedContent
  import opened Items
  import opened Docs
  import opened Updater

  /** Decoding never makes an empty list of ranges. */
  predicate NoEmpty(ds: DeleteSet) {
    forall c :: c in ds ==> ds[c] != []
  }

  lemma {:induction false} RangesNotEmpty(bs: Bytes, n: nat, client: nat, ds: DeleteSet)
    requires NoEmpty(ds)
    ensures var p := Updates.ParseRanges(bs, n, client, ds); p.Ok? ==> NoEmpty(p.value.value)
    decreases n
  {
    hide ParseVarUint;
    if n > 0 {
      var clock := ParseVarUint(bs);
      if clock.Ok? {
        var len := ParseVarUint(clock.value.rest);
        if len.Ok? { RangesNotEmpty(len.value.rest, n - 1, client, Updates.AppendRange(ds, client, Range(clock.value.value, len.value.value))); }
      }
    }
  }

  lemma {:induction false} DsNotEmpty(bs: Bytes, n: nat, ds: DeleteSet)
    requires NoEmpty(ds)
    ensures var p := Updates.ParseDs(bs, n, ds); p.Ok? ==> NoEmpty(p.value.value)
    decreases n
  {
    hide ParseVarUint, Updates.ParseRanges;
    if n > 0 {
      var client := ParseVarUint(bs);
      if client.Ok? {
        var count := ParseVarUint(client.value.rest);
        if count.Ok? {
          RangesNotEmpty(count.value.rest, count.value.value, client.value.value, ds);
          var more := Updates.ParseRanges(count.value.rest, count.value.value, client.value.value, ds);
          if more.Ok? { DsNotEmpty(more.value.rest, n - 1, more.value.value); }
        }
      }
    }
  }

  lemma ParsedNotEmpty(bs: Bytes)
    ensures Updates.Parse(bs).Ok? ==> NoEmpty(Updates.Parse(bs).value.ds)
  {
    hide ParseVarUint, Updates.ParseClients, Updates.ParseDs;
    var n := ParseVarUint(bs);
    if n.Ok? {
      var items := Updates.ParseClients(n.value.rest, n.value.value, []);
      if items.Ok? {
        var m := ParseVarUint(items.value.rest);
        if m.Ok? { DsNotEmpty(m.value.rest, m.value.value, map[]); }
      }
    }
  }

  /** encodedToItem */
  method EncodedToItem(e: E.EncodedItem) returns (item: Item)
    requires IsItem(e)
    ensures fresh(item) && item.AsCell() == FromEncoded(e) && item.parent == null && item.deleted == item.content.Gone?
    ensures item.deleted <==> e.ref == 1
    ensures item.left == null && item.right == null && item.parentName == FromEncoded(e).home
  {
    hide RunesOf, IsBmp;
    var name := if e.parent.ByKey? && e.parent.name != [] then Some(e.parent.name) else None;
    item := new Item(Id(e.client, e.clock), e.left, e.right, name, e.sub, null, ContentOf(e), e.length);
  }

  /** The items of decodeUpdateV1, as they come: new objects that are not linked. */
  ghost predicate Made(items: seq<Item>, cells: seq<Cell>)
    reads items
  {
    && Says(items) == cells
    && (forall i, j :: 0 <= i < j < |items| ==> items[i] != items[j])
    && forall i :: i in items ==> i.parent == null && i.deleted == i.content.Gone? && i.left == null && i.right == null
                                  && i.parentName == i.AsCell().home
  }

  lemma {:induction false} KeptMore(es: seq<E.EncodedItem>, e: E.EncodedItem)
    ensures Kept(es + [e]) == Kept(es) + if e.isGC || e.isSkip then [] else [e]
  {
    if es != [] {
      KeptMore(es[1..], e);
      assert (es + [e])[1..] == es[1..] + [e];
    } else {
      assert [e][1..] == [];
    }
  }

  lemma {:induction false} KeptPrefix(es: seq<E.EncodedItem>, i: nat)
    requires i <= |es| && AllItems(Kept(es))
    ensures AllItems(Kept(es[..i]))
    decreases |es|
  {
    hide IsItem;
    if i == |es| {
      assert es[..i] == es;
    } else {
      var front, last := es[..|es| - 1], es[|es| - 1];
      assert es == front + [last];
      KeptMore(front, last);
      forall k | 0 <= k < |Kept(front)| ensures IsItem(Kept(front)[k]) {
        assert Kept(es)[k] == Kept(front)[k];
      }
      KeptPrefix(front, i);
      assert front[..i] == es[..i];
    }
  }

  lemma CellsFromAppend(es: seq<E.EncodedItem>, e: E.EncodedItem)
    requires AllItems(es + [e])
    ensures AllItems(es) && IsItem(e) && CellsFrom(es + [e]) == CellsFrom(es) + [FromEncoded(e)]
  {
    hide IsItem, FromEncoded;
    assert (es + [e])[|es|] == e;
    forall k | 0 <= k < |es| ensures IsItem(es[k]) {
      assert (es + [e])[k] == es[k];
    }
  }

  /** One more struct: an item, or nothing for GC and Skip. */
  lemma CellsFromMore(es: seq<E.EncodedItem>, i: nat)
    requires i < |es| && AllItems(Kept(es))
    ensures AllItems(Kept(es[..i])) && AllItems(Kept(es[..i + 1]))
    ensures es[i].isGC || es[i].isSkip ==> CellsFrom(Kept(es[..i + 1])) == CellsFrom(Kept(es[..i]))
    ensures !es[i].isGC && !es[i].isSkip ==> IsItem(es[i]) && CellsFrom(Kept(es[..i + 1])) == CellsFrom(Kept(es[..i])) + [FromEncoded(es[i])]
  {
    hide IsItem, FromEncoded, Kept, CellsFrom, AllItems;
    KeptPrefix(es, i);
    KeptPrefix(es, i + 1);
    assert es[..i + 1] == es[..i] + [es[i]];
    KeptMore(es[..i], es[i]);
    if es[i].isGC || es[i].isSkip {
      assert Kept(es[..i]) + [] == Kept(es[..i]);
    } else {
      CellsFromAppend(Kept(es[..i]), es[i]);
    }
  }

  lemma MadeMore(items: seq<Item>, cells: seq<Cell>, item: Item, c: Cell)
    requires Made(items, cells) && item !in items && item.AsCell() == c && item.parent == null && item.deleted == item.content.Gone?
    requires item.left == null && item.right == null && item.parentName == c.home
    ensures Made(items + [item], cells + [c])
  {
    SaysMore(items, item);
  }

  /** The loop of decodeUpdateV1. */
  method MakeItems(es: seq<E.EncodedItem>) returns (items: seq<Item>)
    requires AllItems(Kept(es))
    ensures Made(items, CellsFrom(Kept(es))) && forall k :: 0 <= k < |items| ==> fresh(items[k])
  {
    hide IsItem, FromEncoded, Made, Kept, Says;
    items := [];
    NothingKept(es);
    for i := 0 to |es|
      invariant AllItems(Kept(es[..i])) && Made(items, CellsFrom(Kept(es[..i]))) && forall k :: 0 <= k < |items| ==> fresh(items[k])
    {
      CellsFromMore(es, i);
      if !es[i].isGC && !es[i].isSkip {
        var item := EncodedToItem(es[i]);
        MadeMore(items, CellsFrom(Kept(es[..i])), item, FromEncoded(es[i]));
        items := items + [item];
      }
    }
    assert es[..|es|] == es;
  }

  lemma NothingKept(es: seq<E.EncodedItem>)
    ensures Kept(es[..0]) == [] && Made([], CellsFrom([]))
  {
  }

  lemma MadeIsDecoded(items: seq<Item>, cells: seq<Cell>, known: set<Item>)
    requires Made(items, cells) && forall i :: i in items ==> i !in known
    ensures Decoded(items, known) && Says(items) == cells
  {
  }

  /** What decodeUpdateV1 can make of the bytes; strings outside of the basic multilingual plane are not modelled. */
  predicate Readable(data: Bytes) {
    Updates.Parse(data).Ok? ==> AllItems(Kept(Updates.Parse(data).value.items))
  }

  /** Every item of the update comes in its turn, and uses its name for the same kind of type as everyone else. */
  ghost predicate Acceptable(s: DocState, share: Share, u: Update, kinds: map<Name, TypeKind>) {
    Lands(s.(ds := Merge(s.ds, u.ranges)), u.items) && KindsFit(share, u.items, kinds)
  }

  /** A struct with deleted content whose clock is not known, and not held by another struct of the update. */
  predicate ArrivesDeleted(before: DocState, es: seq<E.EncodedItem>, e: E.EncodedItem) {
    && e in es && e.ref == 1 && !e.isGC && !e.isSkip && Lookup(before.store, Id(e.client, e.clock)).None?
    && forall f :: f in es && !f.isGC && !f.isSkip && f.client == e.client && f.clock <= e.clock < f.clock + f.length ==> f == e
  }

  /** Every clock of such a struct is deleted afterwards, and no reader sees it. */
  ghost predicate DeletedArrive(before: DocState, es: seq<E.EncodedItem>, after: DocState) {
    forall e, n: nat :: ArrivesDeleted(before, es, e) && e.clock <= n < e.clock + e.length ==>
      IsDead(after, Id(e.client, n)) && Unseen(after, Id(e.client, n))
  }

  lemma DeletedStructsArrive(s: DocState, es: seq<E.EncodedItem>, ranges: DeleteSet, order: seq<ClientRange>)
    requires Inv(s) && AllItems(Kept(es)) && Lands(s.(ds := Merge(s.ds, ranges)), CellsFrom(Kept(es)))
    ensures DeletedArrive(s, es, Replicas.ApplyUpdate(s, Update(CellsFrom(Kept(es)), ranges), order))
  {
    hide Inv, Lands, Merge, Kept, IsItem, FromEncoded, Replicas.ApplyUpdate, IsDead, Unseen, Find;
    var kept, u := Kept(es), Update(CellsFrom(Kept(es)), ranges);
    forall e, n: nat | ArrivesDeleted(s, es, e) && e.clock <= n < e.clock + e.length
      ensures var t := Replicas.ApplyUpdate(s, u, order); IsDead(t, Id(e.client, n)) && Unseen(t, Id(e.client, n))
    {
      KeptIs(es, e);
      var i :| 0 <= i < |kept| && kept[i] == e;
      StructAsItem(e);
      forall y | y in u.items && Covers(y, u.items[i].id) ensures y == u.items[i] {
        var j :| 0 <= j < |kept| && u.items[j] == y;
        StructAsItem(kept[j]);
        KeptIs(es, kept[j]);
      }
      GoneArrives(s, u, order, u.items[i], Id(e.client, n));
    }
  }

  /**
   * ApplyUpdate: bytes that cannot be decoded change nothing; others have on the document the effect
   * of the decoded update, for some order in which the accumulated delete set was visited. What arrives with
   * deleted content is deleted.
   */
  method ApplyUpdate(d: Doc, data: Bytes, ghost kinds: map<Name, TypeKind>) returns (ok: bool, ghost order: seq<ClientRange>)
    requires d.Valid() && Readable(data)
    requires DecodeBytes(data).Some? ==> Acceptable(d.held.view, d.share, DecodeBytes(data).value, kinds)
    modifies d`ds, d`share, d`held, d.store`clients, d.share.Values, d.held.says.Keys
    ensures d.Valid() && (ok <==> DecodeBytes(data).Some?)
    ensures !ok ==> d.held == old(d.held) && d.share == old(d.share)
    ensures ok ==> var u := DecodeBytes(data).value;
                   Visits(order, Merge(old(d.held.view.ds), u.ranges)) && d.held.view == Replicas.ApplyUpdate(old(d.held.view), u, order)
    ensures fresh(d.held.says.Keys - old(d.held.says.Keys)) && fresh(d.share.Values - old(d.share.Values))
    ensures ok ==> KnownKinds(d.share, kinds)
    ensures ok ==> DeletedArrive(old(d.held.view), Updates.Parse(data).value.items, d.held.view)
  {
    hide Updates.Parse, DeletedArrive, AllItems, Kept, CellsFrom, Made, Decoded, KnownKinds, KindsOf, Lands, Coherent, Embodied, Inv, Placed, Merge, Visits;
    hide Replicas.ApplyUpdate, Says;
    order := [];
    var u := Updates.Decode(data);
    if u.Err? { return false, []; }
    ParsedNotEmpty(data);
    var items := MakeItems(u.value.items);
    MadeIsDecoded(items, CellsFrom(Kept(u.value.items)), d.held.says.Keys);
    assert d.Valid() && forall k :: 0 <= k < |items| ==> fresh(items[k]);
    ghost var before := d.held.view;
    order := ApplyDecoded(d, items, u.value.ds, kinds);
    ok := true;
    DeletedStructsArrive(before, u.value.items, u.value.ds, order);
  }

  /** An update that comes in causal order fits. */
  lemma {:induction false} FlowsFit(s: DocState, cells: seq<Cell>)
    requires Flows(s, cells)
    ensures Lands(s, cells)
    decreases |cells|
  {
    hide Receive, Enabled, Fits;
    if cells != [] {
      assert Fits(s, cells[0]) by { EnabledIsFit(s, cells[0]); }
      FlowsFit(Receive(s, cells[0]), cells[1..]);
    }
  }

  lemma EnabledIsFit(s: DocState, x: Cell)
    requires Enabled(s, x)
    ensures Fits(s, x)
  {
  }
}
