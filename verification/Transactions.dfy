/** Doc.Transact on the objects: the operations of a transaction and the update that it emits. */
module Transactions {
  import opened Wrappers
  import opened Values
  import opened Ids
  import opened Cells
  import opened Integration
  import opened Varints
  import opened Authoring
  import opened LocalEdits
  import opened Replicas
  import opened Replication
  import E = EncodedItems
  import Updates
  import opened Encoding
  import opened Items
  import opened Docs
  import opened Integrator
  import Arrays
  import Maps

  /** The delete set of an update: one range for each deleted item. */
  function DeletedSet(cells: seq<Cell>): DeleteSet {
    if cells == [] then map[]
    else
      var ds, c := DeletedSet(cells[..|cells| - 1]), cells[|cells| - 1];
      ds[c.id.client := RangesOf(ds, c.id.client) + [Range(c.id.clock, c.len)]]
  }

  predicate SomeCovers(cells: seq<Cell>, id: Id) {
    exists c :: c in cells && Covers(c, id)
  }

  lemma RangeOfCell(ranges: seq<Range>, c: Cell, clock: nat)
    ensures (exists r :: r in ranges + [Range(c.id.clock, c.len)] && InRange(r, clock))
            <==> (exists r :: r in ranges && InRange(r, clock)) || c.id.clock <= clock < End(c)
  {
    var last := Range(c.id.clock, c.len);
    assert last in ranges + [last] && (InRange(last, clock) <==> c.id.clock <= clock < End(c));
  }

  /** It covers exactly the units of the deleted items. */
  lemma {:induction false} DeletedSetIs(cells: seq<Cell>, id: Id)
    ensures InDeleteSet(DeletedSet(cells), id) <==> SomeCovers(cells, id)
  {
    if cells != [] {
      var front, last := cells[..|cells| - 1], cells[|cells| - 1];
      DeletedSetIs(front, id);
      assert cells == front + [last];
      RangeOfCell(RangesOf(DeletedSet(front), id.client), last, id.clock);
      assert SomeCovers(cells, id) <==> SomeCovers(front, id) || Covers(last, id);
    }
  }

  /** For items of one unit it is what Emitted says. */
  lemma {:induction false} DeletedIsKillSet(cells: seq<Cell>)
    requires forall c :: c in cells ==> c.len == 1
    ensures DeletedSet(cells) == KillSet(IdSeq(cells))
  {
    if cells != [] {
      var front := cells[..|cells| - 1];
      DeletedIsKillSet(front);
      assert IdSeq(cells)[..|cells| - 1] == IdSeq(front);
      assert cells[|cells| - 1] in cells;
    }
  }

  /** itemToEncoded: the info byte is built up from the fields that are there. */
  method ItemToEncoded(item: Item) returns (e: E.EncodedItem)
    requires RefOf(item.content) < 32
    ensures e == ToEncoded(item.AsCell())
  {
    hide Flat;
    var ref := RefOf(item.content);
    var info: nat := ref;
    if item.originLeft.Some? { info := info + 128; }
    if item.originRight.Some? { info := info + 64; }
    if item.parentSub.Some? { info := info + 32; }
    var parent := E.NoParent;
    if item.originLeft.None? && item.originRight.None? && item.Home().Some? {
      parent := E.ByKey(item.Home().value);
    }
    var data := DataOf(item.content);
    e := E.EncodedItem(item.id.client, item.id.clock, item.length, false, false, info, item.originLeft, item.originRight, parent,
                       item.parentSub, ref, data);
  }

  lemma AllSendableAt(items: seq<Cell>, i: nat)
    requires AllSendable(items) && i < |items|
    ensures Sendable(items[i]) && RefOf(items[i].content) < 32 && Structs(items)[i] == ToEncoded(items[i])
  {
  }

  /** The structs of a list of items. */
  method EncodeItems(items: seq<Item>) returns (es: seq<E.EncodedItem>)
    requires AllSendable(Says(items))
    ensures es == Structs(Says(items))
  {
    hide Sendable, AllSendable, ToEncoded, RefOf, Structs, Says;
    ghost var cells := Says(items);
    es := [];
    for i := 0 to |items|
      invariant es == Structs(cells)[..i]
    {
      AllSendableAt(cells, i);
      var e := ItemToEncoded(items[i]);
      assert Structs(cells)[..i + 1] == Structs(cells)[..i] + [Structs(cells)[i]];
      es := es + [e];
    }
    assert Structs(cells)[..|items|] == Structs(cells);
  }

  /** The delete set of a list of items. */
  method EncodeDeletes(items: seq<Item>) returns (ds: DeleteSet)
    ensures ds == DeletedSet(Says(items))
  {
    ds := map[];
    ghost var cells := Says(items);
    for i := 0 to |items|
      invariant ds == DeletedSet(cells[..i])
    {
      assert cells[..i + 1][..i] == cells[..i];
      ds := ds[items[i].id.client := RangesOf(ds, items[i].id.client) + [Range(items[i].id.clock, items[i].length)]];
    }
    assert cells[..|items|] == cells;
  }

  /** The bytes of an update, or those of the empty update if it cannot be encoded. */
  ghost function BytesOf(u: Updates.UpdateV1): Bytes
    requires Updates.AllFit(u.items)
  {
    match Updates.Print(u)
    case Ok(data) => data
    case Err(_) => match Updates.Print(EMPTY_UPDATE) case Ok(none) => none case Err(_) => []
  }

  const EMPTY_UPDATE := Updates.UpdateV1([], map[])

  /** encodeUpdateV1 */
  method EncodeUpdate(items: seq<Item>, deletedItems: seq<Item>) returns (data: Bytes)
    requires AllSendable(Says(items)) && |items| < TWO64 && Updates.DsFits(DeletedSet(Says(deletedItems)))
    ensures Updates.AllFit(Structs(Says(items)))
    ensures data == BytesOf(Updates.UpdateV1(Structs(Says(items)), DeletedSet(Says(deletedItems))))
  {
    hide Updates.Print, Sendable, DeletedSet, Updates.DsFits, Updates.AllFit, AllSendable, Structs, Says;
    var es := EncodeItems(items);
    var ds := EncodeDeletes(deletedItems);
    ItemsFit(Says(items));
    var res := Updates.Encode(Updates.UpdateV1(es, ds));
    if res.Ok? { return res.value; }
    EmptyFits();
    res := Updates.Encode(EMPTY_UPDATE);
    data := if res.Ok? then res.value else [];
  }

  lemma EmptyFits()
    ensures Updates.AllFit([]) && Updates.DsFits(map[])
  {
  }

  lemma ItemsFit(items: seq<Cell>)
    requires AllSendable(items)
    ensures Updates.AllFit(Structs(items)) && forall e :: e in Structs(items) ==> e.client < TWO64 && e.clock < TWO64
  {
    hide Sendable, E.Fits, E.WellFormed, Updates.Normal, IsItem;
    StructsFit(items);
  }

  // The operations.

  function KindOf(op: Op): TypeKind {
    if op.Set? || op.Remove? then MapType else ArrayType
  }

  /** Every name is used for one kind of type; otherwise the type assertions of GetArray and GetMap panic. */
  predicate OpsAgree(ops: seq<Op>, kinds: map<Name, TypeKind>) {
    forall i :: 0 <= i < |ops| ==> ops[i].name in kinds && kinds[ops[i].name] == KindOf(ops[i])
  }

  lemma ShareStillAgrees(before: Share, after: Share, kinds: map<Name, TypeKind>, name: Name, kind: TypeKind)
    requires KnownKinds(before, kinds) && Extends(before, after, Some(name), kind) && name in kinds && kinds[name] == kind
    ensures KnownKinds(after, kinds)
  {
  }

  /** GetArray and GetMap: the type of a name, created if there is none yet. */
  method GetType(d: Doc, name: Name, kind: TypeKind) returns (t: SharedType)
    requires d.Valid() && (name in d.share ==> d.share[name].kind == kind)
    modifies d`share
    ensures d.Valid() && name in d.share && d.share[name] == t && t.kind == kind && t.name == name
    ensures fresh(d.share.Values - old(d.share.Values)) && Extends(old(d.share), d.share, Some(name), kind)
    ensures t in d.share.Values
  {
    hide ItemsAre, ListsAre, FlagsAre, ListsLinked, LooseApart, StoreIs, Inv, Placed, HeadsAre, ParentsAre;
    t := NamedType(d, name, kind);
  }

  /** One operation on the type of its name. */
  method Apply(d: Doc, tx: Items.Transaction, ty: SharedType, op: Op, ghost t: Tx)
    requires d.Valid() && Arrays.Stage(d, tx, t)
    requires op.name in d.share && d.share[op.name] == ty && ty.name == op.name && ty.kind == KindOf(op)
    modifies d`held, d.store`clients, tx, ty`start, ty`starts, d.held.says.Keys`left, d.held.says.Keys`right, d.held.says.Keys`deleted
    ensures d.Valid() && Arrays.Stage(d, tx, Do(t, d.clientID, op)) && fresh(d.held.says.Keys - old(d.held.says.Keys))
    ensures Arrays.Added(tx.pendingDeletes, old(tx.pendingDeletes), d.held.says.Keys)
  {
    hide Coherent, Embodied, Inv, Placed, Arrays.Stage, Authoring.Push, Authoring.Insert, Authoring.Delete, Authoring.Set, Authoring.Remove;
    hide Arrays.Added;
    match op {
      case Push(_, values) => Arrays.Push(d, ty, tx, values, t);
      case Insert(_, index, values) => Arrays.Insert(d, ty, tx, index, values, t);
      case Delete(_, index, length) => Arrays.Delete(d, ty, tx, index, length, t);
      case Set(_, key, value) => Maps.Set(d, ty, tx, key, value, t);
      case Remove(_, key) => Maps.Delete(d, ty, tx, key, t);
    }
    if tx.pendingDeletes == old(tx.pendingDeletes) { Arrays.AddedNone(tx.pendingDeletes, d.held.says.Keys); }
  }

  /** One operation of a transaction. */
  method Perform(d: Doc, tx: Items.Transaction, op: Op, ghost t: Tx, ghost kinds: map<Name, TypeKind>)
    requires d.Valid() && Arrays.Stage(d, tx, t) && KnownKinds(d.share, kinds) && op.name in kinds && kinds[op.name] == KindOf(op)
    modifies d`share, d`held, d.store`clients, tx, d.share.Values`start, d.share.Values`starts
    modifies d.held.says.Keys`left, d.held.says.Keys`right, d.held.says.Keys`deleted
    ensures d.Valid() && Arrays.Stage(d, tx, Do(t, d.clientID, op)) && KnownKinds(d.share, kinds)
    ensures fresh(d.held.says.Keys - old(d.held.says.Keys)) && fresh(d.share.Values - old(d.share.Values))
    ensures Arrays.Added(tx.pendingDeletes, old(tx.pendingDeletes), d.held.says.Keys)
  {
    hide Coherent, Embodied, Inv, Placed, Says, Arrays.IdsIn, Arrays.Added, KnownKinds, Extends, Do;
    ghost var items, share := Says(tx.pendingItems), d.share;
    assert op.name in share ==> share[op.name].kind == KindOf(op) by { KindAgrees(share, kinds, op.name); }
    var ty := GetType(d, op.name, KindOf(op));
    ShareStillAgrees(share, d.share, kinds, op.name, KindOf(op));
    assert Says(tx.pendingItems) == items;
    Apply(d, tx, ty, op, t);
  }

  lemma KindAgrees(share: Share, kinds: map<Name, TypeKind>, name: Name)
    requires KnownKinds(share, kinds) && name in kinds
    ensures name in share ==> share[name].kind == kinds[name]
  {
  }

  // The items that Array and Map make are one clock long.

  ghost predicate SingleClocks(store: Store) {
    forall c :: InStore(store, c) ==> c.len == 1
  }

  lemma UnitsMore(store: Store, c: Cell)
    requires SingleClocks(store) && c.len == 1
    ensures SingleClocks(Append(store, c))
  {
    forall x | InStore(Append(store, c), x) ensures x.len == 1 {
      assert x == c || InStore(store, x);
    }
  }

  lemma {:induction false} PutAllUnits(tx: Tx, me: nat, name: Name, p: nat, values: seq<Any>)
    requires SingleClocks(tx.state.store) && p <= |ChainOf(tx.state.chains, ArrayKey(name))|
    ensures SingleClocks(PutAll(tx, me, name, p, values).state.store)
    decreases |values|
  {
    hide SingleClocks, Origin;
    if values != [] {
      UnitsMore(tx.state.store, Element(tx.state, me, name, p, values[0]));
      PutAllUnits(PutElement(tx, me, name, p, values[0]), me, name, p + 1, values[1..]);
    }
  }

  lemma DoKeepsUnits(tx: Tx, me: nat, op: Op)
    requires SingleClocks(tx.state.store)
    ensures SingleClocks(Do(tx, me, op).state.store)
  {
    hide SingleClocks, Doomed, PutAll, Slot;
    match op {
      case Push(name, values) => PutAllUnits(tx, me, name, |ChainOf(tx.state.chains, ArrayKey(name))|, values);
      case Insert(name, index, values) =>
        PutAllUnits(tx, me, name, Slot(ChainOf(tx.state.chains, ArrayKey(name)), tx.state.dead, index), values);
      case Delete(_, _, _) =>
      case Set(name, key, v) => UnitsMore(tx.state.store, Entry(tx.state, me, name, key, v));
      case Remove(_, _) =>
    }
  }

  ghost predicate OneEach(items: seq<Item>)
    reads items`length
  {
    forall i :: i in items ==> i.length == 1
  }

  lemma ItemsAreUnits(d: Doc, after: seq<Item>, before: seq<Item>)
    requires d.Valid() && SingleClocks(d.held.view.store) && OneEach(before) && Arrays.Added(after, before, d.held.says.Keys)
    ensures OneEach(after)
  {
    hide StoreIs, ListsAre, FlagsAre, ParentsAre, ListsLinked, LooseApart, HeadsAre, Inv, Placed;
    forall i | i in after ensures i.length == 1 {
      if i !in before {
        assert Lookup(d.held.view.store, i.id) == Some(d.held.says[i]) && i.AsCell() == d.held.says[i];
        assert InStore(d.held.view.store, d.held.says[i]);
      }
    }
  }

  // The whole transaction.

  /** What a transaction may not overflow: the fields of the wire format. */
  predicate Fits64(tx: Tx) {
    && AllSendable(tx.items) && |tx.items| < TWO64
    && |tx.kills| < TWO64 && forall id :: id in tx.kills ==> E.IdFits(id)
  }

  /** The bytes that the handlers of a document get after a transaction; nothing if nothing changed. */
  ghost function Sent(tx: Tx): Option<Bytes>
    requires Fits64(tx)
  {
    var es := Structs(tx.items);
    if tx.items == [] && tx.kills == [] then None
    else if Updates.AllFit(es) && Updates.Print(Updates.UpdateV1(es, KillSet(tx.kills))).Ok? then Some(EmittedBytes(tx))
    else None
  }

  lemma OneEachCells(items: seq<Item>)
    requires OneEach(items)
    ensures forall c :: c in Says(items) ==> c.len == 1
    ensures IdSeq(Says(items)) == Arrays.IdsIn(items)
  {
    forall c | c in Says(items) ensures c.len == 1 {
      var i :| 0 <= i < |items| && Says(items)[i] == c;
      assert items[i] in items;
    }
  }

  lemma SentIs(s: DocState, me: nat, ops: seq<Op>)
    requires Fits64(Work(s, me, ops))
    ensures var tx := Work(s, me, ops);
            && Updates.DsFits(KillSet(tx.kills)) && Updates.AllFit(Structs(tx.items))
            && (tx.items != [] || tx.kills != [] ==>
                  Sent(tx) == Some(BytesOf(Updates.UpdateV1(Structs(tx.items), KillSet(tx.kills)))) && DecodeBytes(Sent(tx).value) == Some(Emitted(tx)))
  {
    hide AllSendable, Updates.AllFit, Updates.Print, Updates.Parse, Structs, Updates.DsFits, KillSet, DoAll, AllItems, CellsFrom;
    EmittedIsDecoded(s, me, ops);
    KillSetSendable(Work(s, me, ops).kills);
  }

  /** What a transaction has collected. */
  lemma Collected(d: Doc, tx: Items.Transaction, t: Tx)
    requires Arrays.Stage(d, tx, t) && OneEach(tx.pendingDeletes)
    ensures Says(tx.pendingItems) == t.items && |tx.pendingItems| == |t.items|
    ensures DeletedSet(Says(tx.pendingDeletes)) == KillSet(t.kills) && |tx.pendingDeletes| == |t.kills|
  {
    hide DeletedSet, KillSet, OneEach;
    OneEachCells(tx.pendingDeletes);
    DeletedIsKillSet(Says(tx.pendingDeletes));
  }

  /** The end of a transaction: what was collected becomes the update. */
  method Close(d: Doc, tx: Items.Transaction, ghost s: DocState, ghost ops: seq<Op>) returns (update: Option<Bytes>)
    requires Arrays.Stage(d, tx, Work(s, d.clientID, ops)) && OneEach(tx.pendingDeletes) && Fits64(Work(s, d.clientID, ops))
    ensures update == Sent(Work(s, d.clientID, ops))
  {
    hide Updates.Print, Updates.AllFit, AllSendable, Structs, KillSet, Updates.DsFits, Work, Arrays.Stage, DeletedSet, OneEach, BytesOf, EmittedBytes;
    ghost var t := Work(s, d.clientID, ops);
    Collected(d, tx, t);
    if tx.pendingItems == [] && tx.pendingDeletes == [] { return None; }
    SentIs(s, d.clientID, ops);
    var data := EncodeUpdate(tx.pendingItems, tx.pendingDeletes);
    update := Some(data);
  }

  /** In the middle of a transaction: what is still to do leads to the goal. */
  ghost predicate Working(d: Doc, tx: Items.Transaction, ops: seq<Op>, t: Tx, goal: Tx, kinds: map<Name, TypeKind>)
    reads d, d.store, d.share.Values, d.held.says.Keys, tx, tx.pendingItems, tx.pendingDeletes
  {
    && d.Valid() && Arrays.Stage(d, tx, t) && OneEach(tx.pendingDeletes) && SingleClocks(t.state.store)
    && OpsAgree(ops, kinds) && KnownKinds(d.share, kinds) && DoAll(t, d.clientID, ops) == goal
  }

  /** The first of the remaining operations. */
  method WorkNext(d: Doc, tx: Items.Transaction, ops: seq<Op>, ghost t: Tx, ghost goal: Tx, ghost kinds: map<Name, TypeKind>)
    requires ops != [] && Working(d, tx, ops, t, goal, kinds)
    modifies d`share, d`held, d.store`clients, tx, d.share.Values`start, d.share.Values`starts
    modifies d.held.says.Keys`left, d.held.says.Keys`right, d.held.says.Keys`deleted
    ensures Working(d, tx, ops[1..], Do(t, d.clientID, ops[0]), goal, kinds)
    ensures fresh(d.held.says.Keys - old(d.held.says.Keys)) && fresh(d.share.Values - old(d.share.Values))
  {
    hide Coherent, Embodied, Inv, Placed, Arrays.Stage, Arrays.Added, KnownKinds, Do, SingleClocks, OneEach;
    ghost var before := tx.pendingDeletes;
    Perform(d, tx, ops[0], t, kinds);
    assert OneEach(before);
    DoKeepsUnits(t, d.clientID, ops[0]);
    Arrays.StageState(d, tx, Do(t, d.clientID, ops[0]));
    ItemsAreUnits(d, tx.pendingDeletes, before);
    assert forall i :: 0 <= i < |ops[1..]| ==> ops[1..][i] == ops[i + 1];
  }

  lemma WorkStarts(d: Doc, tx: Items.Transaction, ops: seq<Op>, kinds: map<Name, TypeKind>)
    requires d.Valid() && tx.pendingItems == [] && tx.pendingDeletes == [] && SingleClocks(d.held.view.store)
    requires OpsAgree(ops, kinds) && KnownKinds(d.share, kinds)
    ensures Working(d, tx, ops, Tx(d.held.view, [], []), Work(d.held.view, d.clientID, ops), kinds)
  {
  }

  lemma WorkEnds(d: Doc, tx: Items.Transaction, t: Tx, goal: Tx, kinds: map<Name, TypeKind>)
    requires Working(d, tx, [], t, goal, kinds)
    ensures d.Valid() && Arrays.Stage(d, tx, goal) && OneEach(tx.pendingDeletes)
    ensures d.held.view == goal.state && SingleClocks(d.held.view.store) && KnownKinds(d.share, kinds)
  {
  }

  /**
   * Doc.Transact, for operations on arrays and maps: the document becomes what the operations make
   * of it, and the handlers get the bytes that another document decodes to `Emitted`.
   */
  method Transact(d: Doc, ops: seq<Op>, ghost kinds: map<Name, TypeKind>) returns (update: Option<Bytes>)
    requires d.Valid() && OpsAgree(ops, kinds) && KnownKinds(d.share, kinds) && SingleClocks(d.held.view.store)
    requires Fits64(Work(d.held.view, d.clientID, ops))
    modifies d`share, d`held, d.store`clients, d.share.Values`start, d.share.Values`starts
    modifies d.held.says.Keys`left, d.held.says.Keys`right, d.held.says.Keys`deleted
    ensures d.Valid() && KnownKinds(d.share, kinds) && SingleClocks(d.held.view.store)
    ensures var tx := Work(old(d.held.view), d.clientID, ops); d.held.view == tx.state && update == Sent(tx)
    ensures fresh(d.held.says.Keys - old(d.held.says.Keys)) && fresh(d.share.Values - old(d.share.Values))
  {
    hide Coherent, Embodied, Inv, Placed, Arrays.Stage, KnownKinds, Do, SingleClocks, OneEach, Working, Work, Sent, Fits64;
    ghost var s := d.held.view;
    ghost var goal := Work(s, d.clientID, ops);
    var tx := new Items.Transaction();
    assert d.Valid();
    WorkStarts(d, tx, ops, kinds);
    ghost var t := Tx(s, [], []);
    assert ops[0..] == ops;
    for i := 0 to |ops|
      invariant Working(d, tx, ops[i..], t, goal, kinds)
      invariant fresh(d.held.says.Keys - old(d.held.says.Keys)) && fresh(d.share.Values - old(d.share.Values))
    {
      WorkNext(d, tx, ops[i..], t, goal, kinds);
      t := Do(t, d.clientID, ops[i]);
      assert ops[i..][1..] == ops[i + 1..];
    }
    assert ops[|ops|..] == [];
    WorkEnds(d, tx, t, goal, kinds);
    update := Close(d, tx, s, ops);
  }
}
