/**
 * An author and a replica, both as objects: the bytes of every transaction of the one are applied
 * to the other.
 */
module Sessions {
  import opened Wrappers
  import opened Values
  import opened Cells
  import opened Integration
  import opened Convergence
  import opened Replicas
  import opened UnitReplicas
  import opened Authoring
  import opened LocalEdits
  import opened Replication
  import Updates
  import opened Encoding
  import opened Items
  import opened Docs
  import opened Updater
  import opened Applying
  import opened Transactions

  // What a transaction sends is acceptable.

  lemma {:induction false} PutAllKinds(tx: Tx, me: nat, name: Name, p: nat, values: seq<Any>, kinds: map<Name, TypeKind>)
    requires KindsOf(tx.items, kinds) && p <= |ChainOf(tx.state.chains, ArrayKey(name))| && name in kinds && kinds[name] == ArrayType
    ensures KindsOf(PutAll(tx, me, name, p, values).items, kinds)
    decreases |values|
  {
    hide Origin;
    if values != [] {
      PutAllKinds(PutElement(tx, me, name, p, values[0]), me, name, p + 1, values[1..], kinds);
    }
  }

  lemma DoKinds(tx: Tx, me: nat, op: Op, kinds: map<Name, TypeKind>)
    requires KindsOf(tx.items, kinds) && op.name in kinds && kinds[op.name] == KindOf(op)
    ensures KindsOf(Do(tx, me, op).items, kinds)
  {
    hide PutAll, Slot, Doomed;
    match op {
      case Push(name, values) => PutAllKinds(tx, me, name, |ChainOf(tx.state.chains, ArrayKey(name))|, values, kinds);
      case Insert(name, index, values) =>
        PutAllKinds(tx, me, name, Slot(ChainOf(tx.state.chains, ArrayKey(name)), tx.state.dead, index), values, kinds);
      case Delete(_, _, _) =>
      case Set(_, _, _) =>
      case Remove(_, _) =>
    }
  }

  lemma {:induction false} DoAllKinds(tx: Tx, me: nat, ops: seq<Op>, kinds: map<Name, TypeKind>)
    requires KindsOf(tx.items, kinds) && OpsAgree(ops, kinds)
    ensures KindsOf(DoAll(tx, me, ops).items, kinds)
    decreases |ops|
  {
    hide KindsOf, Do;
    if ops != [] {
      DoKinds(tx, me, ops[0], kinds);
      DoAllKinds(Do(tx, me, ops[0]), me, ops[1..], kinds);
    }
  }

  lemma WiresKinds(items: seq<Cell>, share: Share, kinds: map<Name, TypeKind>)
    requires KindsOf(items, kinds) && KnownKinds(share, kinds)
    ensures KindsFit(share, Wires(items), kinds)
  {
  }

  lemma SentFits(s: DocState, me: nat, r: DocState, ops: seq<Op>)
    requires Synced(s, me, r) && Named(ops)
    ensures var u := Emitted(Work(s, me, ops)); Lands(r.(ds := Merge(r.ds, u.ranges)), u.items)
  {
    hide Local, UnitReplica, Mirrors, Accounts, Inv, Flows, DoAll, Merge, KillSet;
    Begin(s, me, r);
    DoAllFeeds(Tx(s, [], []), me, r, ops);
    var u := Emitted(Work(s, me, ops));
    DeliverSame(r, r.(ds := Merge(r.ds, u.ranges)), u.items);
    FlowsFit(r.(ds := Merge(r.ds, u.ranges)), u.items);
  }

  /** A replica can take the bytes of any transaction of its author. */
  lemma SentIsAcceptable(s: DocState, me: nat, r: DocState, share: Share, ops: seq<Op>, kinds: map<Name, TypeKind>)
    requires Synced(s, me, r) && Named(ops) && OpsAgree(ops, kinds) && KnownKinds(share, kinds)
    ensures Acceptable(r, share, Emitted(Work(s, me, ops)), kinds)
  {
    hide Synced, Lands, Merge, KillSet, OpsAgree, KindsFit, DoAll;
    SentFits(s, me, r, ops);
    DoAllKinds(Tx(s, [], []), me, ops, kinds);
    WiresKinds(Work(s, me, ops).items, share, kinds);
  }

  // The two documents.

  /** They share no object. */
  ghost predicate Apart(a: Doc, r: Doc)
    reads a, r
  {
    a != r && a.store != r.store && a.share.Values !! r.share.Values && a.held.says.Keys !! r.held.says.Keys
  }

  /** Two documents that use every name for the same kind of type. */
  ghost predicate Both(a: Doc, r: Doc, kinds: map<Name, TypeKind>)
    reads a, a.store, a.share.Values, a.held.says.Keys, r, r.store, r.share.Values, r.held.says.Keys
  {
    && a.Valid() && r.Valid() && Apart(a, r) && SingleClocks(a.held.view.store)
    && KnownKinds(a.share, kinds) && KnownKinds(r.share, kinds)
  }

  /** The author's document and the replica agree. */
  ghost predicate Paired(a: Doc, r: Doc, kinds: map<Name, TypeKind>)
    reads a, a.store, a.share.Values, a.held.says.Keys, r, r.store, r.share.Values, r.held.says.Keys
  {
    Both(a, r, kinds) && Synced(a.held.view, a.clientID, r.held.view)
  }

  /** The replica applies the bytes of a transaction. */
  method ReplicaApplies(a: Doc, r: Doc, data: Bytes, ghost s: DocState, ghost ops: seq<Op>, ghost kinds: map<Name, TypeKind>)
    requires Both(a, r, kinds) && OpsAgree(ops, kinds) && Named(ops)
    requires Synced(s, a.clientID, r.held.view) && DecodeBytes(data) == Some(Emitted(Work(s, a.clientID, ops)))
    requires Work(s, a.clientID, ops).items != [] || Work(s, a.clientID, ops).kills != []
    modifies r, r.store, r.share.Values, r.held.says.Keys
    ensures Both(a, r, kinds) && Synced(Work(s, a.clientID, ops).state, a.clientID, r.held.view)
    ensures fresh(r.held.says.Keys - old(r.held.says.Keys)) && fresh(r.share.Values - old(r.share.Values))
  {
    hide Coherent, Embodied, Inv, Placed, Synced, KindsFit, OpsAgree, Work, Updates.Parse, AllItems, Kept, CellsFrom, Visits, Merge;
    hide Replicas.ApplyUpdate, Emitted, KnownKinds, SingleClocks;
    ghost var me, before := a.clientID, r.held.view;
    SentIsAcceptable(s, me, before, r.share, ops, kinds);
    var ok; ghost var order;
    ok, order := Applying.ApplyUpdate(r, data, kinds);
    RelaySyncs(s, me, before, ops, order);
    assert a.Valid();
  }

  /** The author commits a transaction. */
  method AuthorCommits(a: Doc, r: Doc, ops: seq<Op>, ghost kinds: map<Name, TypeKind>) returns (update: Option<Bytes>)
    requires Both(a, r, kinds) && OpsAgree(ops, kinds) && Fits64(Work(a.held.view, a.clientID, ops))
    modifies a, a.store, a.share.Values, a.held.says.Keys
    ensures Both(a, r, kinds)
    ensures var tx := Work(old(a.held.view), a.clientID, ops); a.held.view == tx.state && update == Sent(tx)
    ensures fresh(a.held.says.Keys - old(a.held.says.Keys)) && fresh(a.share.Values - old(a.share.Values))
  {
    hide Coherent, Embodied, Inv, Placed, SingleClocks, KnownKinds, KindsFit, OpsAgree, Work, Fits64, Sent;
    update := Transact(a, ops, kinds);
    assert r.Valid();
  }

  /** One transaction of the author, and its bytes applied to the replica. */
  method Round(a: Doc, r: Doc, ops: seq<Op>, ghost kinds: map<Name, TypeKind>)
    requires Paired(a, r, kinds) && OpsAgree(ops, kinds) && Named(ops) && Fits64(Work(a.held.view, a.clientID, ops))
    modifies a, a.store, a.share.Values, a.held.says.Keys, r, r.store, r.share.Values, r.held.says.Keys
    ensures Paired(a, r, kinds) && a.held.view == Work(old(a.held.view), a.clientID, ops).state
    ensures fresh(a.held.says.Keys - old(a.held.says.Keys)) && fresh(a.share.Values - old(a.share.Values))
    ensures fresh(r.held.says.Keys - old(r.held.says.Keys)) && fresh(r.share.Values - old(r.share.Values))
  {
    hide Both, Synced, OpsAgree, Work, Fits64, Sent, DecodeBytes, Emitted, Named;
    ghost var s, me := a.held.view, a.clientID;
    BothApart(a, r, kinds);
    var update := AuthorCommits(a, r, ops, kinds);
    SentDecodes(s, me, ops);
    if update.Some? {
      ReplicaApplies(a, r, update.value, s, ops, kinds);
    } else {
      IdleSyncs(s, me, r.held.view, ops);
    }
  }

  lemma BothApart(a: Doc, r: Doc, kinds: map<Name, TypeKind>)
    requires Both(a, r, kinds)
    ensures Apart(a, r)
  {
  }

  lemma SentDecodes(s: DocState, me: nat, ops: seq<Op>)
    requires Fits64(Work(s, me, ops))
    ensures var tx := Work(s, me, ops);
            && (Sent(tx).None? <==> tx.items == [] && tx.kills == [])
            && (Sent(tx).Some? ==> DecodeBytes(Sent(tx).value) == Some(Emitted(tx)))
  {
    hide Work, Fits64, Sent, DecodeBytes, Emitted;
    SentIs(s, me, ops);
    NothingSent(Work(s, me, ops));
  }

  lemma NothingSent(tx: Tx)
    requires Fits64(tx)
    ensures tx.items == [] && tx.kills == [] ==> Sent(tx).None?
  {
    hide AllSendable;
  }

  // Whole sessions.

  /** Every transaction uses named types consistently and fits the wire format. */
  ghost predicate RunFits(s: DocState, me: nat, work: seq<seq<Op>>, kinds: map<Name, TypeKind>)
    decreases |work|
  {
    work == [] || (OpsAgree(work[0], kinds) && Named(work[0]) && Fits64(Work(s, me, work[0]))
                   && RunFits(Work(s, me, work[0]).state, me, work[1..], kinds))
  }

  ghost function After(s: DocState, me: nat, work: seq<seq<Op>>): DocState
    decreases |work|
  {
    if work == [] then s else After(Work(s, me, work[0]).state, me, work[1..])
  }

  /** What both documents show to a reader. */
  ghost predicate SameContents(s: DocState, r: DocState) {
    && (forall name :: ToSlice(r, name) == ToSlice(s, name))
    && (forall name, key :: Get(r, name, key) == Get(s, name, key))
  }

  lemma PairedReads(a: Doc, r: Doc, kinds: map<Name, TypeKind>)
    requires Paired(a, r, kinds)
    ensures SameContents(a.held.view, r.held.view)
  {
    hide Both, Synced, ToSlice, Get;
    forall name ensures ToSlice(r.held.view, name) == ToSlice(a.held.view, name) {
      SyncedReads(a.held.view, a.clientID, r.held.view, name, []);
    }
    forall name, key ensures Get(r.held.view, name, key) == Get(a.held.view, name, key) {
      SyncedReads(a.held.view, a.clientID, r.held.view, name, key);
    }
  }

  /**
   * A whole session, through bytes: after any run of transactions of the author, each sent to the
   * replica, every array and every map entry reads the same in both documents.
   */
  method Replicate(a: Doc, r: Doc, work: seq<seq<Op>>, ghost kinds: map<Name, TypeKind>)
    requires Paired(a, r, kinds) && RunFits(a.held.view, a.clientID, work, kinds)
    modifies a, a.store, a.share.Values, a.held.says.Keys, r, r.store, r.share.Values, r.held.says.Keys
    ensures Paired(a, r, kinds) && a.held.view == After(old(a.held.view), a.clientID, work)
    ensures SameContents(a.held.view, r.held.view)
  {
    hide Paired, Work, OpsAgree, Named, Fits64, SameContents;
    ghost var goal := After(a.held.view, a.clientID, work);
    assert work[0..] == work;
    for i := 0 to |work|
      invariant Paired(a, r, kinds) && RunFits(a.held.view, a.clientID, work[i..], kinds)
      invariant After(a.held.view, a.clientID, work[i..]) == goal
      invariant fresh(a.held.says.Keys - old(a.held.says.Keys)) && fresh(a.share.Values - old(a.share.Values))
      invariant fresh(r.held.says.Keys - old(r.held.says.Keys)) && fresh(r.share.Values - old(r.share.Values))
    {
      Round(a, r, work[i], kinds);
      assert work[i..][1..] == work[i + 1..];
    }
    PairedReads(a, r, kinds);
  }

  /** Two new documents start out paired. */
  method Pair(author: nat, replica: nat, ghost kinds: map<Name, TypeKind>) returns (a: Doc, r: Doc)
    ensures Paired(a, r, kinds) && a.clientID == author && r.clientID == replica && a.held.view == EMPTY
  {
    a := new Doc(author);
    r := new Doc(replica);
    assert a.Valid();
    StartSynced(author);
  }
}
