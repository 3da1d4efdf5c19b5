/**
 * Deleted content on the wire: an item that arrives with ref 1 is deleted from the start, on every replica
 * that stores it, and nothing that a reader sees has one of its clocks.
 */
module DeletedContent {
  import opened Ids
  import opened Cells
  import opened Integration
  import opened Deletion
  import opened Exactness
  import opened DeleteOrder
  import opened Replicas
  import opened UnitReplicas
  import opened Authoring

  /** The item is stored with deleted content, and its flag is set. */
  predicate StoredGone(s: DocState, x: Cell) {
    var c := Lookup(s.store, x.id);
    c.Some? && c.value.id == x.id && c.value.len == x.len && c.value.content.Gone? && x.id in s.dead
  }

  lemma BecomesGone(s: DocState, x: Cell)
    requires x.content.Gone? && x.len >= 1 && Lookup(s.store, x.id).None?
    ensures StoredGone(Receive(s, x), x)
  {
    hide Find, Link;
    LookupAfterAppend(s.store, x.(home := Resolve(s.store, x)), x.id);
  }

  lemma StaysNew(s: DocState, y: Cell, id: Id)
    requires Lookup(s.store, id).None? && !Covers(y, id)
    ensures Lookup(Receive(s, y).store, id).None?
  {
    hide Find, Link;
    LookupAfterAppend(s.store, y.(home := Resolve(s.store, y)), id);
  }

  lemma ReceiveKeepsGone(s: DocState, x: Cell, y: Cell)
    requires StoredGone(s, x)
    ensures StoredGone(Receive(s, y), x)
  {
    hide Find, Link;
    LookupAfterAppend(s.store, y.(home := Resolve(s.store, y)), x.id);
  }

  lemma {:induction false} DeliverKeepsGone(s: DocState, x: Cell, items: seq<Cell>)
    requires StoredGone(s, x)
    ensures StoredGone(Deliver(s, items), x)
    decreases |items|
  {
    hide Receive, StoredGone;
    if items != [] {
      ReceiveKeepsGone(s, x, items[0]);
      DeliverKeepsGone(Receive(s, items[0]), x, items[1..]);
    }
  }

  /** Of the items that hold this clock the first one is this item. */
  predicate OnlyHolder(items: seq<Cell>, x: Cell) {
    x in items && forall y :: y in items && Covers(y, x.id) ==> y == x
  }

  lemma {:induction false} DeliverMakesGone(s: DocState, x: Cell, items: seq<Cell>)
    requires OnlyHolder(items, x) && x.content.Gone? && x.len >= 1 && Lookup(s.store, x.id).None?
    ensures StoredGone(Deliver(s, items), x)
    decreases |items|
  {
    hide Find, Receive, StoredGone;
    var y, rest := items[0], items[1..];
    assert items == [y] + rest;
    if y == x {
      BecomesGone(s, x);
      DeliverKeepsGone(Receive(s, x), x, rest);
    } else {
      assert y in items && !Covers(y, x.id);
      StaysNew(s, y, x.id);
      DeliverMakesGone(Receive(s, y), x, rest);
    }
  }

  lemma SplitKeepsGone(s: DocState, x: Cell, at: Id)
    requires Inv(s) && StoredGone(s, x)
    ensures Inv(SplitAt(s, at)) && StoredGone(SplitAt(s, at), x)
  {
    hide Find, LeftPart, RightPart;
    SplitKeepsInv(s, at);
    SplitLookup(s, at, x.id);
  }

  lemma ApplyKeepsGone(s: DocState, x: Cell, client: nat, r: Range)
    requires Inv(s) && StoredGone(s, x)
    ensures Inv(ApplyRange(s, client, r)) && StoredGone(ApplyRange(s, client, r), x)
  {
    hide SplitAt, Inv, Find;
    SplitKeepsGone(s, x, Id(client, r.clock));
    SplitKeepsGone(SplitAt(s, Id(client, r.clock)), x, Id(client, r.clock + r.len));
    ApplyKeepsInv(s, client, r);
  }

  lemma {:induction false} ApplyAllKeepsGone(s: DocState, x: Cell, order: seq<ClientRange>)
    requires Inv(s) && StoredGone(s, x)
    ensures Inv(ApplyAll(s, order)) && StoredGone(ApplyAll(s, order), x)
    decreases |order|
  {
    hide Inv, StoredGone, ApplyRange;
    if order != [] {
      ApplyKeepsGone(s, x, order[0].client, order[0].range);
      ApplyAllKeepsGone(ApplyRange(s, order[0].client, order[0].range), x, order[1..]);
    }
  }

  /** No item that a reader sees in any list holds this clock. */
  ghost predicate Unseen(s: DocState, id: Id) {
    forall k, c :: c in Visible(ChainOf(s.chains, k), s.dead) ==> !Covers(c, id)
  }

  lemma GoneUnseen(s: DocState, x: Cell, id: Id)
    requires Inv(s) && StoredGone(s, x) && Covers(x, id)
    ensures IsDead(s, id) && Unseen(s, id)
  {
    var d := Lookup(s.store, x.id).value;
    FindIsUnique(ItemsOf(s.store, id.client), id.client, id, d);
    forall k, c | c in Visible(ChainOf(s.chains, k), s.dead) ensures !Covers(c, id) {
      VisibleIn(ChainOf(s.chains, k), s.dead);
      if Covers(c, id) {
        assert ChainOk(s.store, ChainOf(s.chains, k), k);
        FindIsUnique(ItemsOf(s.store, id.client), id.client, id, c);
      }
    }
  }

  /**
   * An item with deleted content that an update brings, and whose clock was not known: after the update each
   * of its clocks is stored and deleted, and no reader sees any of them.
   */
  lemma GoneArrives(s: DocState, u: Update, order: seq<ClientRange>, x: Cell, id: Id)
    requires Inv(s) && Lands(s.(ds := Merge(s.ds, u.ranges)), u.items)
    requires OnlyHolder(u.items, x) && x.content.Gone? && Lookup(s.store, x.id).None? && Covers(x, id)
    ensures var t := ApplyUpdate(s, u, order); IsDead(t, id) && Unseen(t, id)
  {
    hide Inv, StoredGone, Deliver, ApplyAll, Find, Merge, IsDead;
    var s' := s.(ds := Merge(s.ds, u.ranges));
    InvIgnoresDs(s, s'.ds);
    LandsKeepsInv(s', u.items);
    DeliverMakesGone(s', x, u.items);
    ApplyAllKeepsGone(Deliver(s', u.items), x, order);
    GoneUnseen(ApplyUpdate(s, u, order), x, id);
  }

  lemma {:induction false} LandsKeepsInv(s: DocState, items: seq<Cell>)
    requires Inv(s) && Lands(s, items)
    ensures Inv(Deliver(s, items))
    decreases |items|
  {
    hide Inv, Receive, Fits;
    if items != [] {
      ReceiveKeepsInv(s, items[0]);
      LandsKeepsInv(Receive(s, items[0]), items[1..]);
    }
  }
}
