/** The bytes of a diff between documents of several authors, and what the receiver makes of them. */
module DiffBytes {
  import opened Wrappers
  import opened Cells
  import opened Integration
  import opened Varints
  import opened Replication
  import opened Tiling
  import opened DiffSync
  import opened StateVectors
  import E = EncodedItems
  import Updates
  import opened Encoding
  import opened Syncing

  lemma TailOfSum<T>(a: seq<T>, b: seq<T>)
    requires a != []
    ensures (a + b)[0] == a[0] && (a + b)[1..] == a[1..] + b
  {
  }

  lemma SumsAgree<T>(a: seq<T>, b: seq<T>, c: seq<T>)
    ensures (a + b) + c == a + (b + c)
  {
  }

  lemma GroupFirst(es: seq<E.EncodedItem>, c: nat)
    requires es != []
    ensures Updates.GroupOf(es, c) == (if es[0].client == c then [es[0]] else []) + Updates.GroupOf(es[1..], c)
  {
  }

  lemma {:induction false} GroupConcat(a: seq<E.EncodedItem>, b: seq<E.EncodedItem>, c: nat)
    ensures Updates.GroupOf(a + b, c) == Updates.GroupOf(a, c) + Updates.GroupOf(b, c)
  {
    if a == [] {
      assert Updates.GroupOf(a, c) == [];
      assert a + b == b;
    } else {
      hide Updates.AllFit, Updates.GroupOf;
      GroupConcat(a[1..], b, c);
      GroupFirst(a, c);
      GroupFirst(a + b, c);
      TailOfSum(a, b);
      SumsAgree(if a[0].client == c then [a[0]] else [], Updates.GroupOf(a[1..], c), Updates.GroupOf(b, c));
    }
  }

  lemma {:induction false} GroupNone(es: seq<E.EncodedItem>, c: nat)
    requires forall i :: 0 <= i < |es| ==> es[i].client != c
    ensures Updates.GroupOf(es, c) == []
  {
    hide Updates.AllFit;
    if es != [] { GroupNone(es[1..], c); }
  }

  /** What is sent for one client is a row of its items. */
  lemma RestInRow(store: Store, sv: map<nat, nat>, c: nat)
    requires GapFree(store) && StoreSendable(store)
    ensures var rest := Rest(ItemsOf(store, c), StateIn(sv, c)); InRow(rest, c) && AllSendable(rest)
  {
    hide Sendable;
    GapFreeAt(store, c);
    var items, k := ItemsOf(store, c), FirstAfter(ItemsOf(store, c), StateIn(sv, c));
    assert AllSendable(items);
    forall i | 0 <= i < |items[k..]| ensures items[k..][i].id.client == c && Sendable(items[k..][i]) {
      assert items[k..][i] == items[k + i];
    }
    forall i | 0 < i < |items[k..]| ensures items[k..][i].id.clock == End(items[k..][i - 1]) {
      assert items[k..][i] == items[k + i] && items[k..][i - 1] == items[k + i - 1];
    }
  }

  lemma {:induction false} DiffSendable(store: Store, sv: map<nat, nat>, clients: seq<nat>)
    requires GapFree(store) && StoreSendable(store)
    ensures AllSendable(Diff(store, sv, clients))
  {
    hide Sendable, GapFree, StoreSendable, Rest;
    if clients != [] {
      RestInRow(store, sv, clients[0]);
      DiffSendable(store, sv, clients[1..]);
    }
  }

  lemma GroupOfRest(rest: seq<Cell>, d: nat, c: nat)
    requires InRow(rest, d) && AllSendable(rest)
    ensures Updates.GroupOf(Structs(rest), c) == if c == d then Structs(rest) else []
  {
    hide Sendable, Updates.AllFit;
    if c == d {
      OneClient(Structs(rest), c);
    } else {
      GroupNone(Structs(rest), c);
    }
  }

  /** Of each client the diff has one group, the rest of its items. */
  lemma {:induction false} DiffGroup(store: Store, sv: map<nat, nat>, clients: seq<nat>, c: nat)
    requires GapFree(store) && StoreSendable(store) && forall i, j :: 0 <= i < j < |clients| ==> clients[i] != clients[j]
    ensures AllSendable(Diff(store, sv, clients)) && AllSendable(Rest(ItemsOf(store, c), StateIn(sv, c)))
    ensures Updates.GroupOf(Structs(Diff(store, sv, clients)), c)
         == if c in clients then Structs(Rest(ItemsOf(store, c), StateIn(sv, c))) else []
  {
    hide Sendable, GapFree, StoreSendable, Rest, InRow, Updates.AllFit;
    RestInRow(store, sv, c);
    DiffSendable(store, sv, clients);
    if clients == [] {
      assert Structs([]) == [];
    } else {
      var d, others := clients[0], clients[1..];
      var rest := Rest(ItemsOf(store, d), StateIn(sv, d));
      RestInRow(store, sv, d);
      DiffGroup(store, sv, others, c);
      StructsMore(rest, Diff(store, sv, others));
      GroupConcat(Structs(rest), Structs(Diff(store, sv, others)), c);
      GroupOfRest(rest, d, c);
    }
  }

  lemma FirstIsIn(s: seq<nat>)
    ensures s == [] || s[0] in s
  {
  }

  /** Groups that are empty can be left out. */
  lemma {:induction false} RegroupLess(es: seq<E.EncodedItem>, some: seq<nat>, all: seq<nat>)
    requires Descends(some) && Descends(all)
    requires forall c :: c in some <==> c in all && Updates.GroupOf(es, c) != []
    ensures Updates.Regroup(es, some) == Updates.Regroup(es, all)
    decreases |all|
  {
    hide Updates.AllFit, Updates.GroupOf;
    if all == [] {
      FirstIsIn(some);
    } else {
      var c, rest := all[0], all[1..];
      assert c in all && Descends(rest) && forall d :: d in rest <==> d in all && d != c;
      if Updates.GroupOf(es, c) == [] {
        RegroupLess(es, some, rest);
        assert [] + Updates.Regroup(es, rest) == Updates.Regroup(es, rest);
      } else {
        FirstIs(some, all);
        assert Descends(some[1..]) && forall d :: d in some[1..] <==> d in some && d != c;
        RegroupLess(es, some[1..], rest);
      }
    }
  }

  lemma FirstIs(some: seq<nat>, all: seq<nat>)
    requires Descends(some) && Descends(all) && all != [] && all[0] in some && forall c :: c in some ==> c in all
    ensures some[0] == all[0]
  {
    assert some[0] in some && some[0] in all;
  }

  lemma {:induction false} RegroupDiff(store: Store, sv: map<nat, nat>, clients: seq<nat>, order: seq<nat>)
    requires GapFree(store) && StoreSendable(store) && forall i, j :: 0 <= i < j < |clients| ==> clients[i] != clients[j]
    requires forall c :: c in order ==> c in clients
    ensures AllSendable(Diff(store, sv, clients)) && AllSendable(Diff(store, sv, order))
    ensures Updates.Regroup(Structs(Diff(store, sv, clients)), order) == Structs(Diff(store, sv, order))
    decreases |order|
  {
    hide Sendable, GapFree, StoreSendable, Rest, Updates.AllFit, Updates.GroupOf;
    DiffSendable(store, sv, clients);
    DiffSendable(store, sv, order);
    if order == [] {
      assert Structs([]) == [];
    } else {
      var c := order[0];
      assert c in order;
      RestInRow(store, sv, c);
      DiffGroup(store, sv, clients, c);
      RegroupDiff(store, sv, clients, order[1..]);
      StructsMore(Rest(ItemsOf(store, c), StateIn(sv, c)), Diff(store, sv, order[1..]));
    }
  }

  lemma {:induction false} GroupNonEmpty(es: seq<E.EncodedItem>, c: nat)
    ensures c in Updates.ClientsOf(es) <==> Updates.GroupOf(es, c) != []
  {
    hide Updates.AllFit;
    if es != [] {
      GroupNonEmpty(es[1..], c);
      assert es == [es[0]] + es[1..];
      assert c in Updates.ClientsOf(es) <==> c == es[0].client || c in Updates.ClientsOf(es[1..]);
    }
  }

  /**
   * The bytes of a diff, for the clients in any order, are read back as the diff for the clients in
   * descending order.
   */
  lemma DiffReadBack(store: Store, sv: map<nat, nat>, clients: seq<nat>)
    requires GapFree(store) && StoreSendable(store) && Lists(clients, store) && |Diff(store, sv, clients)| < TWO64
    ensures AllSendable(Diff(store, sv, clients)) && Updates.AllFit(Structs(Diff(store, sv, clients)))
    ensures var u := Updates.UpdateV1(Structs(Diff(store, sv, clients)), map[]);
            && Updates.Print(u).Ok? && AllSendable(Diff(store, sv, SortDesc(store.Keys)))
            && Updates.Parse(Updates.Print(u).value) == Ok(Updates.UpdateV1(Structs(Diff(store, sv, SortDesc(store.Keys))), map[]))
  {
    hide Sendable, GapFree, StoreSendable, Rest, Updates.AllFit, Updates.GroupOf, Updates.Print, Updates.Parse, Updates.Normal, E.WellFormed;
    hide Structs, AllSendable, Diff, IsItem, FromEncoded, Updates.Regroup;
    var es, desc := Diff(store, sv, clients), SortDesc(store.Keys);
    DiffSendable(store, sv, clients);
    StructsFit(es);
    var xs := Structs(es);
    forall c | c in Updates.ClientsOf(xs) ensures Updates.Runs(xs, c) {
      DiffGroup(store, sv, clients, c);
      GroupNonEmpty(xs, c);
      RestInRow(store, sv, c);
      RowRuns(Rest(ItemsOf(store, c), StateIn(sv, c)), c);
    }
    Updates.UpdateKept(Updates.UpdateV1(xs, map[]));
    SortDescIs(store.Keys);
    SortDescIs(Updates.ClientsOf(xs));
    forall c ensures c in Updates.ClientsOf(xs) <==> c in desc && Updates.GroupOf(xs, c) != [] {
      GroupNonEmpty(xs, c);
      DiffGroup(store, sv, clients, c);
    }
    RegroupLess(xs, SortDesc(Updates.ClientsOf(xs)), desc);
    RegroupDiff(store, sv, clients, desc);
  }

  /**
   * Diff sync through bytes: a receiver that decodes the bytes sent for its state vector gets every
   * clock of the sender if and only if no item of the sender reaches across its state; then its
   * state vector becomes the pointwise maximum.
   */
  lemma DiffArrives(sender: Store, r: DocState, clients: seq<nat>)
    requires GapFree(sender) && GapFree(r.store) && StoreSendable(sender) && Lists(clients, sender)
    requires |Diff(sender, DiffSync.StateVector(r.store), clients)| < TWO64
    ensures var items := Diff(sender, DiffSync.StateVector(r.store), clients);
            && AllSendable(items) && Updates.AllFit(Structs(items)) && Updates.Print(Updates.UpdateV1(Structs(items), map[])).Ok?
            && var u := DecodeBytes(Updates.Print(Updates.UpdateV1(Structs(items), map[])).value);
               && u.Some? && u.value.ranges == map[]
               && var t := Deliver(r, u.value.items);
                  && (HasAll(t, sender) <==> Meets(sender, r.store, clients))
                  && (Meets(sender, r.store, clients) ==>
                       (GapFree(t.store) && forall c :: StateOf(t.store, c) == Max(StateOf(r.store, c), StateOf(sender, c))))
  {
    hide Sendable, GapFree, StoreSendable, Updates.AllFit, Updates.Print, Updates.Parse, Structs, AllSendable, Diff, IsItem, FromEncoded;
    hide CellsFrom, AllItems, Kept, StateOf, Deliver, Wires, HasAll;
    var sv, desc := DiffSync.StateVector(r.store), SortDesc(sender.Keys);
    DiffReadBack(sender, sv, clients);
    StructsFit(Diff(sender, sv, desc));
    AllKept(Structs(Diff(sender, sv, desc)));
    DescLists(sender);
    DiffBrings(sender, r, desc);
    assert Meets(sender, r.store, desc) <==> Meets(sender, r.store, clients) by { MeetsSame(sender, r.store, desc, clients); }
  }

  lemma DescLists(store: Store)
    ensures Lists(SortDesc(store.Keys), store)
  {
    SortDescIs(store.Keys);
  }

  lemma MeetsSame(sender: Store, r: Store, a: seq<nat>, b: seq<nat>)
    requires Lists(a, sender) && Lists(b, sender)
    ensures Meets(sender, r, a) <==> Meets(sender, r, b)
  {
    hide Boundary;
  }
}
