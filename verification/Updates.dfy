/** readUpdateV1 and writeUpdateV1 of protocol/update.go. */
module Updates {
  import opened Wrappers
  import opened Values
  import opened Cells
  import opened Streams
  import opened Varints
  import opened StateVectors
  import opened E = EncodedItems

  datatype UpdateV1 = UpdateV1(items: seq<EncodedItem>, ds: DeleteSet)

  function AppendRange(ds: DeleteSet, client: nat, r: Range): DeleteSet {
    ds[client := (if client in ds then ds[client] else []) + [r]]
  }

  // Reading.

  /** The structs of one client: the clock is counted up by the lengths. */
  function ParseStructs(bs: Bytes, n: nat, client: nat, clock: nat, sofar: seq<EncodedItem>): (p: Parsed<seq<EncodedItem>>)
    decreases n
  {
    if n == 0 then Ok(Read(sofar, bs))
    else
      var item :- E.Parse(bs, client, clock);
      ParseStructs(item.rest, n - 1, client, clock + item.value.length, sofar + [item.value])
  }

  function ParseClients(bs: Bytes, n: nat, sofar: seq<EncodedItem>): (p: Parsed<seq<EncodedItem>>)
    decreases n
  {
    if n == 0 then Ok(Read(sofar, bs))
    else
      var count :- ParseVarUint(bs);
      var client :- ParseVarUint(count.rest);
      var clock :- ParseVarUint(client.rest);
      var items :- ParseStructs(clock.rest, count.value, client.value, clock.value, sofar);
      ParseClients(items.rest, n - 1, items.value)
  }

  function ParseRanges(bs: Bytes, n: nat, client: nat, ds: DeleteSet): (p: Parsed<DeleteSet>)
    decreases n
  {
    if n == 0 then Ok(Read(ds, bs))
    else
      var clock :- ParseVarUint(bs);
      var len :- ParseVarUint(clock.rest);
      ParseRanges(len.rest, n - 1, client, AppendRange(ds, client, Range(clock.value, len.value)))
  }

  function ParseDs(bs: Bytes, n: nat, ds: DeleteSet): (p: Parsed<DeleteSet>)
    decreases n
  {
    if n == 0 then Ok(Read(ds, bs))
    else
      var client :- ParseVarUint(bs);
      var count :- ParseVarUint(client.rest);
      var more :- ParseRanges(count.rest, count.value, client.value, ds);
      ParseDs(more.rest, n - 1, more.value)
  }

  /** readUpdateV1; what is after the delete set is not looked at. */
  function Parse(bs: Bytes): Result<UpdateV1> {
    var n :- ParseVarUint(bs);
    var items :- ParseClients(n.rest, n.value, []);
    var m :- ParseVarUint(items.rest);
    var ds :- ParseDs(m.rest, m.value, map[]);
    Ok(UpdateV1(items.value, ds.value))
  }

  // Writing.

  predicate AllFit(items: seq<EncodedItem>) {
    forall i :: 0 <= i < |items| ==> E.Fits(items[i])
  }

  function PrintStructs(items: seq<EncodedItem>): Result<Bytes>
    requires AllFit(items)
  {
    if items == [] then Ok([])
    else
      var first :- E.Print(items[0]);
      var rest :- PrintStructs(items[1..]);
      Ok(first + rest)
  }

  /** The items of a client, in the order in which they come. */
  function GroupOf(items: seq<EncodedItem>, client: nat): (g: seq<EncodedItem>)
    ensures AllFit(items) ==> AllFit(g)
    ensures forall i :: 0 <= i < |g| ==> g[i].client == client && g[i] in items
  {
    if items == [] then []
    else (if items[0].client == client then [items[0]] else []) + GroupOf(items[1..], client)
  }

  function ClientsOf(items: seq<EncodedItem>): set<nat> {
    set i | i in items :: i.client
  }

  function FirstClock(g: seq<EncodedItem>): nat {
    if g == [] then 0 else g[0].clock
  }

  function PrintGroup(g: seq<EncodedItem>, client: nat): Result<Bytes>
    requires AllFit(g)
  {
    var structs :- PrintStructs(g);
    Ok(VarUint(|g|) + VarUint(client) + VarUint(FirstClock(g)) + structs)
  }

  function PrintGroups(items: seq<EncodedItem>, clients: seq<nat>): Result<Bytes>
    requires AllFit(items)
  {
    if clients == [] then Ok([])
    else
      var first :- PrintGroup(GroupOf(items, clients[0]), clients[0]);
      var rest :- PrintGroups(items, clients[1..]);
      Ok(first + rest)
  }

  function PrintRanges(rs: seq<Range>): Bytes {
    if rs == [] then [] else VarUint(rs[0].clock) + VarUint(rs[0].len) + PrintRanges(rs[1..])
  }

  function PrintDs(ds: DeleteSet, clients: seq<nat>): Bytes
    requires forall c :: c in clients ==> c in ds
  {
    if clients == [] then []
    else VarUint(clients[0]) + VarUint(|ds[clients[0]]|) + PrintRanges(ds[clients[0]]) + PrintDs(ds, clients[1..])
  }

  /** writeUpdateV1: groups and delete set in descending order of clients. */
  ghost function Print(u: UpdateV1): Result<Bytes>
    requires AllFit(u.items)
  {
    SortDescIs(u.ds.Keys);
    var clients := SortDesc(ClientsOf(u.items));
    var groups :- PrintGroups(u.items, clients);
    Ok(VarUint(|clients|) + groups + VarUint(|u.ds|) + PrintDs(u.ds, SortDesc(u.ds.Keys)))
  }

  // The round trip.

  /** The structs of a client as they come back: clocks rebuilt from the first one and the lengths. */
  function BackGroup(g: seq<EncodedItem>, clock: nat): seq<EncodedItem> {
    if g == [] then [] else [BackItem(g[0], clock)] + BackGroup(g[1..], clock + g[0].length)
  }

  function BackAll(items: seq<EncodedItem>, clients: seq<nat>): seq<EncodedItem> {
    if clients == [] then []
    else BackGroup(GroupOf(items, clients[0]), FirstClock(GroupOf(items, clients[0]))) + BackAll(items, clients[1..])
  }

  predicate AllWellFormed(items: seq<EncodedItem>) {
    forall i :: 0 <= i < |items| ==> E.WellFormed(items[i])
  }

  predicate RangesFit(rs: seq<Range>) {
    |rs| < TWO64 && forall r :: r in rs ==> r.clock < TWO64 && r.len < TWO64
  }

  predicate DsFits(ds: DeleteSet) {
    |ds| < TWO64 && forall c :: c in ds ==> c < TWO64 && RangesFit(ds[c])
  }

  /** An update that the format can carry. */
  predicate WellFormed(u: UpdateV1) {
    && AllWellFormed(u.items) && |u.items| < TWO64 && (forall i :: i in u.items ==> i.client < TWO64 && i.clock < TWO64)
    && DsFits(u.ds)
  }

  /** Clients with an empty list of ranges are not there any more. */
  function NonEmpty(ds: DeleteSet): DeleteSet {
    map c | c in ds && ds[c] != [] :: ds[c]
  }

  lemma AllWellFormedFit(items: seq<EncodedItem>)
    requires AllWellFormed(items)
    ensures AllFit(items)
  {
    forall i | 0 <= i < |items| ensures E.Fits(items[i]) {
      assert E.WellFormed(items[i]);
    }
  }

  lemma {:induction false} StructsRoundTrip(g: seq<EncodedItem>, client: nat, clock: nat, tail: Bytes, sofar: seq<EncodedItem>)
    requires AllWellFormed(g) && AllFit(g) && forall i :: 0 <= i < |g| ==> g[i].client == client
    ensures PrintStructs(g).Ok?
    ensures ParseStructs(PrintStructs(g).value + tail, |g|, client, clock, sofar) == Ok(Read(sofar + BackGroup(g, clock), tail))
    decreases |g|
  {
    hide E.Parse, E.Print, E.WellFormed, E.Fits;
    if g == [] {
      assert [] + tail == tail && sofar + [] == sofar;
    } else {
      var item, rest := g[0], g[1..];
      StructsRoundTrip(rest, client, clock + item.length, tail, sofar + [BackItem(item, clock)]);
      var more := PrintStructs(rest).value + tail;
      ItemRoundTrip(item, clock, more);
      E.FitsParts(item);
      assert PrintStructs(g).value + tail == E.Print(item).value + more;
      assert sofar + [BackItem(item, clock)] + BackGroup(rest, clock + item.length) == sofar + BackGroup(g, clock);
    }
  }

  lemma GroupRoundTrip(g: seq<EncodedItem>, client: nat, n: nat, tail: Bytes, sofar: seq<EncodedItem>)
    requires AllWellFormed(g) && AllFit(g) && (forall i :: 0 <= i < |g| ==> g[i].client == client)
    requires |g| < TWO64 && client < TWO64 && FirstClock(g) < TWO64 && n > 0
    ensures PrintGroup(g, client).Ok?
    ensures ParseClients(PrintGroup(g, client).value + tail, n, sofar) == ParseClients(tail, n - 1, sofar + BackGroup(g, FirstClock(g)))
  {
    hide ParseVarUint, VarUint, ParseStructs, PrintStructs;
    StructsRoundTrip(g, client, FirstClock(g), tail, sofar);
    var structs := PrintStructs(g).value;
    var a, b, c := VarUint(|g|), VarUint(client), VarUint(FirstClock(g));
    assert a + b + c + structs + tail == a + (b + (c + (structs + tail)));
    VarUintRoundTrip(|g|, b + (c + (structs + tail)));
    VarUintRoundTrip(client, c + (structs + tail));
    VarUintRoundTrip(FirstClock(g), structs + tail);
  }

  lemma {:induction false} GroupFacts(items: seq<EncodedItem>, client: nat)
    requires AllWellFormed(items)
    ensures AllWellFormed(GroupOf(items, client)) && |GroupOf(items, client)| <= |items|
  {
    hide E.WellFormed;
    if items != [] { GroupFacts(items[1..], client); }
  }

  lemma {:induction false} GroupsRoundTrip(items: seq<EncodedItem>, clients: seq<nat>, tail: Bytes, sofar: seq<EncodedItem>)
    requires AllWellFormed(items) && AllFit(items) && |items| < TWO64
    requires forall i :: i in items ==> i.client < TWO64 && i.clock < TWO64
    requires forall c :: c in clients ==> c < TWO64
    ensures PrintGroups(items, clients).Ok?
    ensures ParseClients(PrintGroups(items, clients).value + tail, |clients|, sofar) == Ok(Read(sofar + BackAll(items, clients), tail))
    decreases |clients|
  {
    hide ParseClients, PrintGroups, BackAll, PrintGroup, E.WellFormed, E.Fits, BackGroup, GroupOf, FirstClock;
    if clients == [] {
      NoGroups(items, clients, tail, sofar);
    } else {
      var c, rest := clients[0], clients[1..];
      var g := GroupOf(items, c);
      assert c in clients && forall d :: d in rest ==> d in clients;
      GroupFacts(items, c);
      FirstClockFits(items, c);
      var back := BackGroup(g, FirstClock(g));
      GroupsRoundTrip(items, rest, tail, sofar + back);
      GroupRoundTrip(g, c, |clients|, PrintGroups(items, rest).value + tail, sofar);
      OneGroup(items, clients, tail, sofar);
    }
  }

  lemma NoGroups(items: seq<EncodedItem>, clients: seq<nat>, tail: Bytes, sofar: seq<EncodedItem>)
    requires AllFit(items) && clients == []
    ensures PrintGroups(items, clients) == Ok([]) && ParseClients([] + tail, 0, sofar) == Ok(Read(sofar + BackAll(items, clients), tail))
  {
    assert [] + tail == tail && sofar + [] == sofar;
  }

  lemma OneGroup(items: seq<EncodedItem>, clients: seq<nat>, tail: Bytes, sofar: seq<EncodedItem>)
    requires AllFit(items) && clients != [] && PrintGroup(GroupOf(items, clients[0]), clients[0]).Ok? && PrintGroups(items, clients[1..]).Ok?
    ensures PrintGroups(items, clients).Ok?
    ensures PrintGroups(items, clients).value + tail
         == PrintGroup(GroupOf(items, clients[0]), clients[0]).value + (PrintGroups(items, clients[1..]).value + tail)
    ensures var g := GroupOf(items, clients[0]);
            sofar + BackAll(items, clients) == sofar + BackGroup(g, FirstClock(g)) + BackAll(items, clients[1..])
  {
    hide PrintGroup, BackGroup, GroupOf, FirstClock, AllFit;
  }

  lemma FirstClockFits(items: seq<EncodedItem>, client: nat)
    requires forall i :: i in items ==> i.clock < TWO64
    ensures FirstClock(GroupOf(items, client)) < TWO64
  {
  }

  function AppendAll(ds: DeleteSet, client: nat, rs: seq<Range>): DeleteSet
    decreases |rs|
  {
    if rs == [] then ds else AppendAll(AppendRange(ds, client, rs[0]), client, rs[1..])
  }

  lemma {:induction false} RangesRoundTrip(rs: seq<Range>, client: nat, tail: Bytes, ds: DeleteSet)
    requires forall r :: r in rs ==> r.clock < TWO64 && r.len < TWO64
    ensures ParseRanges(PrintRanges(rs) + tail, |rs|, client, ds) == Ok(Read(AppendAll(ds, client, rs), tail))
    decreases |rs|
  {
    hide ParseVarUint, VarUint, AppendRange;
    if rs == [] {
      assert [] + tail == tail;
    } else {
      var r, more := rs[0], PrintRanges(rs[1..]) + tail;
      assert r in rs;
      assert PrintRanges(rs) + tail == VarUint(r.clock) + (VarUint(r.len) + more);
      VarUintRoundTrip(r.clock, VarUint(r.len) + more);
      VarUintRoundTrip(r.len, more);
      RangesRoundTrip(rs[1..], client, tail, AppendRange(ds, client, r));
    }
  }

  lemma {:induction false} AppendAllIs(ds: DeleteSet, client: nat, rs: seq<Range>)
    ensures AppendAll(ds, client, rs) == if rs == [] then ds else ds[client := (if client in ds then ds[client] else []) + rs]
    decreases |rs|
  {
    if rs != [] {
      var more := AppendRange(ds, client, rs[0]);
      AppendAllIs(more, client, rs[1..]);
      var all := (if client in ds then ds[client] else []) + rs;
      assert more[client] + rs[1..] == all && more[client := all] == ds[client := all];
      assert rs[1..] == [] ==> more[client] == all;
    }
  }

  /** The delete set without some of its clients, and without empty lists. */
  function Left(ds: DeleteSet, clients: seq<nat>): DeleteSet {
    map c | c in ds && c !in clients && ds[c] != [] :: ds[c]
  }

  /** One client with its ranges. */
  lemma OneDsClient(c: nat, rs: seq<Range>, more: Bytes, n: nat, before: DeleteSet)
    requires c < TWO64 && RangesFit(rs) && n > 0
    ensures ParseDs(VarUint(c) + (VarUint(|rs|) + (PrintRanges(rs) + more)), n, before) == ParseDs(more, n - 1, AppendAll(before, c, rs))
  {
    hide ParseVarUint, VarUint, ParseRanges, PrintRanges;
    VarUintRoundTrip(c, VarUint(|rs|) + (PrintRanges(rs) + more));
    VarUintRoundTrip(|rs|, PrintRanges(rs) + more);
    RangesRoundTrip(rs, c, more, before);
  }

  lemma LeftNext(ds: DeleteSet, clients: seq<nat>)
    requires clients != [] && clients[0] in ds && forall i, j :: 0 <= i < j < |clients| ==> clients[i] != clients[j]
    ensures AppendAll(Left(ds, clients), clients[0], ds[clients[0]]) == Left(ds, clients[1..])
  {
    var c := clients[0];
    AppendAllIs(Left(ds, clients), c, ds[c]);
    assert [] + ds[c] == ds[c];
  }

  lemma LeftNothing(ds: DeleteSet)
    ensures Left(ds, []) == NonEmpty(ds)
  {
  }

  lemma {:induction false} DsRoundTrip(ds: DeleteSet, clients: seq<nat>, tail: Bytes)
    requires DsFits(ds) && (forall c :: c in clients ==> c in ds) && forall i, j :: 0 <= i < j < |clients| ==> clients[i] != clients[j]
    ensures ParseDs(PrintDs(ds, clients) + tail, |clients|, Left(ds, clients)) == Ok(Read(NonEmpty(ds), tail))
    decreases |clients|
  {
    hide ParseVarUint, VarUint, ParseRanges, PrintRanges, RangesFit, AppendAll, Left, NonEmpty, DsFits;
    if clients == [] {
      LeftNothing(ds);
      assert [] + tail == tail;
    } else {
      var c, rest := clients[0], clients[1..];
      var rs, more := ds[c], PrintDs(ds, rest) + tail;
      DsAt(ds, c);
      assert PrintDs(ds, clients) + tail == VarUint(c) + (VarUint(|rs|) + (PrintRanges(rs) + more));
      OneDsClient(c, rs, more, |clients|, Left(ds, clients));
      LeftNext(ds, clients);
      DsRoundTrip(ds, rest, tail);
    }
  }

  lemma DsAt(ds: DeleteSet, c: nat)
    requires DsFits(ds) && c in ds
    ensures c < TWO64 && RangesFit(ds[c])
  {
  }

  /**
   * Wire round trip: a well-formed update can be encoded, and decoding gives back its items grouped
   * by descending client, in the order in which each client's items came, with every clock rebuilt
   * from the first one and the lengths, and its delete set without empty lists.
   */
  lemma UpdateRoundTrip(u: UpdateV1)
    requires WellFormed(u) && AllFit(u.items)
    ensures Print(u).Ok?
    ensures Parse(Print(u).value) == Ok(UpdateV1(BackAll(u.items, SortDesc(ClientsOf(u.items))), NonEmpty(u.ds)))
  {
    hide ParseVarUint, VarUint, ParseClients, ParseDs, PrintGroups, E.WellFormed, E.Fits, DsFits, AllWellFormed, AllFit, NonEmpty, BackAll, SortDesc;
    var clients, keys := SortDesc(ClientsOf(u.items)), SortDesc(u.ds.Keys);
    SortDescIs(ClientsOf(u.items));
    SortDescIs(u.ds.Keys);
    FewClients(u.items);
    DsCount(u.ds);
    assert forall c :: c in clients ==> c < TWO64;
    var dsBytes := VarUint(|u.ds|) + PrintDs(u.ds, keys);
    GroupsRoundTrip(u.items, clients, dsBytes, []);
    var groups := PrintGroups(u.items, clients).value;
    assert Print(u).value == VarUint(|clients|) + (groups + dsBytes);
    VarUintRoundTrip(|clients|, groups + dsBytes);
    VarUintRoundTrip(|u.ds|, PrintDs(u.ds, keys));
    DsRoundTrip(u.ds, keys, []);
    assert PrintDs(u.ds, keys) + [] == PrintDs(u.ds, keys) && Left(u.ds, keys) == map[];
    assert [] + BackAll(u.items, clients) == BackAll(u.items, clients);
  }

  lemma DsCount(ds: DeleteSet)
    requires DsFits(ds)
    ensures |ds| < TWO64 && |ds| == |ds.Keys|
  {
  }

  lemma {:induction false} FewClients(items: seq<EncodedItem>)
    ensures |ClientsOf(items)| <= |items|
  {
    if items != [] {
      FewClients(items[1..]);
      assert ClientsOf(items) == {items[0].client} + ClientsOf(items[1..]);
    }
  }

  /** The structs of a client follow each other without gaps, from a clock on. */
  predicate Contiguous(g: seq<EncodedItem>, clock: nat) {
    g == [] || (g[0].clock == clock && Contiguous(g[1..], clock + g[0].length))
  }

  /** The any-values of an item are such that they come back as themselves. */
  predicate Normal(item: EncodedItem) {
    BackData(item.data) == item.data
  }

  /** Items come back with their own clocks exactly if they are contiguous. */
  lemma {:induction false} ClocksKept(g: seq<EncodedItem>, clock: nat)
    requires forall i :: 0 <= i < |g| ==> Normal(g[i])
    ensures BackGroup(g, clock) == g <==> Contiguous(g, clock)
    decreases |g|
  {
    if g != [] {
      assert Normal(g[0]);
      ClocksKept(g[1..], clock + g[0].length);
      assert g == [g[0]] + g[1..];
      assert BackGroup(g, clock)[1..] == BackGroup(g[1..], clock + g[0].length);
      assert BackGroup(g, clock)[0] == BackItem(g[0], clock);
    }
  }

  /** The items grouped by client, the groups in this order. */
  function Regroup(items: seq<EncodedItem>, clients: seq<nat>): seq<EncodedItem> {
    if clients == [] then [] else GroupOf(items, clients[0]) + Regroup(items, clients[1..])
  }

  predicate Runs(items: seq<EncodedItem>, client: nat) {
    Contiguous(GroupOf(items, client), FirstClock(GroupOf(items, client)))
  }

  lemma {:induction false} BackAllKept(items: seq<EncodedItem>, clients: seq<nat>)
    requires (forall i :: i in items ==> Normal(i)) && forall c :: c in clients ==> Runs(items, c)
    ensures BackAll(items, clients) == Regroup(items, clients)
  {
    hide BackGroup, Normal, Contiguous, GroupOf;
    if clients != [] {
      assert Runs(items, clients[0]);
      ClocksKept(GroupOf(items, clients[0]), FirstClock(GroupOf(items, clients[0])));
      assert forall c :: c in clients[1..] ==> c in clients;
      BackAllKept(items, clients[1..]);
    }
  }

  /** With contiguous clocks and normalised values the same items come back, stably grouped by descending client. */
  lemma UpdateKept(u: UpdateV1)
    requires WellFormed(u) && AllFit(u.items) && (forall i :: i in u.items ==> Normal(i))
    requires forall c :: c in ClientsOf(u.items) ==> Runs(u.items, c)
    requires forall c :: c in u.ds ==> u.ds[c] != []
    ensures Print(u).Ok?
    ensures Parse(Print(u).value) == Ok(UpdateV1(Regroup(u.items, SortDesc(ClientsOf(u.items))), u.ds))
  {
    hide WellFormed, AllFit, Normal, Runs, Print, Parse, BackAll, Regroup;
    UpdateRoundTrip(u);
    SortDescIs(ClientsOf(u.items));
    BackAllKept(u.items, SortDesc(ClientsOf(u.items)));
    assert NonEmpty(u.ds) == u.ds;
  }

  // The same on streams.

  method ReadStructs(r: Reader, n: nat, client: nat, firstClock: nat, sofar: seq<EncodedItem>) returns (res: Result<seq<EncodedItem>>)
    modifies r
    ensures Reads(ParseStructs(old(r.rest), n, client, firstClock, sofar), res, r.rest)
  {
    hide E.Parse;
    var items, clock: nat, si := sofar, firstClock, 0;
    while si < n
      invariant si <= n
      invariant ParseStructs(old(r.rest), n, client, firstClock, sofar) == ParseStructs(r.rest, n - si, client, clock, items)
    {
      var item := ReadItem(r, client, clock);
      if item.Err? { return Err(item.error); }
      clock := clock + item.value.length;
      items := items + [item.value];
      si := si + 1;
    }
    res := Ok(items);
  }

  method ReadClients(r: Reader, n: nat) returns (res: Result<seq<EncodedItem>>)
    modifies r
    ensures Reads(ParseClients(old(r.rest), n, []), res, r.rest)
  {
    hide ParseVarUint, ParseStructs;
    var items, ci := [], 0;
    while ci < n
      invariant ci <= n
      invariant ParseClients(old(r.rest), n, []) == ParseClients(r.rest, n - ci, items)
    {
      var numStructs := ReadVarUint(r);
      if numStructs.Err? { return Err(numStructs.error); }
      var client := ReadVarUint(r);
      if client.Err? { return Err(client.error); }
      var clock := ReadVarUint(r);
      if clock.Err? { return Err(clock.error); }
      var more := ReadStructs(r, numStructs.value, client.value, clock.value, items);
      if more.Err? { return Err(more.error); }
      items := more.value;
      ci := ci + 1;
    }
    res := Ok(items);
  }

  method ReadRanges(r: Reader, n: nat, client: nat, sofar: DeleteSet) returns (res: Result<DeleteSet>)
    modifies r
    ensures Reads(ParseRanges(old(r.rest), n, client, sofar), res, r.rest)
  {
    hide ParseVarUint;
    var ds, ri := sofar, 0;
    while ri < n
      invariant ri <= n
      invariant ParseRanges(old(r.rest), n, client, sofar) == ParseRanges(r.rest, n - ri, client, ds)
    {
      var clock := ReadVarUint(r);
      if clock.Err? { return Err(clock.error); }
      var length := ReadVarUint(r);
      if length.Err? { return Err(length.error); }
      ds := AppendRange(ds, client, Range(clock.value, length.value));
      ri := ri + 1;
    }
    res := Ok(ds);
  }

  method ReadDs(r: Reader, n: nat) returns (res: Result<DeleteSet>)
    modifies r
    ensures Reads(ParseDs(old(r.rest), n, map[]), res, r.rest)
  {
    hide ParseVarUint, ParseRanges;
    var ds: DeleteSet, di := map[], 0;
    while di < n
      invariant di <= n
      invariant ParseDs(old(r.rest), n, map[]) == ParseDs(r.rest, n - di, ds)
    {
      var client := ReadVarUint(r);
      if client.Err? { return Err(client.error); }
      var numRanges := ReadVarUint(r);
      if numRanges.Err? { return Err(numRanges.error); }
      var more := ReadRanges(r, numRanges.value, client.value, ds);
      if more.Err? { return Err(more.error); }
      ds := more.value;
      di := di + 1;
    }
    res := Ok(ds);
  }

  /** DecodeUpdateV1 */
  method Decode(data: Bytes) returns (res: Result<UpdateV1>)
    ensures res == Parse(data)
  {
    hide ParseVarUint, ParseClients, ParseDs;
    var r := new Reader(data);
    var numClients := ReadVarUint(r);
    if numClients.Err? { return Err(numClients.error); }
    var items := ReadClients(r, numClients.value);
    if items.Err? { return Err(items.error); }
    var numDsClients := ReadVarUint(r);
    if numDsClients.Err? { return Err(numDsClients.error); }
    var ds := ReadDs(r, numDsClients.value);
    if ds.Err? { return Err(ds.error); }
    res := Ok(UpdateV1(items.value, ds.value));
  }

  /** A printed value, or the error with which printing it failed. */
  ghost predicate Writes(printed: Result<Bytes>, res: Result<bool>, before: Bytes, after: Bytes) {
    match printed
    case Ok(bs) => res == Ok(true) && after == before + bs
    case Err(e) => res == Err(e)
  }

  method WriteStructs(w: Writer, items: seq<EncodedItem>) returns (res: Result<bool>)
    requires AllFit(items)
    modifies w
    ensures Writes(PrintStructs(items), res, old(w.buf), w.buf)
  {
    hide E.Print, E.Fits;
    ghost var start := w.buf;
    assert items[0..] == items;
    for i := 0 to |items|
      invariant PrintStructs(items).Ok? <==> PrintStructs(items[i..]).Ok?
      invariant PrintStructs(items).Ok? ==> w.buf + PrintStructs(items[i..]).value == start + PrintStructs(items).value
      invariant PrintStructs(items).Err? ==> PrintStructs(items[i..]) == PrintStructs(items)
    {
      assert items[i..][0] == items[i] && items[i..][1..] == items[i + 1..] && E.Fits(items[i]);
      var ok := WriteItem(w, items[i]);
      if ok.Err? { return ok; }
    }
    res := Ok(true);
  }

  /** The map has the group of every client of these items. */
  predicate Grouped(groups: map<nat, seq<EncodedItem>>, items: seq<EncodedItem>) {
    groups.Keys == ClientsOf(items) && forall c :: c in groups ==> groups[c] == GroupOf(items, c)
  }

  lemma {:induction false} NoneOf(items: seq<EncodedItem>, c: nat)
    requires c !in ClientsOf(items)
    ensures GroupOf(items, c) == []
  {
    hide AllFit;
    if items != [] {
      assert items == [items[0]] + items[1..];
      NoneOf(items[1..], c);
    }
  }

  lemma GroupedMore(groups: map<nat, seq<EncodedItem>>, items: seq<EncodedItem>, item: EncodedItem)
    requires Grouped(groups, items)
    ensures Grouped(groups[item.client := (if item.client in groups then groups[item.client] else []) + [item]], items + [item])
  {
    hide GroupOf;
    assert ClientsOf(items + [item]) == ClientsOf(items) + {item.client};
    if item.client !in groups { NoneOf(items, item.client); }
    forall c ensures GroupOf(items + [item], c) == GroupOf(items, c) + if item.client == c then [item] else [] {
      GroupMore(items, item, c);
    }
  }

  /** The grouping of writeUpdateV1: a map from client to its items. */
  method GroupItems(items: seq<EncodedItem>) returns (groups: map<nat, seq<EncodedItem>>)
    ensures groups.Keys == ClientsOf(items) && forall c :: c in groups ==> groups[c] == GroupOf(items, c)
  {
    hide GroupOf, ClientsOf;
    groups := map[];
    assert Grouped(map[], items[..0]) by { NothingGrouped(); }
    for i := 0 to |items|
      invariant Grouped(groups, items[..i])
    {
      var item := items[i];
      assert items[..i + 1] == items[..i] + [item];
      GroupedMore(groups, items[..i], item);
      groups := groups[item.client := (if item.client in groups then groups[item.client] else []) + [item]];
    }
    assert items[..|items|] == items;
  }

  lemma NothingGrouped()
    ensures Grouped(map[], [])
  {
  }

  lemma {:induction false} GroupMore(items: seq<EncodedItem>, item: EncodedItem, c: nat)
    ensures GroupOf(items + [item], c) == GroupOf(items, c) + if item.client == c then [item] else []
  {
    hide AllFit;
    if items == [] {
      assert [] + [item] == [item];
    } else {
      GroupMore(items[1..], item, c);
      assert (items + [item])[1..] == items[1..] + [item];
    }
  }

  method WriteGroup(w: Writer, g: seq<EncodedItem>, client: U64) returns (res: Result<bool>)
    requires AllFit(g) && |g| < TWO64 && FirstClock(g) < TWO64
    modifies w
    ensures Writes(PrintGroup(g, client), res, old(w.buf), w.buf)
  {
    hide VarUint, PrintStructs, AllFit;
    WriteVarUint(w, |g|);
    WriteVarUint(w, client);
    WriteVarUint(w, FirstClock(g));
    res := WriteStructs(w, g);
  }

  method WriteRanges(w: Writer, rs: seq<Range>)
    requires RangesFit(rs)
    modifies w
    ensures w.buf == old(w.buf) + PrintRanges(rs)
  {
    hide VarUint;
    ghost var start := w.buf;
    assert rs[0..] == rs;
    for i := 0 to |rs|
      invariant w.buf + PrintRanges(rs[i..]) == start + PrintRanges(rs)
    {
      assert rs[i] in rs && rs[i..][1..] == rs[i + 1..];
      WriteVarUint(w, rs[i].clock);
      WriteVarUint(w, rs[i].len);
    }
    assert PrintRanges(rs[|rs|..]) == [];
  }

  method WriteDs(w: Writer, ds: DeleteSet, clients: seq<nat>)
    requires DsFits(ds) && forall c :: c in clients ==> c in ds
    modifies w
    ensures w.buf == old(w.buf) + PrintDs(ds, clients)
  {
    hide VarUint, PrintRanges;
    ghost var start := w.buf;
    assert clients[0..] == clients;
    for i := 0 to |clients|
      invariant w.buf + PrintDs(ds, clients[i..]) == start + PrintDs(ds, clients)
    {
      var c := clients[i];
      assert c in clients && clients[i..][1..] == clients[i + 1..];
      WriteVarUint(w, c);
      WriteVarUint(w, |ds[c]|);
      WriteRanges(w, ds[c]);
    }
    assert PrintDs(ds, clients[|clients|..]) == [];
  }

  method WriteGroups(w: Writer, items: seq<EncodedItem>, groups: map<nat, seq<EncodedItem>>, clients: seq<nat>) returns (res: Result<bool>)
    requires AllFit(items) && |items| < TWO64 && (forall i :: i in items ==> i.client < TWO64 && i.clock < TWO64)
    requires (forall c :: c in clients ==> c in groups && c < TWO64) && forall c :: c in groups ==> groups[c] == GroupOf(items, c)
    modifies w
    ensures Writes(PrintGroups(items, clients), res, old(w.buf), w.buf)
  {
    hide PrintGroup, E.Fits, GroupOf, FirstClock;
    ghost var start := w.buf;
    assert clients[0..] == clients;
    for i := 0 to |clients|
      invariant PrintGroups(items, clients).Ok? <==> PrintGroups(items, clients[i..]).Ok?
      invariant PrintGroups(items, clients).Ok? ==>
        w.buf + PrintGroups(items, clients[i..]).value == start + PrintGroups(items, clients).value
      invariant PrintGroups(items, clients).Err? ==> PrintGroups(items, clients[i..]) == PrintGroups(items, clients)
    {
      var c := clients[i];
      assert c in clients && clients[i..][0] == c && clients[i..][1..] == clients[i + 1..];
      GroupSize(items, c);
      FirstClockFits(items, c);
      var ok := WriteGroup(w, groups[c], c);
      if ok.Err? { return ok; }
    }
    res := Ok(true);
  }

  lemma {:induction false} GroupSize(items: seq<EncodedItem>, c: nat)
    ensures |GroupOf(items, c)| <= |items|
  {
    if items != [] { GroupSize(items[1..], c); }
  }

  /** EncodeUpdateV1: writes what Print says, or fails where it does. */
  method Encode(u: UpdateV1) returns (res: Result<Bytes>)
    requires AllFit(u.items) && |u.items| < TWO64 && (forall i :: i in u.items ==> i.client < TWO64 && i.clock < TWO64) && DsFits(u.ds)
    ensures res == Print(u)
  {
    hide VarUint, PrintGroups, AllFit, DsFits, SortDesc;
    var groups := GroupItems(u.items);
    var clients := SortDescending(groups.Keys);
    SortDescIs(groups.Keys);
    FewClients(u.items);
    DsCount(u.ds);
    var w := new Writer();
    WriteVarUint(w, |clients|);
    assert [] + VarUint(|clients|) == VarUint(|clients|);
    assert clients == SortDesc(ClientsOf(u.items)) && forall c :: c in clients ==> c in groups && c < TWO64;
    var ok := WriteGroups(w, u.items, groups, clients);
    if ok.Err? { return Err(ok.error); }
    WriteVarUint(w, |u.ds|);
    var keys := SortDescending(u.ds.Keys);
    SortDescIs(u.ds.Keys);
    WriteDs(w, u.ds, keys);
    res := Ok(w.buf);
  }
}
