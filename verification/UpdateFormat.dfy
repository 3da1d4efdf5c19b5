/**
 * State vectors, structs and updates in literal bytes: what is written of every update, field by field, and
 * what is read of every content, each told without the other direction.
 */
module UpdateFormat {
  import opened Wrappers
  import opened Values
  import opened Ids
  import opened Cells
  import opened Streams
  import opened Varints
  import A = AnyValues
  import opened WireFormat
  import opened E = EncodedItems
  import SV = StateVectors
  import U = Updates
  import Replicas
  import opened Encoding

  // State vectors.

  lemma GreatestFirst(s: set<nat>, c: nat)
    requires c !in s && forall d :: d in s ==> d < c
    ensures SV.SortDesc(s + {c}) == [c] + SV.SortDesc(s)
  {
    assert SV.MaxOf(s + {c}) == c && s + {c} - {c} == s;
  }

  lemma {:induction false} SamePairs(sv: map<nat, nat>, c: nat, k: nat, clients: seq<nat>)
    requires forall d :: d in clients ==> d in sv && d != c
    ensures SV.PrintPairs(sv[c := k], clients) == SV.PrintPairs(sv, clients)
  {
    hide VarUint;
    if clients != [] {
      assert forall d :: d in clients[1..] ==> d in clients;
      SamePairs(sv, c, k, clients[1..]);
    }
  }

  /**
   * A state vector on the wire: the number of clients and a pair for each, the client before its clock and
   * greater clients first. Given by its first pair and the rest.
   */
  lemma StateVectorWritten(sv: map<nat, nat>, c: nat, clock: nat) returns (pairs: Bytes)
    requires c !in sv && forall d :: d in sv ==> d < c
    ensures SV.Print(map[]) == [0]
    ensures SV.Print(sv) == VarUint(|sv|) + pairs
    ensures SV.Print(sv[c := clock]) == VarUint(|sv| + 1) + VarUint(c) + VarUint(clock) + pairs
  {
    hide VarUint, SV.SortDesc, SV.Print, SV.PrintPairs;
    var clients, more := SV.SortDesc(sv.Keys), sv[c := clock];
    SV.SortDescIs(sv.Keys);
    pairs := SV.PrintPairs(sv, clients);
    PrintIs(sv, clients);
    OneMoreKey(sv, c, clock);
    GreatestFirst(sv.Keys, c);
    PrintIs(more, [c] + clients);
    FirstPair(more, c, clients);
    SamePairs(sv, c, clock, clients);
    NoClients();
    FourParts(VarUint(|sv| + 1), VarUint(c), VarUint(clock), pairs);
  }

  lemma FourParts(a: Bytes, b: Bytes, c: Bytes, d: Bytes)
    ensures a + (b + c + d) == a + b + c + d
  {
  }

  lemma PrintIs(sv: map<nat, nat>, clients: seq<nat>)
    requires clients == SV.SortDesc(sv.Keys)
    ensures (forall c :: c in clients ==> c in sv) && SV.Print(sv) == VarUint(|sv|) + SV.PrintPairs(sv, clients)
  {
    hide SV.SortDesc, VarUint, SV.PrintPairs;
    SV.SortDescIs(sv.Keys);
  }

  lemma OneMoreKey(sv: map<nat, nat>, c: nat, k: nat)
    requires c !in sv
    ensures sv[c := k].Keys == sv.Keys + {c} && |sv[c := k]| == |sv| + 1
  {
    assert sv[c := k].Keys == sv.Keys + {c} && |sv[c := k]| == |sv[c := k].Keys| && |sv| == |sv.Keys|;
  }

  lemma FirstPair(sv: map<nat, nat>, c: nat, clients: seq<nat>)
    requires c in sv && forall d :: d in clients ==> d in sv
    ensures SV.PrintPairs(sv, [c] + clients) == VarUint(c) + VarUint(sv[c]) + SV.PrintPairs(sv, clients)
  {
    hide VarUint;
    assert ([c] + clients)[0] == c && ([c] + clients)[1..] == clients;
  }

  lemma NoClients()
    ensures SV.Print(map[]) == [0]
  {
    SV.SortDescIs({});
    assert VarUint(0) == [0];
  }

  datatype ClientClock = ClientClock(client: nat, clock: nat)

  function PairBytes(ps: seq<ClientClock>): Bytes {
    if ps == [] then [] else VarUint(ps[0].client) + VarUint(ps[0].clock) + PairBytes(ps[1..])
  }

  function Entered(sv: map<nat, nat>, ps: seq<ClientClock>): map<nat, nat>
    decreases |ps|
  {
    if ps == [] then sv else Entered(sv[ps[0].client := ps[0].clock], ps[1..])
  }

  lemma {:induction false} PairsRead(ps: seq<ClientClock>, sv: map<nat, nat>, tail: Bytes)
    requires forall i :: 0 <= i < |ps| ==> ps[i].client < TWO64 && ps[i].clock < TWO64
    ensures SV.ParsePairs(PairBytes(ps) + tail, |ps|, sv) == Ok(Read(Entered(sv, ps), tail))
    decreases |ps|
  {
    hide VarUint, ParseVarUint;
    if ps == [] {
      assert [] + tail == tail;
    } else {
      var p, more := ps[0], PairBytes(ps[1..]) + tail;
      assert PairBytes(ps) + tail == VarUint(p.client) + (VarUint(p.clock) + more);
      VarUintRoundTrip(p.client, VarUint(p.clock) + more);
      VarUintRoundTrip(p.clock, more);
      PairsRead(ps[1..], sv[p.client := p.clock], tail);
    }
  }

  /** Some pair is of this client. */
  predicate HasPair(ps: seq<ClientClock>, client: nat) {
    exists i :: 0 <= i < |ps| && ps[i].client == client
  }

  /** No later pair is of the client of this one. */
  predicate LastPair(ps: seq<ClientClock>, i: nat)
    requires i < |ps|
  {
    forall j :: i < j < |ps| ==> ps[j].client != ps[i].client
  }

  lemma HasPairRest(ps: seq<ClientClock>, client: nat)
    requires ps != []
    ensures HasPair(ps, client) <==> ps[0].client == client || HasPair(ps[1..], client)
  {
    if HasPair(ps[1..], client) {
      var i :| 0 <= i < |ps[1..]| && ps[1..][i].client == client;
      assert ps[i + 1].client == client;
    }
    if HasPair(ps, client) {
      var i :| 0 <= i < |ps| && ps[i].client == client;
      if i > 0 { assert ps[1..][i - 1].client == client; }
    }
  }

  lemma LastPairRest(ps: seq<ClientClock>, i: nat)
    requires i < |ps| && LastPair(ps, i)
    ensures if i > 0 then LastPair(ps[1..], i - 1) else !HasPair(ps[1..], ps[0].client)
  {
    assert forall j :: 0 <= j < |ps[1..]| ==> ps[1..][j] == ps[j + 1];
  }

  lemma {:induction false} EnteredMeans(sv: map<nat, nat>, ps: seq<ClientClock>)
    ensures var m := Entered(sv, ps);
            && (forall c :: c in m <==> c in sv || HasPair(ps, c))
            && (forall i :: 0 <= i < |ps| && LastPair(ps, i) ==> ps[i].client in m && m[ps[i].client] == ps[i].clock)
            && (forall c :: c in sv && !HasPair(ps, c) ==> m[c] == sv[c])
    decreases |ps|
  {
    hide HasPair, LastPair;
    if ps == [] {
      NoPair();
    } else {
      var m, more, rest := Entered(sv, ps), sv[ps[0].client := ps[0].clock], ps[1..];
      EnteredMeans(more, rest);
      forall c ensures HasPair(ps, c) <==> ps[0].client == c || HasPair(rest, c) { HasPairRest(ps, c); }
      forall i | 0 <= i < |ps| && LastPair(ps, i) ensures ps[i].client in m && m[ps[i].client] == ps[i].clock {
        LastPairRest(ps, i);
        if i > 0 { assert rest[i - 1] == ps[i]; }
      }
    }
  }

  lemma NoPair()
    ensures forall c :: !HasPair([], c)
  {
  }

  /** What is read of a count and as many pairs in any order: the clock that comes last for each client. */
  lemma StateVectorRead(ps: seq<ClientClock>, tail: Bytes) returns (sv: map<nat, nat>)
    requires |ps| < 0x1_0000_0000_0000_0000
    requires forall i :: 0 <= i < |ps| ==> ps[i].client < 0x1_0000_0000_0000_0000 && ps[i].clock < 0x1_0000_0000_0000_0000
    ensures SV.Parse(VarUint(|ps|) + PairBytes(ps) + tail) == Ok(sv)
    ensures forall c :: c in sv <==> HasPair(ps, c)
    ensures forall i :: 0 <= i < |ps| && LastPair(ps, i) ==> ps[i].client in sv && sv[ps[i].client] == ps[i].clock
  {
    hide VarUint, ParseVarUint, PairBytes, Entered, LastPair;
    sv := Entered(map[], ps);
    EnteredMeans(map[], ps);
    assert VarUint(|ps|) + PairBytes(ps) + tail == VarUint(|ps|) + (PairBytes(ps) + tail);
    VarUintRoundTrip(|ps|, PairBytes(ps) + tail);
    PairsRead(ps, map[], tail);
  }

  // Structs.

  /** The UTF-16 length of a string: two units for a rune of four bytes, one for every other one. */
  lemma UnitsOfRune(lead: Byte, more: Bytes, rest: Bytes)
    requires (lead < 0x80 || lead >= 0xC0) && forall i :: 0 <= i < |more| ==> 0x80 <= more[i] < 0xC0
    ensures E.Utf16Len([]) == 0 && E.Utf16Len([lead] + more + rest) == (if lead >= 0xF0 then 2 else 1) + E.Utf16Len(rest)
  {
    hide E.Utf16Len;
    Utf16Continuations(more, rest);
    var bs := [lead] + more + rest;
    assert bs[0] == lead && bs[1..] == more + rest;
    FirstCounts(bs);
  }

  lemma FirstCounts(bs: Bytes)
    requires bs != []
    ensures E.Utf16Len([]) == 0
    ensures E.Utf16Len(bs) == (if IsContinuation(bs[0]) then 0 else if bs[0] >= 0xF0 then 2 else 1) + E.Utf16Len(bs[1..])
  {
  }

  /** The content of a struct that is written: by its ref, a length, bytes with their length, a pair, or values. */
  lemma ContentWritten(item: EncodedItem)
    requires E.Fits(item) && E.DataMatches(item.ref, item.length, item.data)
    ensures E.PrintContent(item).Ok? && A.Holdable(Nil)
    ensures var bs := E.PrintContent(item).value; var d := item.data;
            && (item.ref == 1 ==> bs == VarUint(item.length))
            && (item.ref == 3 ==> d.Raw? && bs == VarUint(|d.b|) + d.b)
            && (item.ref == 4 || item.ref == 5 ==> d.Str? && bs == VarUint(|d.s|) + d.s)
            && (item.ref == 6 ==> d.Pair? && A.Holdable(d.value) && bs == VarUint(|d.key|) + d.key + A.Print(d.value))
            && (item.ref == 7 ==> d.Number? && bs == VarUint(d.n))
            && (item.ref == 8 ==> d.One? && A.Holdable(d.v) && bs == if d.v.Arr? then VarUint(|d.v.elems|) + Flatten(ElemBytes(d.v.elems)) else [1] + A.Print(d.v))
  {
    hide VarUint, A.Print, A.Holdable, A.PrintElems, Flatten, E.Utf16Len;
    NilHolds();
    OneByte(1);
    if item.ref == 8 && item.data.v.Arr? {
      ElemsFlat(item.data.v.elems, 0);
      assert ElemBytes(item.data.v.elems)[0..] == ElemBytes(item.data.v.elems);
    }
  }

  lemma NilHolds()
    ensures A.Holdable(Nil)
  {
  }

  lemma OneByte(n: nat)
    requires n < 128
    ensures VarUint(n) == [n]
  {
  }

  /** An ID on the wire, if there is one: the client and then the clock. */
  function IdBytes(id: Option<Id>): Bytes {
    if id.Some? then VarUint(id.value.client) + VarUint(id.value.clock) else []
  }

  /**
   * A struct that is written: GC and Skip are a byte and a length. Any other struct is its info byte (the ref
   * in the low five bits, 0x80 with a left origin, 0x40 with a right origin, 0x20 with a key), the left origin,
   * the right origin, without both of them a 1 and the name of the parent or a 0 and its ID, the key, the content.
   */
  lemma StructWritten(item: EncodedItem)
    requires E.WellFormed(item)
    ensures A.Holdable(Nil) && E.Print(item).Ok?
    ensures item.isGC ==> E.Print(item).value == [0] + VarUint(item.length)
    ensures !item.isGC && item.isSkip ==> E.Print(item).value == [10] + VarUint(item.length)
    ensures !item.isGC && !item.isSkip ==>
              && E.PrintContent(item).Ok? && item.ref < 32
              && E.Print(item).value ==
                   [item.ref + (if item.left.Some? then 0x80 else 0) + (if item.right.Some? then 0x40 else 0) + (if item.sub.Some? then 0x20 else 0)]
                   + IdBytes(item.left) + IdBytes(item.right)
                   + (match item.parent
                      case ByKey(name) => [1] + VarUint(|name|) + name
                      case ById(id) => [0] + VarUint(id.client) + VarUint(id.clock)
                      case NoParent => [])
                   + (if item.sub.Some? then VarUint(|item.sub.value|) + item.sub.value else [])
                   + E.PrintContent(item).value
  {
    hide VarUint, E.PrintContent, E.Fits, E.DataMatches, A.Holdable;
    NilHolds();
    OneByte(0);
    OneByte(1);
    if !item.isGC && !item.isSkip {
      ContentThere(item);
      var name := item.parent;
      assert name.ByKey? ==> [1] + VarBytes(name.name) == [1] + VarUint(|name.name|) + name.name;
      assert name.ById? ==> [0] + (VarUint(name.pid.client) + VarUint(name.pid.clock)) == [0] + VarUint(name.pid.client) + VarUint(name.pid.clock);
    }
  }

  lemma ContentThere(item: EncodedItem)
    requires E.Fits(item) && E.DataMatches(item.ref, item.length, item.data)
    ensures E.PrintContent(item).Ok? && item.ref < 32
  {
    hide VarUint, A.Print, A.Holdable, A.PrintElems, E.Utf16Len;
  }

  /**
   * Parents and gaps as they are read: a flag of 1 is followed by a name, any other flag by an ID. Refs 0 and 10
   * are GC and Skip whatever the other bits of the info byte say.
   */
  lemma ParentRead(name: Bytes, flag: nat, id: Id, tail: Bytes)
    requires |name| < 0x1_0000_0000_0000_0000 && flag < 0x1_0000_0000_0000_0000 && E.IdFits(id)
    ensures E.ParseParent(VarUint(1) + (VarUint(|name|) + name + tail), true) == Ok(Read(ByKey(name), tail))
    ensures flag != 1 ==> E.ParseParent(VarUint(flag) + (VarUint(id.client) + VarUint(id.clock) + tail), true) == Ok(Read(ById(id), tail))
  {
    hide VarUint, ParseVarUint, ParseVarBytes, E.ParseId;
    VarUintRoundTrip(1, VarUint(|name|) + name + tail);
    VarBytesRoundTrip(name, tail);
    VarUintRoundTrip(flag, VarUint(id.client) + VarUint(id.clock) + tail);
    IdRoundTrip(id, tail);
  }

  lemma GapRead(info: Byte, n: nat, client: nat, clock: nat, tail: Bytes)
    requires (info % 32 == 0 || info % 32 == 10) && n < 0x1_0000_0000_0000_0000
    ensures E.Parse([info] + (VarUint(n) + tail), client, clock)
         == Ok(Read(EncodedItem(client, clock, n, info % 32 == 0, info % 32 == 10, info, None, None, NoParent, None, 0, NoData), tail))
  {
    hide VarUint, ParseVarUint, E.ParseBody;
    VarUintRoundTrip(n, tail);
    A.ParseTag(info, VarUint(n) + tail);
  }

  /** The contents with a length or with bytes, as they are read; refs of no content are an error. */
  lemma ContentRead(n: nat, s: Bytes, ref: Byte, tail: Bytes)
    requires n < 0x1_0000_0000_0000_0000 && |s| < 0x1_0000_0000_0000_0000
    ensures E.ParseContent(VarUint(n) + tail, 1) == Ok(Read(Payload(Number(n), n), tail))
    ensures E.ParseContent(VarUint(n) + tail, 7) == Ok(Read(Payload(Number(n), 1), tail))
    ensures E.ParseContent(VarUint(|s|) + s + tail, 2) == Ok(Read(Payload(E.Str(s), 1), tail))
    ensures E.ParseContent(VarUint(|s|) + s + tail, 3) == Ok(Read(Payload(Raw(s), 1), tail))
    ensures E.ParseContent(VarUint(|s|) + s + tail, 4) == Ok(Read(Payload(E.Str(s), E.Utf16Len(s)), tail))
    ensures E.ParseContent(VarUint(|s|) + s + tail, 5) == Ok(Read(Payload(E.Str(s), 1), tail))
    ensures ref == 0 || ref > 9 ==> E.ParseContent(tail, ref) == Err(UnknownRef)
  {
    hide VarUint, ParseVarUint, ParseVarBytes, E.Utf16Len;
    VarUintRoundTrip(n, tail);
    VarBytesRoundTrip(s, tail);
  }

  /** Format and document content: a string and a value. */
  lemma PairContentRead(key: Bytes, p: Bytes, v: Any, tail: Bytes)
    requires |key| < 0x1_0000_0000_0000_0000 && ReadAs(p, v)
    ensures E.ParseContent(VarUint(|key|) + key + p + tail, 6) == Ok(Read(Payload(E.Pair(key, v), 0), tail))
    ensures E.ParseContent(VarUint(|key|) + key + p + tail, 9) == Ok(Read(Payload(E.Opts(key, v), 1), tail))
  {
    hide VarUint, ParseVarBytes, A.Parse, ReadAs, E.ParseContent, VarBytes;
    ReadAsAt(p, v, tail);
    KeyFirst(key, p, tail);
    VarBytesRoundTrip(key, p + tail);
    PairParsed(VarBytes(key) + (p + tail), key, p + tail, v, tail);
  }

  lemma KeyFirst(key: Bytes, p: Bytes, tail: Bytes)
    ensures VarUint(|key|) + key + p + tail == VarBytes(key) + (p + tail)
  {
    hide VarUint;
  }

  lemma PairParsed(bs: Bytes, key: Bytes, rest: Bytes, v: Any, tail: Bytes)
    requires ParseVarBytes(bs) == Ok(Read(key, rest)) && A.Parse(rest) == Ok(Read(v, tail))
    ensures E.ParseContent(bs, 6) == Ok(Read(Payload(E.Pair(key, v), 0), tail))
    ensures E.ParseContent(bs, 9) == Ok(Read(Payload(E.Opts(key, v), 1), tail))
  {
    hide ParseVarBytes, A.Parse;
  }

  /** Any-values: their number and each of them; one value stands by itself. */
  lemma ValuesContentRead(ps: seq<Bytes>, vs: seq<Any>, tail: Bytes)
    requires |ps| == |vs| < 0x1_0000_0000_0000_0000 && forall i :: 0 <= i < |ps| ==> ReadAs(ps[i], vs[i])
    ensures E.ParseContent(VarUint(|vs|) + Flatten(ps) + tail, 8) == Ok(Read(Payload(One(if |vs| == 1 then vs[0] else Arr(vs)), |vs|), tail))
  {
    hide VarUint, ParseVarUint, Flatten, A.ParseElems, ReadAs;
    ElemsRead(ps, vs, [], tail);
    assert VarUint(|vs|) + Flatten(ps) + tail == VarUint(|vs|) + (Flatten(ps) + tail) && [] + vs == vs;
    VarUintRoundTrip(|vs|, Flatten(ps) + tail);
  }

  // Updates.

  predicate Prints(item: EncodedItem) {
    E.Fits(item) && E.Print(item).Ok?
  }

  predicate Printable(items: seq<EncodedItem>) {
    U.AllFit(items) && forall i :: 0 <= i < |items| ==> Prints(items[i])
  }

  /** The bytes of structs, each by itself. */
  function StructBytes(items: seq<EncodedItem>): (ps: seq<Bytes>)
    requires Printable(items)
    ensures |ps| == |items| && forall i :: 0 <= i < |ps| ==> Prints(items[i]) && E.Print(items[i]) == Ok(ps[i])
  {
    seq(|items|, i requires 0 <= i < |items| => E.Print(items[i]).value)
  }

  lemma {:induction false} StructsFlat(items: seq<EncodedItem>)
    requires Printable(items)
    ensures U.PrintStructs(items) == Ok(Flatten(StructBytes(items)))
  {
    hide E.Print, E.Fits;
    if items != [] {
      StructsFlat(items[1..]);
      assert StructBytes(items)[1..] == StructBytes(items[1..]);
      assert Prints(items[0]);
    }
  }

  lemma {:induction false} GroupPrintable(items: seq<EncodedItem>, c: nat)
    requires Printable(items)
    ensures Printable(U.GroupOf(items, c))
  {
    hide Prints, E.Fits;
    if items != [] { GroupPrintable(items[1..], c); }
  }

  /** The structs of one client: their number, the client, the clock of the first one, and each of them. */
  function GroupBytes(items: seq<EncodedItem>, client: nat): Bytes
    requires Printable(items)
  {
    GroupPrintable(items, client);
    var g := U.GroupOf(items, client);
    VarUint(|g|) + VarUint(client) + VarUint(if g == [] then 0 else g[0].clock) + Flatten(StructBytes(g))
  }

  function GroupPieces(items: seq<EncodedItem>, clients: seq<nat>): (ps: seq<Bytes>)
    requires Printable(items)
    ensures |ps| == |clients| && forall i :: 0 <= i < |ps| ==> ps[i] == GroupBytes(items, clients[i])
  {
    seq(|clients|, i requires 0 <= i < |clients| => GroupBytes(items, clients[i]))
  }

  lemma {:induction false} GroupsFlat(items: seq<EncodedItem>, clients: seq<nat>)
    requires Printable(items)
    ensures U.PrintGroups(items, clients) == Ok(Flatten(GroupPieces(items, clients)))
  {
    hide Printable, U.AllFit, VarUint, U.GroupOf, Flatten;
    FlatNone();
    if clients != [] {
      var g := U.GroupOf(items, clients[0]);
      GroupPrintable(items, clients[0]);
      StructsFlat(g);
      GroupsFlat(items, clients[1..]);
      var ps := GroupPieces(items, clients);
      assert ps[1..] == GroupPieces(items, clients[1..]);
      FlatFirst(ps);
    }
  }

  lemma FlatNone()
    ensures Flatten([]) == []
  {
  }

  lemma FlatFirst(ps: seq<Bytes>)
    requires ps != []
    ensures Flatten(ps) == ps[0] + Flatten(ps[1..])
  {
  }

  /** The deletions of one client: the client, the number of ranges, and each of them, the clock before the length. */
  function DeletionBytes(client: nat, ranges: seq<Range>): Bytes {
    VarUint(client) + VarUint(|ranges|) + Flatten(seq(|ranges|, i requires 0 <= i < |ranges| => VarUint(ranges[i].clock) + VarUint(ranges[i].len)))
  }

  lemma {:induction false} RangesFlat(rs: seq<Range>)
    ensures U.PrintRanges(rs) == Flatten(seq(|rs|, i requires 0 <= i < |rs| => VarUint(rs[i].clock) + VarUint(rs[i].len)))
  {
    hide VarUint;
    var ps := seq(|rs|, i requires 0 <= i < |rs| => VarUint(rs[i].clock) + VarUint(rs[i].len));
    if rs != [] {
      var rest := rs[1..];
      RangesFlat(rest);
      assert ps[1..] == seq(|rest|, i requires 0 <= i < |rest| => VarUint(rest[i].clock) + VarUint(rest[i].len));
    }
  }

  function DeletionPieces(ds: DeleteSet, clients: seq<nat>): (ps: seq<Bytes>)
    requires forall c :: c in clients ==> c in ds
    ensures |ps| == |clients| && forall i :: 0 <= i < |ps| ==> clients[i] in ds && ps[i] == DeletionBytes(clients[i], ds[clients[i]])
  {
    seq(|clients|, i requires 0 <= i < |clients| => assert clients[i] in clients; DeletionBytes(clients[i], ds[clients[i]]))
  }

  lemma {:induction false} DeletionsFlat(ds: DeleteSet, clients: seq<nat>)
    requires forall c :: c in clients ==> c in ds
    ensures U.PrintDs(ds, clients) == Flatten(DeletionPieces(ds, clients))
  {
    hide VarUint, U.PrintRanges, Flatten;
    FlatNone();
    if clients != [] {
      assert forall c :: c in clients[1..] ==> c in clients;
      RangesFlat(ds[clients[0]]);
      DeletionsFlat(ds, clients[1..]);
      var ps := DeletionPieces(ds, clients);
      assert ps[1..] == DeletionPieces(ds, clients[1..]);
      FlatFirst(ps);
    }
  }

  /** There is one descending list of a set. */
  lemma {:induction false} OneDescending(a: seq<nat>, b: seq<nat>)
    requires SV.Descends(a) && SV.Descends(b) && forall c :: c in a <==> c in b
    ensures a == b
  {
    if a == [] || b == [] {
      FirstIn(a);
      FirstIn(b);
    } else {
      assert a[0] in a && b[0] in b && a[0] in b && b[0] in a;
      assert a[0] == b[0];
      TailHas(a);
      TailHas(b);
      OneDescending(a[1..], b[1..]);
      assert a == [a[0]] + a[1..] && b == [b[0]] + b[1..];
    }
  }

  lemma FirstIn(s: seq<nat>)
    ensures s == [] || s[0] in s
  {
  }

  lemma TailHas(s: seq<nat>)
    requires s != [] && SV.Descends(s)
    ensures SV.Descends(s[1..]) && forall c :: c in s[1..] <==> c in s && c != s[0]
  {
    assert s == [s[0]] + s[1..];
  }

  /**
   * An update that is written: the number of clients, the structs of each client, the number of clients with
   * deletions, the deletions of each; greater clients come first in both parts.
   */
  lemma UpdateWritten(u: U.UpdateV1, clients: seq<nat>, deleters: seq<nat>)
    requires Printable(u.items) && SV.Descends(clients) && SV.Descends(deleters)
    requires (forall c :: c in clients <==> exists e :: e in u.items && e.client == c) && forall c :: c in deleters <==> c in u.ds
    ensures U.AllFit(u.items)
    ensures U.Print(u) == Ok(VarUint(|clients|) + Flatten(GroupPieces(u.items, clients)) + VarUint(|deleters|) + Flatten(DeletionPieces(u.ds, deleters)))
  {
    hide VarUint, U.PrintGroups, U.PrintDs, Flatten, U.AllFit, SV.SortDesc, SV.Descends;
    SV.SortDescIs(U.ClientsOf(u.items));
    SV.SortDescIs(u.ds.Keys);
    forall c ensures c in clients <==> c in U.ClientsOf(u.items) {
    }
    OneDescending(clients, SV.SortDesc(U.ClientsOf(u.items)));
    OneDescending(deleters, SV.SortDesc(u.ds.Keys));
    GroupsFlat(u.items, clients);
    DeletionsFlat(u.ds, deleters);
    assert |u.ds| == |u.ds.Keys|;
  }

  // Updates of one struct.

  lemma OneStruct(e: EncodedItem)
    requires E.WellFormed(e)
    ensures Printable([e]) && GroupPieces([e], [e.client]) == [VarUint(1) + VarUint(e.client) + VarUint(e.clock) + E.Print(e).value]
  {
    hide VarUint, E.Print, E.Fits;
    ItemRoundTrip(e, 0, []);
    WellFormedFits(e);
    assert [e][1..] == [] && U.GroupOf([e], e.client) == [e];
    StructsOfOne(e);
    GroupPrintable([e], e.client);
  }

  lemma WellFormedFits(e: EncodedItem)
    requires E.WellFormed(e)
    ensures E.Fits(e)
  {
  }

  lemma StructsOfOne(e: EncodedItem)
    requires Printable([e])
    ensures E.Fits(e) && E.Print(e).Ok? && Flatten(StructBytes([e])) == E.Print(e).value
  {
    hide E.Print;
    assert [e][0] == e && Prints([e][0]);
    FlatOne(StructBytes([e]));
  }

  lemma FlatOne(ps: seq<Bytes>)
    requires |ps| == 1
    ensures Flatten(ps) == ps[0]
  {
    assert ps[1..] == [] && ps[0] + [] == ps[0];
  }

  /** The update of one struct, and of no deletion or of one range. */
  lemma OneStructUpdate(e: EncodedItem, gone: Id, n: nat)
    requires E.WellFormed(e) && e.client < TWO64 && e.clock < TWO64
    ensures Printable([e])
    ensures U.Print(U.UpdateV1([e], map[])) == Ok([1, 1] + VarUint(e.client) + VarUint(e.clock) + E.Print(e).value + [0])
    ensures U.Print(U.UpdateV1([e], map[gone.client := [Range(gone.clock, n)]]))
         == Ok([1, 1] + VarUint(e.client) + VarUint(e.clock) + E.Print(e).value + [1] + VarUint(gone.client) + [1] + VarUint(gone.clock) + VarUint(n))
  {
    hide VarUint, E.Print, E.WellFormed, GroupPieces, DeletionBytes, U.Print, Printable, Flatten;
    OneStruct(e);
    OneByte(0);
    OneByte(1);
    var ds := map[gone.client := [Range(gone.clock, n)]];
    FlatOne(GroupPieces([e], [e.client]));
    FlatOne(DeletionPieces(ds, [gone.client]));
    FlatNone();
    OneDeletion(gone, n);
    UpdateWritten(U.UpdateV1([e], map[]), [e.client], []);
    UpdateWritten(U.UpdateV1([e], ds), [e.client], [gone.client]);
    JoinParts(VarUint(e.client), VarUint(e.clock), E.Print(e).value, VarUint(gone.client), VarUint(gone.clock), VarUint(n));
  }

  lemma OneDeletion(gone: Id, n: nat)
    ensures DeletionBytes(gone.client, [Range(gone.clock, n)]) == VarUint(gone.client) + [1] + (VarUint(gone.clock) + VarUint(n))
  {
    hide VarUint;
    OneByte(1);
    var rs := [Range(gone.clock, n)];
    var ps := seq(|rs|, i requires 0 <= i < |rs| => VarUint(rs[i].clock) + VarUint(rs[i].len));
    FlatOne(ps);
  }

  lemma JoinParts(a: Bytes, b: Bytes, c: Bytes, d: Bytes, e: Bytes, f: Bytes)
    ensures [1] + ([1] + a + b + c) + [0] + [] == [1, 1] + a + b + c + [0]
    ensures [1] + ([1] + a + b + c) + [1] + (d + [1] + (e + f)) == [1, 1] + a + b + c + [1] + d + [1] + e + f
  {
  }

  /**
   * For example, in bytes: the update of one item of the library and one deleted range. One client with one
   * struct, the client and the clock of the item; its info byte, 4 for a string or 8 for a value plus the flags;
   * the origin, or 1 and the name of the parent; the key; the text with its length, or 1 and the value; then
   * one client with one range.
   */
  lemma OneItemOneDeletion(c: Cell, gone: Id, n: nat)
    requires Sendable(c)
    ensures U.AllFit([ToEncoded(c)])
    ensures U.Print(U.UpdateV1([ToEncoded(c)], map[gone.client := [Range(gone.clock, n)]])) ==
              Ok([1, 1] + VarUint(c.id.client) + VarUint(c.id.clock)
                 + ([(if c.content.Str? then 4 else 8)
                     + (if c.left.Some? then 0x80 else 0) + (if c.right.Some? then 0x40 else 0) + (if c.sub.Some? then 0x20 else 0)]
                    + IdBytes(c.left) + IdBytes(c.right)
                    + (if c.left.None? && c.right.None? then [1] + VarUint(|c.home.value|) + c.home.value else [])
                    + (if c.sub.Some? then VarUint(|c.sub.value|) + c.sub.value else [])
                    + (if c.content.Str? then VarUint(|Flat(c.content.text)|) + Flat(c.content.text) else [1] + A.Print(c.content.value)))
                 + [1] + VarUint(gone.client) + [1] + VarUint(gone.clock) + VarUint(n))
  {
    hide VarUint, E.Print, E.WellFormed, U.Print, Flat, A.Print, A.Holdable, IdBytes;
    var e := ToEncoded(c);
    CellRoundTrip(c);
    SendableFields(c);
    OneStructUpdate(e, gone, n);
    StructWritten(e);
    SentContent(c);
  }

  lemma SendableFields(c: Cell)
    requires Sendable(c)
    ensures c.home.Some? && (c.content.Str? || (c.content.Val? && A.Holdable(c.content.value))) && c.id.client < TWO64 && c.id.clock < TWO64
  {
  }

  lemma SentContent(c: Cell)
    requires Sendable(c) && E.WellFormed(ToEncoded(c))
    ensures E.PrintContent(ToEncoded(c)) == Ok(if c.content.Str? then VarUint(|Flat(c.content.text)|) + Flat(c.content.text) else [1] + A.Print(c.content.value))
  {
    hide VarUint, Flat, A.Print, A.Holdable, E.Utf16Len;
    OneByte(1);
  }

  /**
   * For example, the bytes in which a peer sends collected content: one client with one struct, info byte 1, a
   * 1 and the name of the parent, the length, and no deletions. They are decoded to one deleted item.
   */
  lemma DeletedStructRead(id: Id, name: Bytes, n: nat)
    requires E.IdFits(id) && 0 < |name| < TWO64 && n < TWO64
    ensures DecodeBytes([1, 1] + VarUint(id.client) + VarUint(id.clock) + ([1] + ([1] + VarUint(|name|) + name) + VarUint(n)) + [0])
         == Some(Replicas.Update([Cell(id, n, None, None, Some(name), None, Gone)], map[]))
  {
    hide VarUint, E.Print, U.Print, U.Parse, IsBmp;
    var e := EncodedItem(id.client, id.clock, n, false, false, 1, None, None, ByKey(name), None, 1, Number(n));
    assert E.WellFormed(e) && U.Normal(e) && IsItem(e);
    StructWritten(e);
    ContentWritten(e);
    assert [1] + [] + [] + ([1] + VarUint(|name|) + name) + [] + VarUint(n) == [1] + ([1] + VarUint(|name|) + name) + VarUint(n);
    OneStructUpdate(e, id, n);
    OneStructBack(e);
    assert Kept([e]) == [e] by { AllKept([e]); }
    assert CellsFrom([e]) == [FromEncoded(e)];
  }

  /** An update of one struct and no deletion is read back. */
  lemma OneStructBack(e: EncodedItem)
    requires E.WellFormed(e) && U.Normal(e) && e.client < TWO64 && e.clock < TWO64
    ensures U.AllFit([e]) && U.Print(U.UpdateV1([e], map[])).Ok?
    ensures U.Parse(U.Print(U.UpdateV1([e], map[])).value) == Ok(U.UpdateV1([e], map[]))
  {
    hide E.WellFormed, U.Normal, U.Print, U.Parse, E.Fits;
    var es := [e];
    U.AllWellFormedFit(es);
    OneClient(es, e.client);
    TheClient(es, e.client);
    SortOne(e.client);
    RegroupOne(es, e.client);
    assert U.Contiguous(es, e.clock) by { assert es[1..] == []; }
    assert U.Runs(es, e.client);
    U.UpdateKept(U.UpdateV1(es, map[]));
  }
}
