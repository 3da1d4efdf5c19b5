/** One struct of a v1 update, as protocol/update.go reads and writes it. */
module EncodedItems {
  import opened Wrappers
  import opened Values
  import opened Ids
  import opened Streams
  import opened Varints
  import AnyValues

  /** The parent of an item on the wire: a name, or the ID of the item that holds a nested type. */
  datatype Parent = NoParent | ByKey(name: Bytes) | ById(pid: Id)

  /** What ContentData holds. */
  datatype Data =
    | NoData
    | Number(n: nat)                  // uint64: deleted content, nested type
    | Str(s: Bytes)                   // string: text, embed, legacy JSON
    | Raw(b: Bytes)                   // []byte: binary
    | One(v: Any)                     // any-value, or several of them as a slice
    | Pair(key: Bytes, value: Any)    // format
    | Opts(guid: Bytes, opts: Any)    // document

  datatype EncodedItem = EncodedItem(
    client: nat,
    clock: nat,
    length: nat,
    isGC: bool,
    isSkip: bool,
    info: Byte,
    left: Option<Id>,
    right: Option<Id>,
    parent: Parent,
    sub: Option<Bytes>,
    ref: Byte,
    data: Data)

  /** utf16Len of valid UTF-8: every byte that starts a rune counts, and once more if it starts a long one. */
  function Utf16Len(s: Bytes): nat {
    if s == [] then 0
    else (if IsContinuation(s[0]) then 0 else if s[0] >= 0xF0 then 2 else 1) + Utf16Len(s[1..])
  }

  datatype Payload = Payload(data: Data, length: nat)

  /** One value by itself, any other number of them as a slice. */
  function FromElems(elems: seq<Any>): Any {
    if |elems| == 1 then elems[0] else Arr(elems)
  }

  /** readItemContent */
  function ParseContent(bs: Bytes, ref: Byte): (p: Parsed<Payload>)
    ensures p.Ok? ==> |p.value.rest| < |bs|
  {
    match ref
    case 1 => var n :- ParseVarUint(bs); Ok(Read(Payload(Number(n.value), n.value), n.rest))
    case 4 => var s :- ParseVarBytes(bs); Ok(Read(Payload(Str(s.value), Utf16Len(s.value)), s.rest))
    case 8 =>
      var n :- ParseVarUint(bs);
      var es :- AnyValues.ParseElems(n.rest, n.value, []);
      Ok(Read(Payload(One(FromElems(es.value)), n.value), es.rest))
    case 3 => var b :- ParseVarBytes(bs); Ok(Read(Payload(Raw(b.value), 1), b.rest))
    case 5 => var s :- ParseVarBytes(bs); Ok(Read(Payload(Str(s.value), 1), s.rest))
    case 6 =>
      var k :- ParseVarBytes(bs);
      var v :- AnyValues.Parse(k.rest);
      Ok(Read(Payload(Pair(k.value, v.value), 0), v.rest))
    case 7 => var n :- ParseVarUint(bs); Ok(Read(Payload(Number(n.value), 1), n.rest))
    case 2 => var s :- ParseVarBytes(bs); Ok(Read(Payload(Str(s.value), 1), s.rest))
    case 9 =>
      var g :- ParseVarBytes(bs);
      var v :- AnyValues.Parse(g.rest);
      Ok(Read(Payload(Opts(g.value, v.value), 1), v.rest))
    case _ => Err(UnknownRef)
  }

  function ParseId(bs: Bytes): (p: Parsed<Id>)
    ensures p.Ok? ==> |p.value.rest| < |bs|
  {
    var client :- ParseVarUint(bs);
    var clock :- ParseVarUint(client.rest);
    Ok(Read(Id(client.value, clock.value), clock.rest))
  }

  function ParseOptId(bs: Bytes, has: bool): (p: Parsed<Option<Id>>)
    ensures p.Ok? ==> |p.value.rest| <= |bs|
  {
    if !has then Ok(Read(None, bs)) else var id :- ParseId(bs); Ok(Read(Some(id.value), id.rest))
  }

  function ParseOptBytes(bs: Bytes, has: bool): (p: Parsed<Option<Bytes>>)
    ensures p.Ok? ==> |p.value.rest| <= |bs|
  {
    if !has then Ok(Read(None, bs)) else var b :- ParseVarBytes(bs); Ok(Read(Some(b.value), b.rest))
  }

  /** The parent is there only without origins; a flag of 1 says it is a name, any other flag an ID. */
  function ParseParent(bs: Bytes, has: bool): (p: Parsed<Parent>)
    ensures p.Ok? ==> |p.value.rest| <= |bs|
  {
    if !has then Ok(Read(NoParent, bs))
    else
      var flag :- ParseVarUint(bs);
      if flag.value == 1 then var k :- ParseVarBytes(flag.rest); Ok(Read(ByKey(k.value), k.rest))
      else var id :- ParseId(flag.rest); Ok(Read(ById(id.value), id.rest))
  }

  /** readEncodedItem, after the info byte of an item that is neither GC nor Skip. */
  function ParseBody(bs: Bytes, client: nat, clock: nat, info: Byte): (p: Parsed<EncodedItem>)
    ensures p.Ok? ==> |p.value.rest| < |bs|
  {
    var hasLeft, hasRight, hasSub := info / 128 == 1, info / 64 % 2 == 1, info / 32 % 2 == 1;
    var left :- ParseOptId(bs, hasLeft);
    var right :- ParseOptId(left.rest, hasRight);
    var parent :- ParseParent(right.rest, !hasLeft && !hasRight);
    var sub :- ParseOptBytes(parent.rest, hasSub);
    var content :- ParseContent(sub.rest, info % 32);
    Ok(Read(EncodedItem(client, clock, content.value.length, false, false, info, left.value, right.value, parent.value,
                        sub.value, info % 32, content.value.data), content.rest))
  }

  /** readEncodedItem */
  function Parse(bs: Bytes, client: nat, clock: nat): (p: Parsed<EncodedItem>)
    ensures p.Ok? ==> |p.value.rest| < |bs|
  {
    if bs == [] then Err(Truncated)
    else
      var info := bs[0];
      if info % 32 == 0 || info % 32 == 10 then
        var n :- ParseVarUint(bs[1..]);
        Ok(Read(EncodedItem(client, clock, n.value, info % 32 == 0, info % 32 == 10, info, None, None, NoParent, None, 0, NoData), n.rest))
      else ParseBody(bs[1..], client, clock, info)
  }

  function PrintId(id: Id): Bytes {
    VarUint(id.client) + VarUint(id.clock)
  }

  function PrintOptId(id: Option<Id>): Bytes {
    if id.Some? then PrintId(id.value) else []
  }

  function PrintOptBytes(b: Option<Bytes>): Bytes {
    if b.Some? then VarBytes(b.value) else []
  }

  function PrintParent(item: EncodedItem): Bytes {
    if item.left.Some? || item.right.Some? then []
    else match item.parent
    case ByKey(name) => VarUint(1) + VarBytes(name)
    case ById(id) => VarUint(0) + PrintId(id)
    case NoParent => []
  }

  /** The any-values of an item can be written. */
  predicate Writable(d: Data) {
    (d.One? ==> AnyValues.Holdable(d.v)) && (d.Pair? ==> AnyValues.Holdable(d.value))
  }

  /** writeItemContent; data of the wrong kind makes it fail, or panic. */
  function PrintContent(item: EncodedItem): Result<Bytes>
    requires Writable(item.data)
  {
    match item.ref
    case 1 => Ok(VarUint(item.length))
    case 4 => if item.data.Str? then Ok(VarBytes(item.data.s)) else Err(BadContent)
    case 8 =>
      if item.data.One? then
        if item.data.v.Arr? then Ok(VarUint(|item.data.v.elems|) + AnyValues.PrintElems(item.data.v, 0))
        else Ok(VarUint(1) + AnyValues.Print(item.data.v))
      else Err(BadContent)
    case 3 => if item.data.Raw? then Ok(VarBytes(item.data.b)) else Err(BadContent)
    case 5 => Ok(VarBytes(if item.data.Str? then item.data.s else NULL_JSON))
    case 6 => if item.data.Pair? then Ok(VarBytes(item.data.key) + AnyValues.Print(item.data.value)) else Err(BadContent)
    case 7 => if item.data.Number? then Ok(VarUint(item.data.n)) else Err(BadContent)
    case _ => Err(UnknownRef)
  }

  const NULL_JSON: Bytes := [0x6E, 0x75, 0x6C, 0x6C]

  /** writeEncodedItem */
  function Print(item: EncodedItem): Result<Bytes>
    requires Writable(item.data)
  {
    if item.isGC then Ok([0] + VarUint(item.length))
    else if item.isSkip then Ok([10] + VarUint(item.length))
    else
      var content :- PrintContent(item);
      Ok([item.info] + PrintOptId(item.left) + PrintOptId(item.right) + PrintParent(item) + PrintOptBytes(item.sub) + content)
  }

  predicate IdFits(id: Id) {
    id.client < TWO64 && id.clock < TWO64
  }

  predicate Fits(item: EncodedItem) {
    && item.length < TWO64 && Writable(item.data)
    && (item.left.Some? ==> IdFits(item.left.value)) && (item.right.Some? ==> IdFits(item.right.value))
    && (item.parent.ByKey? ==> |item.parent.name| < TWO64) && (item.parent.ById? ==> IdFits(item.parent.pid))
    && (item.sub.Some? ==> |item.sub.value| < TWO64)
    && (item.data.Str? ==> |item.data.s| < TWO64) && (item.data.Raw? ==> |item.data.b| < TWO64)
    && (item.data.Pair? ==> |item.data.key| < TWO64) && (item.data.Number? ==> item.data.n < TWO64)
  }

  /** The data has the kind of the content reference, and the length is what it implies. */
  predicate DataMatches(ref: Byte, length: nat, data: Data) {
    match ref
    case 1 => data == Number(length)
    case 3 => data.Raw? && length == 1
    case 4 => data.Str? && length == Utf16Len(data.s)
    case 5 => data.Str? && length == 1
    case 6 => data.Pair? && length == 0
    case 7 => data.Number? && length == 1
    case 8 => data.One? && length == if data.v.Arr? then |data.v.elems| else 1
    case _ => false
  }

  /** The info byte that says which fields are present. */
  function InfoOf(ref: nat, hasLeft: bool, hasRight: bool, hasSub: bool): nat {
    ref + (if hasLeft then 128 else 0) + (if hasRight then 64 else 0) + (if hasSub then 32 else 0)
  }

  /** An item that the format can carry. */
  predicate WellFormed(item: EncodedItem) {
    && Fits(item)
    && if item.isGC || item.isSkip then
         item == EncodedItem(item.client, item.clock, item.length, item.isGC, !item.isGC, if item.isGC then 0 else 10,
                             None, None, NoParent, None, 0, NoData)
       else
         && item.info == InfoOf(item.ref, item.left.Some?, item.right.Some?, item.sub.Some?)
         && (item.parent.NoParent? <==> item.left.Some? || item.right.Some?)
         && DataMatches(item.ref, item.length, item.data)
  }

  /** What any-values come back as: an int as an int64, and a slice of one value as that value. */
  function Back(v: Any): Any {
    if v.Arr? && |v.elems| == 1 then AnyValues.Norm(v.elems[0]) else AnyValues.Norm(v)
  }

  function BackData(d: Data): Data {
    match d
    case One(v) => One(Back(v))
    case Pair(k, v) => Pair(k, AnyValues.Norm(v))
    case _ => d
  }

  /** A decoded item: the clock is counted up by the reader, the any-values come back as they do. */
  function BackItem(item: EncodedItem, clock: nat): EncodedItem {
    item.(clock := clock, data := BackData(item.data))
  }

  lemma IdRoundTrip(id: Id, tail: Bytes)
    requires IdFits(id)
    ensures ParseId(PrintId(id) + tail) == Ok(Read(id, tail))
  {
    hide ParseVarUint, VarUint;
    assert PrintId(id) + tail == VarUint(id.client) + (VarUint(id.clock) + tail);
    VarUintRoundTrip(id.client, VarUint(id.clock) + tail);
    VarUintRoundTrip(id.clock, tail);
  }

  lemma OptIdRoundTrip(id: Option<Id>, tail: Bytes)
    requires id.Some? ==> IdFits(id.value)
    ensures ParseOptId(PrintOptId(id) + tail, id.Some?) == Ok(Read(id, tail))
  {
    hide ParseId, PrintId;
    if id.Some? { IdRoundTrip(id.value, tail); } else { assert [] + tail == tail; }
  }

  lemma OptBytesRoundTrip(b: Option<Bytes>, tail: Bytes)
    requires b.Some? ==> |b.value| < TWO64
    ensures ParseOptBytes(PrintOptBytes(b) + tail, b.Some?) == Ok(Read(b, tail))
  {
    hide ParseVarBytes, VarBytes;
    if b.Some? { VarBytesRoundTrip(b.value, tail); } else { assert [] + tail == tail; }
  }

  lemma ParentRoundTrip(item: EncodedItem, tail: Bytes)
    requires Fits(item) && (item.parent.NoParent? <==> item.left.Some? || item.right.Some?)
    ensures ParseParent(PrintParent(item) + tail, item.left.None? && item.right.None?) == Ok(Read(item.parent, tail))
  {
    hide ParseVarUint, VarUint, ParseId, PrintId, ParseVarBytes, VarBytes, Writable;
    match item.parent {
      case ByKey(name) =>
        assert PrintParent(item) + tail == VarUint(1) + (VarBytes(name) + tail);
        VarUintRoundTrip(1, VarBytes(name) + tail);
        VarBytesRoundTrip(name, tail);
      case ById(id) =>
        assert PrintParent(item) + tail == VarUint(0) + (PrintId(id) + tail);
        VarUintRoundTrip(0, PrintId(id) + tail);
        IdRoundTrip(id, tail);
      case NoParent => assert [] + tail == tail;
    }
  }

  lemma InfoBits(ref: nat, l: bool, r: bool, s: bool)
    requires ref < 32
    ensures var info := InfoOf(ref, l, r, s);
            info < 256 && info % 32 == ref && (info / 128 == 1 <==> l) && (info / 64 % 2 == 1 <==> r) && (info / 32 % 2 == 1 <==> s)
  {
  }

  lemma ValuesRoundTrip(v: Any, tail: Bytes)
    requires AnyValues.Holdable(v)
    ensures var bs := if v.Arr? then VarUint(|v.elems|) + AnyValues.PrintElems(v, 0) else VarUint(1) + AnyValues.Print(v);
            ParseContent(bs + tail, 8) == Ok(Read(Payload(One(Back(v)), if v.Arr? then |v.elems| else 1), tail))
  {
    hide ParseVarUint, VarUint, AnyValues.Parse, AnyValues.Print, AnyValues.Holdable, AnyValues.PrintElems;
    if v.Arr? {
      AnyValues.HoldableHere(v);
      var body := AnyValues.PrintElems(v, 0);
      assert VarUint(|v.elems|) + body + tail == VarUint(|v.elems|) + (body + tail);
      VarUintRoundTrip(|v.elems|, body + tail);
      AnyValues.ElemsRoundTrip(v, 0, tail);
      assert AnyValues.Norm(v).elems[..0] == [];
    } else {
      var body := AnyValues.Print(v);
      assert VarUint(1) + body + tail == VarUint(1) + (body + tail);
      VarUintRoundTrip(1, body + tail);
      AnyValues.RoundTrip(v, tail);
      OneElem(body + tail, AnyValues.Norm(v), tail);
    }
  }

  lemma OneElem(bs: Bytes, v: Any, tail: Bytes)
    requires AnyValues.Parse(bs) == Ok(Read(v, tail))
    ensures AnyValues.ParseElems(bs, 1, []) == Ok(Read([v], tail))
  {
    hide AnyValues.Parse;
    assert [] + [v] == [v];
    assert AnyValues.ParseElems(tail, 0, [v]) == Ok(Read([v], tail));
  }

  lemma ContentRoundTrip(item: EncodedItem, tail: Bytes)
    requires Fits(item) && DataMatches(item.ref, item.length, item.data)
    ensures PrintContent(item).Ok?
    ensures ParseContent(PrintContent(item).value + tail, item.ref) == Ok(Read(Payload(BackData(item.data), item.length), tail))
  {
    hide ParseVarUint, VarUint, ParseVarBytes, VarBytes, AnyValues.Parse, AnyValues.Print, AnyValues.Holdable, AnyValues.ParseElems, Utf16Len, Back;
    match item.ref {
      case 1 => VarUintRoundTrip(item.length, tail);
      case 3 => VarBytesRoundTrip(item.data.b, tail);
      case 4 => VarBytesRoundTrip(item.data.s, tail);
      case 5 => VarBytesRoundTrip(item.data.s, tail);
      case 6 => PairRoundTrip(item.data.key, item.data.value, tail);
      case 7 => VarUintRoundTrip(item.data.n, tail);
      case 8 => ValuesRoundTrip(item.data.v, tail);
    }
  }

  lemma PairRoundTrip(key: Bytes, v: Any, tail: Bytes)
    requires |key| < TWO64 && AnyValues.Holdable(v)
    ensures ParseContent(VarBytes(key) + AnyValues.Print(v) + tail, 6) == Ok(Read(Payload(Pair(key, AnyValues.Norm(v)), 0), tail))
  {
    hide ParseVarBytes, VarBytes, AnyValues.Parse, AnyValues.Print, AnyValues.Holdable;
    assert VarBytes(key) + AnyValues.Print(v) + tail == VarBytes(key) + (AnyValues.Print(v) + tail);
    VarBytesRoundTrip(key, AnyValues.Print(v) + tail);
    AnyValues.RoundTrip(v, tail);
  }

  lemma BodyRoundTrip(item: EncodedItem, clock: nat, tail: Bytes)
    requires WellFormed(item) && !item.isGC && !item.isSkip
    ensures PrintContent(item).Ok?
    ensures ParseBody(PrintOptId(item.left) + PrintOptId(item.right) + PrintParent(item) + PrintOptBytes(item.sub) + PrintContent(item).value + tail,
                      item.client, clock, item.info) == Ok(Read(BackItem(item, clock), tail))
  {
    hide ParseOptId, PrintOptId, ParseOptBytes, PrintOptBytes, ParseParent, PrintParent, ParseContent, PrintContent, Fits, BackData, InfoOf;
    var l, r, p, s := PrintOptId(item.left), PrintOptId(item.right), PrintParent(item), PrintOptBytes(item.sub);
    RefBound(item);
    InfoBits(item.ref, item.left.Some?, item.right.Some?, item.sub.Some?);
    FitsParts(item);
    ContentRoundTrip(item, tail);
    var c := PrintContent(item).value;
    OptBytesRoundTrip(item.sub, c + tail);
    ParentRoundTrip(item, s + (c + tail));
    OptIdRoundTrip(item.right, p + (s + (c + tail)));
    OptIdRoundTrip(item.left, r + (p + (s + (c + tail))));
    assert l + r + p + s + c + tail == l + (r + (p + (s + (c + tail))));
  }

  lemma RefBound(item: EncodedItem)
    requires WellFormed(item) && !item.isGC && !item.isSkip
    ensures 1 <= item.ref <= 8
  {
  }

  lemma FitsParts(item: EncodedItem)
    requires Fits(item)
    ensures (item.left.Some? ==> IdFits(item.left.value)) && (item.right.Some? ==> IdFits(item.right.value))
    ensures (item.sub.Some? ==> |item.sub.value| < TWO64) && Writable(item.data)
  {
  }

  /** One struct: writing and reading it gives it back, at the clock that the reader has counted to. */
  lemma ItemRoundTrip(item: EncodedItem, clock: nat, tail: Bytes)
    requires WellFormed(item)
    ensures Print(item).Ok?
    ensures Parse(Print(item).value + tail, item.client, clock) == Ok(Read(BackItem(item, clock), tail))
  {
    hide ParseBody, PrintOptId, PrintOptBytes, PrintParent, PrintContent, ParseVarUint, VarUint;
    if item.isGC || item.isSkip {
      var tag: Byte := if item.isGC then 0 else 10;
      assert Print(item).value + tail == [tag] + (VarUint(item.length) + tail);
      AnyValues.ParseTag(tag, VarUint(item.length) + tail);
      VarUintRoundTrip(item.length, tail);
    } else {
      BodyRoundTrip(item, clock, tail);
      RefBound(item);
      InfoBits(item.ref, item.left.Some?, item.right.Some?, item.sub.Some?);
      BodyAfterInfo(item, clock, tail);
    }
  }

  lemma BodyAfterInfo(item: EncodedItem, clock: nat, tail: Bytes)
    requires Writable(item.data) && !item.isGC && !item.isSkip && PrintContent(item).Ok?
    requires item.info % 32 != 0 && item.info % 32 != 10
    ensures Parse(Print(item).value + tail, item.client, clock) ==
      ParseBody(PrintOptId(item.left) + PrintOptId(item.right) + PrintParent(item) + PrintOptBytes(item.sub) + PrintContent(item).value + tail,
                item.client, clock, item.info)
  {
    hide ParseBody, PrintOptId, PrintOptBytes, PrintParent, PrintContent, ParseVarUint;
    var rest := PrintOptId(item.left) + PrintOptId(item.right) + PrintParent(item) + PrintOptBytes(item.sub) + PrintContent(item).value + tail;
    assert Print(item).value + tail == [item.info] + rest;
    AnyValues.ParseTag(item.info, rest);
  }

  lemma ElemIsSmaller(v: Any)
    requires v.Arr? && |v.elems| == 1
    ensures AnyValues.Norm(v) != AnyValues.Norm(v.elems[0])
  {
    assert AnyValues.Norm(v).elems[0] == AnyValues.Norm(v.elems[0]);
  }

  /**
   * An item with an any-value, written and read, holds the same value again, normalised, exactly
   * unless the value is a slice of one element.
   */
  lemma OneElementLost(item: EncodedItem, clock: nat, tail: Bytes)
    requires WellFormed(item) && item.ref == 8
    ensures item.data.One? && Print(item).Ok?
    ensures Parse(Print(item).value + tail, item.client, clock)
              == Ok(Read(item.(clock := clock, data := One(AnyValues.Norm(item.data.v))), tail))
            <==> !(item.data.v.Arr? && |item.data.v.elems| == 1)
  {
    hide Print, Parse, AnyValues.Norm, Fits;
    ItemRoundTrip(item, clock, tail);
    var v := item.data.v;
    if v.Arr? && |v.elems| == 1 { ElemIsSmaller(v); }
  }

  /** For example: the slice [true] under a name is read back as true. */
  lemma SliceOfTrue(client: nat, clock: nat, name: Bytes, tail: Bytes)
    requires |name| < TWO64
    ensures var item := EncodedItem(client, clock, 1, false, false, 8, None, None, ByKey(name), None, 8, One(Arr([Bool(true)])));
            && WellFormed(item) && Print(item).Ok?
            && Parse(Print(item).value + tail, client, clock) == Ok(Read(item.(data := One(Bool(true))), tail))
  {
    var item := EncodedItem(client, clock, 1, false, false, 8, None, None, ByKey(name), None, 8, One(Arr([Bool(true)])));
    assert WellFormed(item);
    hide Print, Parse;
    ItemRoundTrip(item, clock, tail);
  }

  // The same on streams.

  method ReadId(r: Reader) returns (res: Result<Id>)
    modifies r
    ensures Reads(ParseId(old(r.rest)), res, r.rest)
  {
    hide ParseVarUint;
    var client := ReadVarUint(r);
    if client.Err? { return Err(client.error); }
    var clock := ReadVarUint(r);
    if clock.Err? { return Err(clock.error); }
    res := Ok(Id(client.value, clock.value));
  }

  method ReadOptId(r: Reader, has: bool) returns (res: Result<Option<Id>>)
    modifies r
    ensures Reads(ParseOptId(old(r.rest), has), res, r.rest)
  {
    hide ParseId;
    if !has { return Ok(None); }
    var id := ReadId(r);
    res := if id.Ok? then Ok(Some(id.value)) else Err(id.error);
  }

  method ReadOptBytes(r: Reader, has: bool) returns (res: Result<Option<Bytes>>)
    modifies r
    ensures Reads(ParseOptBytes(old(r.rest), has), res, r.rest)
  {
    hide ParseVarBytes;
    if !has { return Ok(None); }
    var b := ReadVarBytes(r);
    res := if b.Ok? then Ok(Some(b.value)) else Err(b.error);
  }

  method ReadParent(r: Reader, has: bool) returns (res: Result<Parent>)
    modifies r
    ensures Reads(ParseParent(old(r.rest), has), res, r.rest)
  {
    hide ParseVarUint, ParseVarBytes, ParseId;
    if !has { return Ok(NoParent); }
    var flag := ReadVarUint(r);
    if flag.Err? { return Err(flag.error); }
    if flag.value == 1 {
      var k := ReadVarBytes(r);
      return if k.Ok? then Ok(ByKey(k.value)) else Err(k.error);
    }
    var id := ReadId(r);
    res := if id.Ok? then Ok(ById(id.value)) else Err(id.error);
  }

  /** utf16Len: a loop over the string. */
  method CountUtf16(s: Bytes) returns (n: nat)
    ensures n == Utf16Len(s)
  {
    n := 0;
    for i := 0 to |s|
      invariant n + Utf16Len(s[i..]) == Utf16Len(s)
    {
      assert s[i..][0] == s[i] && s[i..][1..] == s[i + 1..];
      if !IsContinuation(s[i]) {
        n := n + 1;
        if s[i] >= 0xF0 {
          n := n + 1;
        }
      }
    }
  }

  method ReadString(r: Reader) returns (res: Result<Payload>)
    modifies r
    ensures Reads(ParseContent(old(r.rest), 4), res, r.rest)
  {
    hide ParseVarBytes;
    var s := ReadVarBytes(r);
    if s.Err? { return Err(s.error); }
    var n := CountUtf16(s.value);
    res := Ok(Payload(Str(s.value), n));
  }

  method ReadValues(r: Reader) returns (res: Result<Payload>)
    modifies r
    ensures Reads(ParseContent(old(r.rest), 8), res, r.rest)
  {
    hide ParseVarUint, AnyValues.Parse;
    var n := ReadVarUint(r);
    if n.Err? { return Err(n.error); }
    ghost var start := r.rest;
    var arr, i := [], 0;
    while i < n.value
      invariant i <= n.value
      invariant |arr| == i
      invariant AnyValues.ParseElems(start, n.value, []) == AnyValues.ParseElems(r.rest, n.value - i, arr)
    {
      var v := AnyValues.ReadAny(r);
      if v.Err? { return Err(v.error); }
      arr := arr + [v.value];
      i := i + 1;
    }
    res := Ok(Payload(One(if n.value == 1 then arr[0] else Arr(arr)), n.value));
  }

  /** A string and a value: format and document content. */
  method ReadPair(r: Reader, ref: Byte) returns (res: Result<Payload>)
    requires ref == 6 || ref == 9
    modifies r
    ensures Reads(ParseContent(old(r.rest), ref), res, r.rest)
  {
    hide ParseVarBytes, AnyValues.Parse;
    var k := ReadVarBytes(r);
    if k.Err? { return Err(k.error); }
    var v := AnyValues.ReadAny(r);
    if v.Err? { return Err(v.error); }
    res := Ok(if ref == 6 then Payload(Pair(k.value, v.value), 0) else Payload(Opts(k.value, v.value), 1));
  }

  /** readItemContent */
  method ReadContent(r: Reader, ref: Byte) returns (res: Result<Payload>)
    modifies r
    ensures Reads(ParseContent(old(r.rest), ref), res, r.rest)
  {
    hide ParseVarUint, ParseVarBytes, AnyValues.Parse, AnyValues.ParseElems, Utf16Len;
    if ref == 1 || ref == 7 {
      var n := ReadVarUint(r);
      if n.Err? { return Err(n.error); }
      res := Ok(Payload(Number(n.value), if ref == 1 then n.value else 1));
    } else if ref == 4 {
      res := ReadString(r);
    } else if ref == 8 {
      res := ReadValues(r);
    } else if ref == 3 || ref == 5 || ref == 2 {
      var b := ReadVarBytes(r);
      if b.Err? { return Err(b.error); }
      res := Ok(Payload(if ref == 3 then Raw(b.value) else Str(b.value), 1));
    } else if ref == 6 || ref == 9 {
      res := ReadPair(r, ref);
    } else {
      res := Err(UnknownRef);
    }
  }

  method ReadBody(r: Reader, client: nat, clock: nat, info: Byte) returns (res: Result<EncodedItem>)
    modifies r
    ensures Reads(ParseBody(old(r.rest), client, clock, info), res, r.rest)
  {
    hide ParseOptId, ParseParent, ParseOptBytes, ParseContent;
    var hasLeft, hasRight, hasSub := info / 128 == 1, info / 64 % 2 == 1, info / 32 % 2 == 1;
    var left := ReadOptId(r, hasLeft);
    if left.Err? { return Err(left.error); }
    var right := ReadOptId(r, hasRight);
    if right.Err? { return Err(right.error); }
    var parent := ReadParent(r, !hasLeft && !hasRight);
    if parent.Err? { return Err(parent.error); }
    var sub := ReadOptBytes(r, hasSub);
    if sub.Err? { return Err(sub.error); }
    var content := ReadContent(r, info % 32);
    if content.Err? { return Err(content.error); }
    res := Ok(EncodedItem(client, clock, content.value.length, false, false, info, left.value, right.value, parent.value,
                          sub.value, info % 32, content.value.data));
  }

  /** readEncodedItem */
  method ReadItem(r: Reader, client: nat, clock: nat) returns (res: Result<EncodedItem>)
    modifies r
    ensures Reads(Parse(old(r.rest), client, clock), res, r.rest)
  {
    hide ParseVarUint, ParseBody;
    if r.rest == [] { return Err(Truncated); }
    var info := r.rest[0];
    r.rest := r.rest[1..];
    if info % 32 == 0 || info % 32 == 10 {
      var n := ReadVarUint(r);
      if n.Err? { return Err(n.error); }
      return Ok(EncodedItem(client, clock, n.value, info % 32 == 0, info % 32 == 10, info, None, None, NoParent, None, 0, NoData));
    }
    res := ReadBody(r, client, clock, info);
  }

  method WriteId(w: Writer, id: Id)
    requires IdFits(id)
    modifies w
    ensures w.buf == old(w.buf) + PrintId(id)
  {
    hide VarUint;
    WriteVarUint(w, id.client);
    WriteVarUint(w, id.clock);
  }

  /** writeItemContent */
  method WriteContent(w: Writer, item: EncodedItem) returns (res: Result<bool>)
    requires Fits(item)
    modifies w
    ensures Writable(item.data)
    ensures PrintContent(item).Ok? ==> res == Ok(true) && w.buf == old(w.buf) + PrintContent(item).value
    ensures PrintContent(item).Err? ==> res == Err(PrintContent(item).error)
  {
    hide VarUint, VarBytes, AnyValues.Print, AnyValues.PrintElems, AnyValues.Holdable;
    res := Ok(true);
    var d := item.data;
    if item.ref == 1 {
      WriteVarUint(w, item.length);
    } else if item.ref == 4 && d.Str? {
      WriteVarBytes(w, d.s);
    } else if item.ref == 8 && d.One? && d.v.Arr? {
      AnyValues.HoldableHere(d.v);
      WriteVarUint(w, |d.v.elems|);
      AnyValues.WriteElems(w, d.v);
    } else if item.ref == 8 && d.One? {
      WriteVarUint(w, 1);
      AnyValues.WriteAny(w, d.v);
    } else if item.ref == 3 && d.Raw? {
      WriteVarBytes(w, d.b);
    } else if item.ref == 5 {
      WriteVarBytes(w, if d.Str? then d.s else NULL_JSON);
    } else if item.ref == 6 && d.Pair? {
      WriteVarBytes(w, d.key);
      AnyValues.WriteAny(w, d.value);
    } else if item.ref == 7 && d.Number? {
      WriteVarUint(w, d.n);
    } else {
      res := Err(if item.ref == 3 || item.ref == 4 || item.ref == 6 || item.ref == 7 || item.ref == 8 then BadContent else UnknownRef);
    }
  }

  /** The origins, the parent and the key. */
  method WriteHead(w: Writer, item: EncodedItem)
    requires Fits(item)
    modifies w
    ensures w.buf == old(w.buf) + ([item.info] + PrintOptId(item.left) + PrintOptId(item.right) + PrintParent(item) + PrintOptBytes(item.sub))
  {
    hide VarUint, VarBytes, PrintId, Writable;
    w.Write([item.info]);
    if item.left.Some? { WriteId(w, item.left.value); }
    if item.right.Some? { WriteId(w, item.right.value); }
    if item.left.None? && item.right.None? { WriteParent(w, item); }
    if item.sub.Some? { WriteVarBytes(w, item.sub.value); }
  }

  method WriteParent(w: Writer, item: EncodedItem)
    requires Fits(item) && item.left.None? && item.right.None?
    modifies w
    ensures w.buf == old(w.buf) + PrintParent(item)
  {
    hide VarUint, VarBytes, PrintId, Writable;
    if item.parent.ByKey? {
      WriteVarUint(w, 1);
      WriteVarBytes(w, item.parent.name);
    } else if item.parent.ById? {
      WriteVarUint(w, 0);
      WriteId(w, item.parent.pid);
    }
  }

  /** writeEncodedItem */
  method WriteItem(w: Writer, item: EncodedItem) returns (res: Result<bool>)
    requires Fits(item)
    modifies w
    ensures Writable(item.data)
    ensures Print(item).Ok? ==> res == Ok(true) && w.buf == old(w.buf) + Print(item).value
    ensures Print(item).Err? ==> res == Err(Print(item).error)
  {
    hide VarUint, PrintOptId, PrintOptBytes, PrintParent, PrintContent, Fits, Writable;
    FitsParts(item);
    if item.isGC || item.isSkip {
      w.Write([if item.isGC then 0 else 10]);
      WriteLength(w, item);
      return Ok(true);
    }
    WriteHead(w, item);
    res := WriteContent(w, item);
  }

  method WriteLength(w: Writer, item: EncodedItem)
    requires Fits(item)
    modifies w
    ensures w.buf == old(w.buf) + VarUint(item.length)
  {
    hide VarUint;
    WriteVarUint(w, item.length);
  }
}
