/** ReadAny and WriteAny of protocol/update.go: the encoding of Go values of any kind. */
module AnyValues {
  import opened Wrappers
  import opened Values
  import opened Streams
  import opened Varints

  /** uint64(i) of an int64. */
  function ToU64(i: int): (v: U64)
    requires -0x8000_0000_0000_0000 <= i < 0x8000_0000_0000_0000
  {
    if i < 0 then i + TWO64 else i
  }

  /** int64(v) */
  function FromU64(v: U64): int {
    if v < 0x8000_0000_0000_0000 then v else v - TWO64
  }

  /** A value that a Go program can hold: numbers in range, the bits of a float, the keys of a map distinct. */
  predicate Holdable(v: Any)
    decreases v
  {
    match v
    case Int(i) => -0x8000_0000_0000_0000 <= i < 0x8000_0000_0000_0000
    case GoInt(i) => -0x8000_0000_0000_0000 <= i < 0x8000_0000_0000_0000
    case BigUint(n) => n < TWO64
    case Float32(bits) => |bits| == 4
    case Float64(bits) => |bits| == 8
    case Text(s) => |s| < TWO64
    case Blob(data) => |data| < TWO64
    case Arr(elems) => |elems| < TWO64 && forall i :: 0 <= i < |elems| ==> Holdable(elems[i])
    case Obj(fields) =>
      && |fields| < TWO64
      && (forall i :: 0 <= i < |fields| ==> |fields[i].key| < TWO64 && Holdable(fields[i].value))
      && (forall i, j :: 0 <= i < j < |fields| ==> fields[i].key != fields[j].key)
    case _ => true
  }

  function Width(v: Any): nat {
    if v.Arr? then |v.elems| else if v.Obj? then |v.fields| else 0
  }

  /** WriteAny; a value of a kind that it does not know is written like nil. */
  function Print(v: Any): (bs: Bytes)
    requires Holdable(v)
    ensures bs != []
    decreases v, Width(v) + 2
  {
    match v
    case Nil => [127]
    case Bool(b) => if b then [120] else [121]
    case Text(s) => [119] + VarBytes(s)
    case GoInt(i) => [125] + VarUint(ToU64(i))
    case Int(i) => [125] + VarUint(ToU64(i))
    case BigUint(n) => [122] + VarUint(n)
    case Float32(bits) => [124] + bits
    case Float64(bits) => [123] + bits
    case Obj(fields) => [118] + VarUint(|fields|) + PrintFields(v, 0)
    case Arr(elems) => [117] + VarUint(|elems|) + PrintElems(v, 0)
    case Blob(data) => [116] + VarBytes(data)
    case Foreign => [127]
  }

  /** The elements of an array from index i on. */
  function PrintElems(v: Any, i: nat): Bytes
    requires Holdable(v) && v.Arr? && i <= |v.elems|
    decreases v, |v.elems| - i + 1
  {
    if i == |v.elems| then [] else Print(v.elems[i]) + PrintElems(v, i + 1)
  }

  /** The fields of an object from index i on. */
  function PrintFields(v: Any, i: nat): Bytes
    requires Holdable(v) && v.Obj? && i <= |v.fields|
    decreases v, |v.fields| - i + 1
  {
    if i == |v.fields| then []
    else VarBytes(v.fields[i].key) + Print(v.fields[i].value) + PrintFields(v, i + 1)
  }

  /** obj[k] = v on a Go map. */
  function Put(fields: seq<Field>, f: Field): seq<Field> {
    if fields == [] then [f]
    else if fields[0].key == f.key then [f] + fields[1..]
    else [fields[0]] + Put(fields[1..], f)
  }

  /** ReadAny. Every call consumes at least its tag, so it ends on every byte string. */
  function Parse(bs: Bytes): (p: Parsed<Any>)
    ensures p.Ok? ==> |p.value.rest| < |bs|
    decreases |bs|, 0
  {
    if bs == [] then Err(Truncated)
    else
      var rest := bs[1..];
      match bs[0]
      case 127 => Ok(Read(Nil, rest))
      case 126 => Ok(Read(Nil, rest))
      case 125 => var n :- ParseVarUint(rest); Ok(Read(Int(FromU64(n.value)), n.rest))
      case 124 => var b :- ParseFixed(rest, 4); Ok(Read(Float32(b.value), b.rest))
      case 123 => var b :- ParseFixed(rest, 8); Ok(Read(Float64(b.value), b.rest))
      case 122 => var n :- ParseVarUint(rest); Ok(Read(BigUint(n.value), n.rest))
      case 121 => Ok(Read(Bool(false), rest))
      case 120 => Ok(Read(Bool(true), rest))
      case 119 => var s :- ParseVarBytes(rest); Ok(Read(Text(s.value), s.rest))
      case 118 =>
        var n :- ParseVarUint(rest);
        var fs :- ParseFields(n.rest, n.value, []);
        Ok(Read(Obj(fs.value), fs.rest))
      case 117 =>
        var n :- ParseVarUint(rest);
        var es :- ParseElems(n.rest, n.value, []);
        Ok(Read(Arr(es.value), es.rest))
      case 116 => var b :- ParseVarBytes(rest); Ok(Read(Blob(b.value), b.rest))
      case _ => Err(UnknownTag)
  }

  /** n more elements after those read so far. */
  function ParseElems(bs: Bytes, n: nat, sofar: seq<Any>): (p: Parsed<seq<Any>>)
    ensures p.Ok? ==> |p.value.rest| <= |bs|
    decreases |bs|, 1
  {
    if n == 0 then Ok(Read(sofar, bs))
    else
      var v :- Parse(bs);
      ParseElems(v.rest, n - 1, sofar + [v.value])
  }

  function ParseFields(bs: Bytes, n: nat, sofar: seq<Field>): (p: Parsed<seq<Field>>)
    ensures p.Ok? ==> |p.value.rest| <= |bs|
    decreases |bs|, 1
  {
    if n == 0 then Ok(Read(sofar, bs))
    else
      var k :- ParseVarBytes(bs);
      var v :- Parse(k.rest);
      ParseFields(v.rest, n - 1, Put(sofar, Field(k.value, v.value)))
  }

  /** What a value comes back as: an int as an int64, what is not known as nil. */
  function Norm(v: Any): Any
    decreases v
  {
    match v
    case GoInt(i) => Int(i)
    case Foreign => Nil
    case Arr(elems) => Arr(seq(|elems|, i requires 0 <= i < |elems| => Norm(elems[i])))
    case Obj(fields) => Obj(seq(|fields|, i requires 0 <= i < |fields| => Field(fields[i].key, Norm(fields[i].value))))
    case _ => v
  }

  lemma U64RoundTrip(i: int)
    requires -0x8000_0000_0000_0000 <= i < 0x8000_0000_0000_0000
    ensures FromU64(ToU64(i)) == i
  {
  }

  lemma {:induction false} PutNew(fields: seq<Field>, f: Field)
    requires forall i :: 0 <= i < |fields| ==> fields[i].key != f.key
    ensures Put(fields, f) == fields + [f]
  {
    if fields != [] { PutNew(fields[1..], f); }
  }

  /** The parser of a tag followed by the rest. */
  lemma ParseTag(tag: Byte, rest: Bytes)
    ensures ([tag] + rest)[0] == tag && ([tag] + rest)[1..] == rest
  {
  }

  /**
   * Any-value round trip: whatever bytes follow, reading what was written gives the value back, an
   * int as an int64 and an unknown kind as nil, and consumes exactly what was written.
   */
  lemma {:induction false} RoundTrip(v: Any, tail: Bytes)
    requires Holdable(v)
    ensures Parse(Print(v) + tail) == Ok(Read(Norm(v), tail))
    decreases v, Width(v) + 2
  {
    hide Parse, Print, ParseElems, ParseFields, PrintElems, PrintFields;
    if v.Arr? {
      ElemsRoundTrip(v, 0, tail);
      ArrFrom(v, tail);
    } else if v.Obj? {
      FieldsRoundTrip(v, 0, tail);
      ObjFrom(v, tail);
    } else {
      LeafRoundTrip(v, tail);
    }
  }

  lemma ArrFrom(v: Any, tail: Bytes)
    requires Holdable(v) && v.Arr?
    requires ParseElems(PrintElems(v, 0) + tail, |v.elems|, Norm(v).elems[..0]) == Ok(Read(Norm(v).elems, tail))
    ensures Parse(Print(v) + tail) == Ok(Read(Norm(v), tail))
  {
    hide ParseElems, PrintElems, ParseVarUint, VarUint;
    var bs := VarUint(|v.elems|) + (PrintElems(v, 0) + tail);
    assert Print(v) + tail == [117] + bs;
    ParseTag(117, bs);
    VarUintRoundTrip(|v.elems|, PrintElems(v, 0) + tail);
    assert Norm(v).elems[..0] == [];
  }

  lemma ObjFrom(v: Any, tail: Bytes)
    requires Holdable(v) && v.Obj?
    requires ParseFields(PrintFields(v, 0) + tail, |v.fields|, Norm(v).fields[..0]) == Ok(Read(Norm(v).fields, tail))
    ensures Parse(Print(v) + tail) == Ok(Read(Norm(v), tail))
  {
    hide ParseFields, PrintFields, ParseVarUint, VarUint;
    var bs := VarUint(|v.fields|) + (PrintFields(v, 0) + tail);
    assert Print(v) + tail == [118] + bs;
    ParseTag(118, bs);
    VarUintRoundTrip(|v.fields|, PrintFields(v, 0) + tail);
    assert Norm(v).fields[..0] == [];
  }

  lemma LeafRoundTrip(v: Any, tail: Bytes)
    requires Holdable(v) && !v.Arr? && !v.Obj?
    ensures Parse(Print(v) + tail) == Ok(Read(Norm(v), tail))
  {
    match v {
      case GoInt(i) => NumberRoundTrip(v, i, tail);
      case Int(i) => NumberRoundTrip(v, i, tail);
      case BigUint(n) => BigUintRoundTrip(n, tail);
      case Float32(bits) => FloatRoundTrip(v, tail);
      case Float64(bits) => FloatRoundTrip(v, tail);
      case Text(s) => BytesRoundTrip(v, s, tail);
      case Blob(data) => BytesRoundTrip(v, data, tail);
      case Nil => ParseTag(127, tail);
      case Bool(b) => ParseTag(if b then 120 else 121, tail);
      case Foreign => ParseTag(127, tail);
    }
  }

  lemma BigUintRoundTrip(n: nat, tail: Bytes)
    requires n < TWO64
    ensures Parse(Print(BigUint(n)) + tail) == Ok(Read(BigUint(n), tail))
  {
    hide ParseVarUint, VarUint;
    assert Print(BigUint(n)) + tail == [122] + (VarUint(n) + tail);
    ParseTag(122, VarUint(n) + tail);
    VarUintRoundTrip(n, tail);
  }

  lemma BytesRoundTrip(v: Any, b: Bytes, tail: Bytes)
    requires |b| < TWO64 && (v == Text(b) || v == Blob(b))
    ensures Parse(Print(v) + tail) == Ok(Read(v, tail))
  {
    hide ParseVarBytes, VarBytes;
    assert Print(v) + tail == [if v.Text? then 119 else 116] + (VarBytes(b) + tail);
    ParseTag(if v.Text? then 119 else 116, VarBytes(b) + tail);
    VarBytesRoundTrip(b, tail);
  }

  lemma NumberRoundTrip(v: Any, i: int, tail: Bytes)
    requires Holdable(v) && (v == Int(i) || v == GoInt(i))
    ensures Parse(Print(v) + tail) == Ok(Read(Int(i), tail))
  {
    hide ParseVarUint, VarUint;
    var bs := VarUint(ToU64(i)) + tail;
    assert Print(v) + tail == [125] + bs;
    ParseTag(125, bs);
    VarUintRoundTrip(ToU64(i), tail);
    U64RoundTrip(i);
  }

  lemma FloatRoundTrip(v: Any, tail: Bytes)
    requires Holdable(v) && (v.Float32? || v.Float64?)
    ensures Parse(Print(v) + tail) == Ok(Read(v, tail))
  {
    var bits := v.bits;
    assert Print(v) + tail == [if v.Float32? then 124 else 123] + (bits + tail);
    ParseTag(if v.Float32? then 124 else 123, bits + tail);
    assert (bits + tail)[..|bits|] == bits && (bits + tail)[|bits|..] == tail;
  }

  lemma ElemHoldable(v: Any, i: nat)
    requires Holdable(v) && v.Arr?
    ensures i < |v.elems| ==> Holdable(v.elems[i])
  {
  }

  lemma FieldHoldable(v: Any, i: nat)
    requires Holdable(v) && v.Obj? && i < |v.fields|
    ensures Holdable(v.fields[i].value) && |v.fields[i].key| < TWO64
    ensures forall j :: 0 <= j < i ==> v.fields[j].key != v.fields[i].key
  {
  }

  lemma {:induction false} ElemsRoundTrip(v: Any, i: nat, tail: Bytes)
    requires Holdable(v) && v.Arr? && i <= |v.elems|
    ensures ParseElems(PrintElems(v, i) + tail, |v.elems| - i, Norm(v).elems[..i]) == Ok(Read(Norm(v).elems, tail))
    decreases v, |v.elems| - i + 1
  {
    hide Parse, Print, Holdable;
    assert i < |v.elems| ==> Holdable(v.elems[i]) by { ElemHoldable(v, i); }
    if i < |v.elems| {
      var more := PrintElems(v, i + 1) + tail;
      assert PrintElems(v, i) + tail == Print(v.elems[i]) + more;
      RoundTrip(v.elems[i], more);
      ElemsRoundTrip(v, i + 1, tail);
      assert Norm(v).elems[..i + 1] == Norm(v).elems[..i] + [Norm(v.elems[i])];
    } else {
      assert Norm(v).elems[..i] == Norm(v).elems && PrintElems(v, i) + tail == tail;
    }
  }

  lemma {:induction false} FieldsRoundTrip(v: Any, i: nat, tail: Bytes)
    requires Holdable(v) && v.Obj? && i <= |v.fields|
    ensures ParseFields(PrintFields(v, i) + tail, |v.fields| - i, Norm(v).fields[..i]) == Ok(Read(Norm(v).fields, tail))
    decreases v, |v.fields| - i + 1
  {
    hide Parse, Print, Put, VarBytes, ParseVarBytes, Holdable;
    if i < |v.fields| {
      FieldHoldable(v, i);
      var f, more := v.fields[i], PrintFields(v, i + 1) + tail;
      assert PrintFields(v, i) + tail == VarBytes(f.key) + (Print(f.value) + more);
      VarBytesRoundTrip(f.key, Print(f.value) + more);
      RoundTrip(f.value, more);
      PutNew(Norm(v).fields[..i], Field(f.key, Norm(f.value)));
      FieldsRoundTrip(v, i + 1, tail);
      assert Norm(v).fields[..i + 1] == Norm(v).fields[..i] + [Field(f.key, Norm(f.value))];
    } else {
      assert Norm(v).fields[..i] == Norm(v).fields && PrintFields(v, i) + tail == tail;
    }
  }

  /** The value of one byte tag. */
  method ReadAny(r: Reader) returns (res: Result<Any>)
    modifies r
    ensures Reads(Parse(old(r.rest)), res, r.rest)
    decreases |r.rest|, 0
  {
    hide ParseVarUint, ParseVarBytes, ParseFixed, ParseElems, ParseFields;
    if r.rest == [] {
      return Err(Truncated);
    }
    var tag := r.rest[0];
    r.rest := r.rest[1..];
    match tag {
      case 127 => res := Ok(Nil);
      case 126 => res := Ok(Nil);
      case 125 => var n := ReadVarUint(r); res := if n.Ok? then Ok(Int(FromU64(n.value))) else Err(n.error);
      case 124 => var b := ReadFixed(r, 4); res := if b.Ok? then Ok(Float32(b.value)) else Err(b.error);
      case 123 => var b := ReadFixed(r, 8); res := if b.Ok? then Ok(Float64(b.value)) else Err(b.error);
      case 122 => var n := ReadVarUint(r); res := if n.Ok? then Ok(BigUint(n.value)) else Err(n.error);
      case 121 => res := Ok(Bool(false));
      case 120 => res := Ok(Bool(true));
      case 119 => var s := ReadVarBytes(r); res := if s.Ok? then Ok(Text(s.value)) else Err(s.error);
      case 118 => res := ReadObject(r);
      case 117 => res := ReadArray(r);
      case 116 => var b := ReadVarBytes(r); res := if b.Ok? then Ok(Blob(b.value)) else Err(b.error);
      case _ => res := Err(UnknownTag);
    }
  }

  /** A count and as many values. */
  function ParseArray(bs: Bytes): Parsed<Any> {
    var n :- ParseVarUint(bs);
    var es :- ParseElems(n.rest, n.value, []);
    Ok(Read(Arr(es.value), es.rest))
  }

  function ParseObject(bs: Bytes): Parsed<Any> {
    var n :- ParseVarUint(bs);
    var fs :- ParseFields(n.rest, n.value, []);
    Ok(Read(Obj(fs.value), fs.rest))
  }

  method ReadArray(r: Reader) returns (res: Result<Any>)
    modifies r
    ensures Reads(ParseArray(old(r.rest)), res, r.rest)
    decreases |r.rest|, 1
  {
    hide ParseVarUint, Parse;
    var n := ReadVarUint(r);
    if n.Err? { return Err(n.error); }
    ghost var start := r.rest;
    assert |start| < |old(r.rest)|;
    var arr, i := [], 0;
    while i < n.value
      invariant i <= n.value && |r.rest| <= |start|
      invariant ParseElems(start, n.value, []) == ParseElems(r.rest, n.value - i, arr)
    {
      var v := ReadAny(r);
      if v.Err? { return Err(v.error); }
      arr := arr + [v.value];
      i := i + 1;
    }
    res := Ok(Arr(arr));
  }

  method ReadObject(r: Reader) returns (res: Result<Any>)
    modifies r
    ensures Reads(ParseObject(old(r.rest)), res, r.rest)
    decreases |r.rest|, 1
  {
    hide ParseVarUint, ParseVarBytes, Parse;
    var n := ReadVarUint(r);
    if n.Err? { return Err(n.error); }
    ghost var start := r.rest;
    assert |start| < |old(r.rest)|;
    var obj, i := [], 0;
    while i < n.value
      invariant i <= n.value && |r.rest| <= |start|
      invariant ParseFields(start, n.value, []) == ParseFields(r.rest, n.value - i, obj)
    {
      var k := ReadVarBytes(r);
      if k.Err? { return Err(k.error); }
      var v := ReadAny(r);
      if v.Err? { return Err(v.error); }
      obj := Put(obj, Field(k.value, v.value));
      i := i + 1;
    }
    res := Ok(Obj(obj));
  }

  /** WriteAny */
  method WriteAny(w: Writer, v: Any)
    requires Holdable(v)
    modifies w
    ensures w.buf == old(w.buf) + Print(v)
    decreases v, 1
  {
    hide Holdable, VarUint, VarBytes, PrintElems, PrintFields;
    HoldableHere(v);
    match v {
      case Obj(fields) =>
        w.Write([118]);
        WriteVarUint(w, |fields|);
        WriteFields(w, v);
      case Arr(elems) =>
        w.Write([117]);
        WriteVarUint(w, |elems|);
        WriteElems(w, v);
      case Text(s) => WriteTagged(w, 119, s);
      case Blob(data) => WriteTagged(w, 116, data);
      case GoInt(i) => WriteNumber(w, 125, ToU64(i));
      case Int(i) => WriteNumber(w, 125, ToU64(i));
      case BigUint(n) => WriteNumber(w, 122, n);
      case _ => WriteFixed(w, v);
    }
  }

  method WriteTagged(w: Writer, tag: Byte, b: Bytes)
    requires |b| < TWO64
    modifies w
    ensures w.buf == old(w.buf) + ([tag] + VarBytes(b))
  {
    hide VarBytes;
    w.Write([tag]);
    WriteVarBytes(w, b);
  }

  method WriteNumber(w: Writer, tag: Byte, n: U64)
    modifies w
    ensures w.buf == old(w.buf) + ([tag] + VarUint(n))
  {
    hide VarUint;
    w.Write([tag]);
    WriteVarUint(w, n);
  }

  /** The kinds without a length: nil, a bool, a float, and what is not known. */
  method WriteFixed(w: Writer, v: Any)
    requires v.Nil? || v.Bool? || v.Float32? || v.Float64? || v.Foreign?
    requires Holdable(v)
    modifies w
    ensures w.buf == old(w.buf) + Print(v)
  {
    if v.Bool? {
      w.Write(if v.b then [120] else [121]);
    } else if v.Float32? || v.Float64? {
      w.Write([if v.Float32? then 124 else 123]);
      w.Write(v.bits);
    } else {
      w.Write([127]);
    }
  }

  lemma HoldableHere(v: Any)
    requires Holdable(v)
    ensures v.Int? || v.GoInt? ==> -0x8000_0000_0000_0000 <= v.i < 0x8000_0000_0000_0000
    ensures (v.BigUint? ==> v.n < TWO64) && (v.Text? ==> |v.s| < TWO64) && (v.Blob? ==> |v.data| < TWO64)
    ensures (v.Arr? ==> |v.elems| < TWO64) && (v.Obj? ==> |v.fields| < TWO64)
  {
  }

  method WriteElems(w: Writer, v: Any)
    requires Holdable(v) && v.Arr?
    modifies w
    ensures w.buf == old(w.buf) + PrintElems(v, 0)
    decreases v, 0
  {
    hide Holdable, Print;
    ghost var start := w.buf;
    for i := 0 to |v.elems|
      invariant w.buf + PrintElems(v, i) == start + PrintElems(v, 0)
    {
      ElemHoldable(v, i);
      WriteAny(w, v.elems[i]);
    }
  }

  method WriteFields(w: Writer, v: Any)
    requires Holdable(v) && v.Obj?
    modifies w
    ensures w.buf == old(w.buf) + PrintFields(v, 0)
    decreases v, 0
  {
    hide Holdable, Print, VarBytes;
    ghost var start := w.buf;
    for i := 0 to |v.fields|
      invariant w.buf + PrintFields(v, i) == start + PrintFields(v, 0)
    {
      FieldHoldable(v, i);
      WriteVarBytes(w, v.fields[i].key);
      WriteAny(w, v.fields[i].value);
    }
  }
}
