/**
 * Varints and any-values in literal bytes: what the printers write of every value, and what the parsers make
 * of every byte string, each told without the other one.
 */
module WireFormat {
  import opened Wrappers
  import opened Values
  import opened Streams
  import opened Varints
  import A = AnyValues

  function Flatten(pieces: seq<Bytes>): Bytes {
    if pieces == [] then [] else pieces[0] + Flatten(pieces[1..])
  }

  // Varints.

  lemma DivideTwice(v: nat, a: nat)
    requires a > 0
    ensures v / 128 / a == v / (128 * a)
  {
    var q, r := v / (128 * a), v % (128 * a);
    assert v == q * (128 * a) + r;
    assert q * (128 * a) == 128 * (q * a);
    assert v / 128 == q * a + r / 128;
    assert r / 128 < a;
    Quotient(v / 128, a, q, r / 128);
  }

  lemma Quotient(n: nat, a: nat, q: nat, r: nat)
    requires a > 0 && n == q * a + r && r < a
    ensures n / a == q
  {
    var d := n / a - q;
    assert n == (n / a) * a + n % a;
    assert (n / a) * a == q * a + d * a;
  }

  lemma {:induction false} GroupsPositive(k: nat)
    ensures Groups(k) >= 1
  {
    if k > 0 { GroupsPositive(k - 1); }
  }

  /** Byte i has bits 7i to 7i + 6 of the value, and its top bit says whether another byte follows. */
  lemma {:induction false} VarUintBytes(v: nat, i: nat)
    requires i < |VarUint(v)|
    ensures Groups(i) > 0 && VarUint(v)[i] == v / Groups(i) % 128 + if i + 1 < |VarUint(v)| then 128 else 0
    decreases v
  {
    if i > 0 {
      VarUintBytes(v / 128, i - 1);
      GroupsPositive(i - 1);
      DivideTwice(v, Groups(i - 1));
    }
  }

  /** The value of n bytes: seven bits of each, the lowest first. */
  function Sum(bs: Bytes, n: nat): nat
    requires n <= |bs|
  {
    if n == 0 then 0 else Sum(bs, n - 1) + bs[n - 1] % 128 * Groups(n - 1)
  }

  /** All of the first n bytes say that another one follows. */
  predicate GoesOn(bs: Bytes, n: nat)
    requires n <= |bs|
  {
    forall i :: 0 <= i < n ==> bs[i] >= 128
  }

  /** After k bytes that go on, what was read of them weighs less than the byte to come. */
  lemma {:induction false} ReadSoFar(bs: Bytes, k: nat)
    requires k <= 9 && k <= |bs| && GoesOn(bs, k)
    ensures Sum(bs, k) < Groups(k) && ParseFrom(bs, 0) == Lift(Sum(bs, k), Groups(k), ParseFrom(bs[k..], k))
    decreases k
  {
    hide ParseFrom, Groups, Cap;
    if k == 0 {
      ParseStarts(bs);
      assert bs[0..] == bs;
    } else {
      ReadSoFar(bs, k - 1);
      LiftMore(Sum(bs, k - 1), k - 1, bs[k - 1..]);
      NoOverflow(bs[k - 1] % 128, k - 1);
      assert bs[k - 1..][1..] == bs[k..] && bs[k - 1..][0] == bs[k - 1];
    }
  }

  /**
   * A varint on every byte string: it ends at the first byte below 128 and is the sum of its groups of seven
   * bits, of which the tenth loses all but its lowest bit; without such a byte among the first ten it is an error.
   */
  lemma ReadVarUintBytes(bs: Bytes, n: nat)
    requires n <= |bs| && GoesOn(bs, n)
    ensures n < 10 && n < |bs| && bs[n] < 128 ==> ParseVarUint(bs) == Ok(Read(Sum(bs, n + 1) % TWO64, bs[n + 1..]))
    ensures n < 10 && n == |bs| ==> ParseVarUint(bs) == Err(Truncated)
    ensures n == 10 ==> ParseVarUint(bs) == Err(VarintOverflow)
  {
    hide ParseFrom, Groups;
    if n < 10 {
      ReadSoFar(bs, n);
      if n < |bs| {
        if bs[n] < 128 { LastByte(bs, n); }
      } else {
        ParseEnds(bs[n..], n);
      }
    } else if n == 10 {
      ReadSoFar(bs, 9);
      ParseEnds(bs[9..], 9);
    }
  }

  lemma LastByte(bs: Bytes, n: nat)
    requires n < 10 && n < |bs| && GoesOn(bs, n) && bs[n] < 128
    requires Sum(bs, n) < Groups(n) && ParseFrom(bs, 0) == Lift(Sum(bs, n), Groups(n), ParseFrom(bs[n..], n))
    ensures ParseVarUint(bs) == Ok(Read(Sum(bs, n + 1) % TWO64, bs[n + 1..]))
  {
    hide ParseFrom, Groups, ShiftLeft;
    var rest := bs[n..];
    assert rest[0] == bs[n] && rest[1..] == bs[n + 1..];
    LiftLast(Sum(bs, n), n, rest);
    NoOverflow(bs[n] % 128, n);
    ShiftIsMod(Sum(bs, n), bs[n] % 128, Groups(n));
  }

  lemma ShiftIsMod(sum: nat, payload: nat, scale: nat)
    requires sum < scale && ShiftLeft(payload, scale) + scale <= TWO64
    ensures sum + ShiftLeft(payload, scale) == (sum + payload * scale) % TWO64
  {
    var v := payload * scale;
    assert v == v / TWO64 * TWO64 + v % TWO64;
  }

  // Any-values.

  /** The bytes of the elements of an array, each by itself. */
  function ElemBytes(elems: seq<Any>): (ps: seq<Bytes>)
    requires A.Holdable(Arr(elems))
    ensures |ps| == |elems| && forall i :: 0 <= i < |ps| ==> A.Holdable(elems[i]) && ps[i] == A.Print(elems[i])
  {
    seq(|elems|, i requires 0 <= i < |elems| => A.Print(elems[i]))
  }

  /** The bytes of the fields of an object: the length of the key, the key, the value. */
  function FieldBytes(fields: seq<Field>): (ps: seq<Bytes>)
    requires A.Holdable(Obj(fields))
    ensures |ps| == |fields|
    ensures forall i :: 0 <= i < |ps| ==>
              A.Holdable(fields[i].value) && ps[i] == VarUint(|fields[i].key|) + fields[i].key + A.Print(fields[i].value)
  {
    seq(|fields|, i requires 0 <= i < |fields| => VarUint(|fields[i].key|) + fields[i].key + A.Print(fields[i].value))
  }

  lemma {:induction false} ElemsFlat(elems: seq<Any>, i: nat)
    requires A.Holdable(Arr(elems)) && i <= |elems|
    ensures A.PrintElems(Arr(elems), i) == Flatten(ElemBytes(elems)[i..])
    decreases |elems| - i
  {
    hide A.Print, A.Holdable;
    if i < |elems| {
      ElemsFlat(elems, i + 1);
      assert ElemBytes(elems)[i..][1..] == ElemBytes(elems)[i + 1..];
    }
  }

  lemma {:induction false} FieldsFlat(fields: seq<Field>, i: nat)
    requires A.Holdable(Obj(fields)) && i <= |fields|
    ensures A.PrintFields(Obj(fields), i) == Flatten(FieldBytes(fields)[i..])
    decreases |fields| - i
  {
    hide A.Print, A.Holdable, VarUint;
    if i < |fields| {
      FieldsFlat(fields, i + 1);
      assert FieldBytes(fields)[i..][1..] == FieldBytes(fields)[i + 1..];
    }
  }

  /** What WriteAny writes of every kind of value: its tag and its payload. */
  lemma AnyWritten(v: Any)
    requires A.Holdable(v)
    ensures v.Nil? || v.Foreign? ==> A.Print(v) == [127]
    ensures v.Bool? ==> A.Print(v) == [if v.b then 120 else 121]
    ensures v.Int? || v.GoInt? ==> -0x8000_0000_0000_0000 <= v.i && A.Print(v) == [125] + VarUint(if v.i < 0 then v.i + 0x1_0000_0000_0000_0000 else v.i)
    ensures v.BigUint? ==> A.Print(v) == [122] + VarUint(v.n)
    ensures v.Float32? ==> |v.bits| == 4 && A.Print(v) == [124] + v.bits
    ensures v.Float64? ==> |v.bits| == 8 && A.Print(v) == [123] + v.bits
    ensures v.Text? ==> A.Print(v) == [119] + VarUint(|v.s|) + v.s
    ensures v.Blob? ==> A.Print(v) == [116] + VarUint(|v.data|) + v.data
    ensures v.Arr? ==> A.Print(v) == [117] + VarUint(|v.elems|) + Flatten(ElemBytes(v.elems))
    ensures v.Obj? ==> A.Print(v) == [118] + VarUint(|v.fields|) + Flatten(FieldBytes(v.fields))
  {
    hide A.Holdable, VarUint, A.PrintElems, A.PrintFields, Flatten;
    A.HoldableHere(v);
    match v {
      case Float32(bits) => FloatSize(v);
      case Float64(bits) => FloatSize(v);
      case Text(t) => assert [119] + VarBytes(t) == [119] + VarUint(|t|) + t;
      case Blob(t) => assert [116] + VarBytes(t) == [116] + VarUint(|t|) + t;
      case Arr(elems) =>
        ElemsFlat(elems, 0);
        assert ElemBytes(elems)[0..] == ElemBytes(elems);
      case Obj(fields) =>
        FieldsFlat(fields, 0);
        assert FieldBytes(fields)[0..] == FieldBytes(fields);
      case _ =>
    }
  }

  lemma FloatSize(v: Any)
    requires A.Holdable(v)
    ensures (v.Float32? ==> |v.bits| == 4) && (v.Float64? ==> |v.bits| == 8)
  {
  }

  /** These bytes are read as this value, whatever follows them. */
  ghost predicate ReadAs(bs: Bytes, v: Any) {
    forall tail: Bytes :: A.Parse(bs + tail) == Ok(Read(v, tail))
  }

  lemma ReadAsAt(bs: Bytes, v: Any, tail: Bytes)
    requires ReadAs(bs, v)
    ensures A.Parse(bs + tail) == Ok(Read(v, tail))
  {
  }

  /** What ReadAny makes of the tags without a payload, and of what is no tag. */
  lemma BareTagsRead(tag: Byte, tail: Bytes)
    ensures ReadAs([127], Nil) && ReadAs([126], Nil) && ReadAs([121], Bool(false)) && ReadAs([120], Bool(true))
    ensures tag < 116 || tag > 127 ==> A.Parse([tag] + tail) == Err(UnknownTag)
    ensures A.Parse([]) == Err(Truncated)
  {
    forall t: Bytes
      ensures A.Parse([127] + t) == Ok(Read(Nil, t)) && A.Parse([126] + t) == Ok(Read(Nil, t))
      ensures A.Parse([121] + t) == Ok(Read(Bool(false), t)) && A.Parse([120] + t) == Ok(Read(Bool(true), t))
    {
      A.ParseTag(127, t);
      A.ParseTag(126, t);
      A.ParseTag(121, t);
      A.ParseTag(120, t);
    }
    A.ParseTag(tag, tail);
  }

  /** Integers: an int64 from its 64-bit word, and a big integer. */
  lemma NumberTagsRead(n: nat)
    requires n < 0x1_0000_0000_0000_0000
    ensures ReadAs([125] + VarUint(n), Int(if n < 0x8000_0000_0000_0000 then n else n - 0x1_0000_0000_0000_0000))
    ensures ReadAs([122] + VarUint(n), BigUint(n))
  {
    hide VarUint, ParseVarUint;
    forall t: Bytes
      ensures A.Parse([125] + VarUint(n) + t) == Ok(Read(Int(if n < 0x8000_0000_0000_0000 then n else n - 0x1_0000_0000_0000_0000), t))
      ensures A.Parse([122] + VarUint(n) + t) == Ok(Read(BigUint(n), t))
    {
      VarUintRoundTrip(n, t);
      A.ParseTag(125, VarUint(n) + t);
      A.ParseTag(122, VarUint(n) + t);
      assert [125] + VarUint(n) + t == [125] + (VarUint(n) + t) && [122] + VarUint(n) + t == [122] + (VarUint(n) + t);
    }
  }

  /** Floats: four or eight bytes. */
  lemma FloatTagsRead(bits: Bytes)
    ensures |bits| == 4 ==> ReadAs([124] + bits, Float32(bits))
    ensures |bits| == 8 ==> ReadAs([123] + bits, Float64(bits))
  {
    forall t: Bytes
      ensures |bits| == 4 ==> A.Parse([124] + bits + t) == Ok(Read(Float32(bits), t))
      ensures |bits| == 8 ==> A.Parse([123] + bits + t) == Ok(Read(Float64(bits), t))
    {
      A.ParseTag(124, bits + t);
      A.ParseTag(123, bits + t);
      assert [124] + bits + t == [124] + (bits + t) && [123] + bits + t == [123] + (bits + t);
      assert (bits + t)[..|bits|] == bits && (bits + t)[|bits|..] == t;
    }
  }

  /** Strings and byte arrays: the length and the bytes. */
  lemma BytesTagsRead(b: Bytes)
    requires |b| < 0x1_0000_0000_0000_0000
    ensures ReadAs([119] + VarUint(|b|) + b, Text(b)) && ReadAs([116] + VarUint(|b|) + b, Blob(b))
  {
    hide VarUint, ParseVarUint, ParseVarBytes;
    forall t: Bytes
      ensures A.Parse([119] + VarUint(|b|) + b + t) == Ok(Read(Text(b), t)) && A.Parse([116] + VarUint(|b|) + b + t) == Ok(Read(Blob(b), t))
    {
      VarBytesRoundTrip(b, t);
      A.ParseTag(119, VarBytes(b) + t);
      A.ParseTag(116, VarBytes(b) + t);
      assert [119] + VarUint(|b|) + b + t == [119] + (VarBytes(b) + t) && [116] + VarUint(|b|) + b + t == [116] + (VarBytes(b) + t);
    }
  }

  lemma {:induction false} ElemsRead(ps: seq<Bytes>, vs: seq<Any>, sofar: seq<Any>, tail: Bytes)
    requires |ps| == |vs| && forall i :: 0 <= i < |ps| ==> ReadAs(ps[i], vs[i])
    ensures A.ParseElems(Flatten(ps) + tail, |ps|, sofar) == Ok(Read(sofar + vs, tail))
    decreases |ps|
  {
    hide A.Parse;
    if ps == [] {
      assert [] + tail == tail && sofar + vs == sofar;
    } else {
      var more := Flatten(ps[1..]) + tail;
      assert Flatten(ps) + tail == ps[0] + more;
      ReadAsAt(ps[0], vs[0], more);
      ElemsRead(ps[1..], vs[1..], sofar + [vs[0]], tail);
      assert sofar + [vs[0]] + vs[1..] == sofar + vs;
    }
  }

  /** Arrays: the number of elements, and each of them. */
  lemma ArrayRead(ps: seq<Bytes>, vs: seq<Any>)
    requires |ps| == |vs| < 0x1_0000_0000_0000_0000 && forall i :: 0 <= i < |ps| ==> ReadAs(ps[i], vs[i])
    ensures ReadAs([117] + VarUint(|vs|) + Flatten(ps), Arr(vs))
  {
    hide VarUint, Flatten, ReadAs, A.Parse;
    forall t: Bytes ensures A.Parse([117] + VarUint(|vs|) + Flatten(ps) + t) == Ok(Read(Arr(vs), t)) {
      ArrayReadAt(ps, vs, t);
    }
    IsReadAs([117] + VarUint(|vs|) + Flatten(ps), Arr(vs));
  }

  lemma ArrayReadAt(ps: seq<Bytes>, vs: seq<Any>, t: Bytes)
    requires |ps| == |vs| < 0x1_0000_0000_0000_0000 && forall i :: 0 <= i < |ps| ==> ReadAs(ps[i], vs[i])
    ensures A.Parse([117] + VarUint(|vs|) + Flatten(ps) + t) == Ok(Read(Arr(vs), t))
  {
    hide VarUint, ParseVarUint, A.ParseElems, Flatten, ReadAs;
    var body := Flatten(ps) + t;
    ElemsRead(ps, vs, [], t);
    VarUintRoundTrip(|vs|, body);
    A.ParseTag(117, VarUint(|vs|) + body);
    assert [117] + VarUint(|vs|) + Flatten(ps) + t == [117] + (VarUint(|vs|) + body) && [] + vs == vs;
  }

  lemma IsReadAs(bs: Bytes, v: Any)
    requires forall tail: Bytes :: A.Parse(bs + tail) == Ok(Read(v, tail))
    ensures ReadAs(bs, v)
  {
  }

  predicate DistinctKeys(fs: seq<Field>) {
    forall i, j :: 0 <= i < j < |fs| ==> fs[i].key != fs[j].key
  }

  /** A field, no later one of which has its key. */
  predicate LastOfKey(fs: seq<Field>, g: Field) {
    exists j :: 0 <= j < |fs| && fs[j] == g && forall m :: j < m < |fs| ==> fs[m].key != g.key
  }

  /** obj[k] = v for field after field. */
  function Assigned(sofar: seq<Field>, fs: seq<Field>): seq<Field>
    decreases |fs|
  {
    if fs == [] then sofar else Assigned(A.Put(sofar, fs[0]), fs[1..])
  }

  lemma {:induction false} PutMeans(fs: seq<Field>, f: Field)
    requires DistinctKeys(fs)
    ensures DistinctKeys(A.Put(fs, f)) && forall g :: g in A.Put(fs, f) <==> g == f || (g in fs && g.key != f.key)
  {
    if fs != [] {
      var first, rest := fs[0], fs[1..];
      assert fs == [first] + rest;
      PutMeans(rest, f);
      if first.key != f.key {
        forall i | 0 <= i < |A.Put(rest, f)| ensures A.Put(rest, f)[i].key != first.key {
          assert A.Put(rest, f)[i] in A.Put(rest, f);
        }
      }
    }
  }

  lemma LastOfRest(fs: seq<Field>, g: Field)
    requires fs != []
    ensures LastOfKey(fs, g) <==> LastOfKey(fs[1..], g) || (g == fs[0] && forall m :: 0 < m < |fs| ==> fs[m].key != g.key)
  {
    if LastOfKey(fs, g) {
      var j :| 0 <= j < |fs| && fs[j] == g && forall m :: j < m < |fs| ==> fs[m].key != g.key;
      if j > 0 { assert fs[1..][j - 1] == g; }
    }
    if LastOfKey(fs[1..], g) {
      var j :| 0 <= j < |fs[1..]| && fs[1..][j] == g && forall m :: j < m < |fs[1..]| ==> fs[1..][m].key != g.key;
      forall m | j + 1 < m < |fs| ensures fs[m].key != g.key { assert fs[1..][m - 1] == fs[m]; }
      assert fs[j + 1] == g;
    }
  }

  predicate NoKey(fs: seq<Field>, key: Bytes) {
    forall m :: 0 <= m < |fs| ==> fs[m].key != key
  }

  lemma {:induction false} AssignedMeans(sofar: seq<Field>, fs: seq<Field>)
    requires DistinctKeys(sofar)
    ensures DistinctKeys(Assigned(sofar, fs))
    ensures forall g :: g in Assigned(sofar, fs) <==> LastOfKey(fs, g) || (g in sofar && NoKey(fs, g.key))
    decreases |fs|
  {
    if fs != [] {
      PutMeans(sofar, fs[0]);
      AssignedMeans(A.Put(sofar, fs[0]), fs[1..]);
      forall g ensures g in Assigned(sofar, fs) <==> LastOfKey(fs, g) || (g in sofar && NoKey(fs, g.key)) {
        LastOfRest(fs, g);
        assert NoKey(fs, g.key) <==> fs[0].key != g.key && NoKey(fs[1..], g.key);
      }
    }
  }

  lemma {:induction false} AssignedNew(sofar: seq<Field>, fs: seq<Field>)
    requires DistinctKeys(sofar + fs)
    ensures Assigned(sofar, fs) == sofar + fs
    decreases |fs|
  {
    if fs == [] {
      assert sofar + fs == sofar;
    } else {
      forall i | 0 <= i < |sofar| ensures sofar[i].key != fs[0].key {
        assert (sofar + fs)[i] == sofar[i] && (sofar + fs)[|sofar|] == fs[0];
      }
      A.PutNew(sofar, fs[0]);
      assert sofar + [fs[0]] + fs[1..] == sofar + fs;
      AssignedNew(sofar + [fs[0]], fs[1..]);
    }
  }

  /** Fields on the wire: the length of the key, the key, and the bytes of the value. */
  function Keyed(fs: seq<Field>, ps: seq<Bytes>): Bytes
    requires |fs| == |ps|
  {
    if fs == [] then [] else VarUint(|fs[0].key|) + fs[0].key + ps[0] + Keyed(fs[1..], ps[1..])
  }

  lemma {:induction false} FieldsRead(fs: seq<Field>, ps: seq<Bytes>, sofar: seq<Field>, tail: Bytes)
    requires |fs| == |ps| && forall i :: 0 <= i < |fs| ==> |fs[i].key| < TWO64 && ReadAs(ps[i], fs[i].value)
    ensures A.ParseFields(Keyed(fs, ps) + tail, |fs|, sofar) == Ok(Read(Assigned(sofar, fs), tail))
    decreases |fs|
  {
    hide A.Parse, A.Put, VarUint, ParseVarBytes;
    if fs == [] {
      assert [] + tail == tail;
    } else {
      var f, more := fs[0], Keyed(fs[1..], ps[1..]) + tail;
      assert Keyed(fs, ps) + tail == VarBytes(f.key) + (ps[0] + more);
      VarBytesRoundTrip(f.key, ps[0] + more);
      ReadAsAt(ps[0], f.value, more);
      assert Field(f.key, f.value) == f;
      FieldsRead(fs[1..], ps[1..], A.Put(sofar, f), tail);
    }
  }

  /**
   * Objects: the number of fields, and each of them; a key that comes again replaces the value. With
   * distinct keys the fields are those that were read, in order.
   */
  lemma ObjectRead(fs: seq<Field>, ps: seq<Bytes>) returns (o: seq<Field>)
    requires |fs| == |ps| < 0x1_0000_0000_0000_0000
    requires forall i :: 0 <= i < |fs| ==> |fs[i].key| < 0x1_0000_0000_0000_0000 && ReadAs(ps[i], fs[i].value)
    ensures ReadAs([118] + VarUint(|fs|) + Keyed(fs, ps), Obj(o))
    ensures DistinctKeys(o) && (forall g :: g in o <==> LastOfKey(fs, g)) && (DistinctKeys(fs) ==> o == fs)
  {
    hide VarUint, ParseVarUint, A.ParseFields, Keyed, ReadAs, Assigned;
    o := Assigned([], fs);
    forall t: Bytes ensures A.Parse([118] + VarUint(|fs|) + Keyed(fs, ps) + t) == Ok(Read(Obj(o), t)) {
      var body := Keyed(fs, ps) + t;
      FieldsRead(fs, ps, [], t);
      VarUintRoundTrip(|fs|, body);
      A.ParseTag(118, VarUint(|fs|) + body);
      assert [118] + VarUint(|fs|) + Keyed(fs, ps) + t == [118] + (VarUint(|fs|) + body);
    }
    IsReadAs([118] + VarUint(|fs|) + Keyed(fs, ps), Obj(o));
    AssignedMeans([], fs);
    assert [] + fs == fs;
    if DistinctKeys(fs) { AssignedNew([], fs); }
  }
}
