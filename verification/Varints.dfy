/** protocol/varint.go: unsigned LEB128 integers and length-prefixed bytes. */
module Varints {
  import opened Wrappers
  import opened Values
  import opened Streams

  const TWO64: nat := 0x1_0000_0000_0000_0000

  type U64 = v: nat | v < TWO64

  /** Seven bits per byte, the lowest first; all but the last byte have the top bit set. */
  function VarUint(v: nat): (bs: Bytes)
    ensures bs != []
  {
    if v < 128 then [v] else [v % 128 + 128] + VarUint(v / 128)
  }

  /** One more than the greatest value that fits when n bytes have been read or written already. */
  function Cap(n: nat): (c: nat)
    requires n <= 9
    ensures c >= 2 && (n < 9 ==> c >= 256)
    decreases 9 - n
  {
    if n == 9 then 2 else 128 * Cap(n + 1)
  }

  /**
   * Reading on after n bytes: the tenth byte gives one bit only, the others of it are shifted out
   * of the 64-bit word, and it must be the last one.
   */
  function ParseFrom(bs: Bytes, n: nat): (p: Parsed<nat>)
    requires n <= 9
    ensures p.Ok? ==> p.value.value < Cap(n) && |p.value.rest| < |bs| && |bs| - |p.value.rest| <= 10 - n
    decreases |bs|
  {
    if bs == [] then Err(Truncated)
    else
      var payload := if n == 9 then bs[0] % 2 else bs[0] % 128;
      if bs[0] < 128 then Ok(Read(payload, bs[1..]))
      else if n == 9 then Err(VarintOverflow)
      else
        var more :- ParseFrom(bs[1..], n + 1);
        Ok(Read(payload + 128 * more.value, more.rest))
  }

  function ParseVarUint(bs: Bytes): (p: Parsed<U64>)
    ensures p.Ok? ==> |p.value.rest| < |bs|
  {
    assert Cap(0) == TWO64;
    var r :- ParseFrom(bs, 0);
    Ok(Read(r.value, r.rest))
  }

  /** The first byte of an encoding, and what the others encode. */
  lemma FirstGroup(v: nat)
    ensures VarUint(v) == if v / 128 == 0 then [v % 128] else [v % 128 + 128] + VarUint(v / 128)
    ensures (v % 128 + 128) % 128 == v % 128 && v % 128 + 128 * (v / 128) == v
  {
  }

  lemma CapNext(v: nat, n: nat)
    requires n <= 9 && v < Cap(n)
    ensures v / 128 != 0 ==> n < 9 && v / 128 < Cap(n + 1)
    ensures v / 128 == 0 ==> v < 128 && (n == 9 ==> v % 2 == v)
  {
  }

  lemma {:induction false} ParseFromPrinted(v: nat, n: nat, tail: Bytes)
    requires n <= 9 && v < Cap(n)
    ensures ParseFrom(VarUint(v) + tail, n) == Ok(Read(v, tail))
    ensures |VarUint(v)| <= 10 - n
    decreases v
  {
    hide VarUint, Cap;
    FirstGroup(v);
    CapNext(v, n);
    var bs := VarUint(v) + tail;
    if v / 128 == 0 {
      assert bs[1..] == tail;
    } else {
      ParseFromPrinted(v / 128, n + 1, tail);
      assert bs[1..] == VarUint(v / 128) + tail;
    }
  }

  /** Every 64-bit value is read back, and the bytes after it are untouched. */
  lemma VarUintRoundTrip(v: U64, tail: Bytes)
    ensures ParseVarUint(VarUint(v) + tail) == Ok(Read(v, tail))
    ensures |VarUint(v)| <= 10
  {
    assert Cap(0) == TWO64;
    ParseFromPrinted(v, 0, tail);
  }

  /** No encoding is a prefix of another one. */
  lemma PrefixFree(a: U64, b: U64, s: Bytes, t: Bytes)
    requires VarUint(a) + s == VarUint(b) + t
    ensures a == b && s == t
  {
    VarUintRoundTrip(a, s);
    VarUintRoundTrip(b, t);
  }

  function Groups(k: nat): nat {
    if k == 0 then 1 else 128 * Groups(k - 1)
  }

  /** The encoding is minimal: k bytes exactly for the values that do not fit in fewer groups of seven bits. */
  lemma {:induction false} Minimal(v: nat, k: nat)
    requires k >= 1
    ensures |VarUint(v)| == k <==> (v < Groups(k) && (k > 1 ==> v >= Groups(k - 1)))
    decreases v
  {
    if v >= 128 {
      assert |VarUint(v)| == 1 + |VarUint(v / 128)|;
      if k > 1 {
        Minimal(v / 128, k - 1);
      } else {
        assert Groups(1) == 128 * Groups(0) == 128;
      }
    } else {
      GroupsGrow(k);
    }
  }

  lemma {:induction false} GroupsGrow(k: nat)
    ensures k >= 1 ==> Groups(k) >= 128 && (k > 1 ==> Groups(k - 1) >= 128)
  {
    if k > 1 { GroupsGrow(k - 1); }
  }

  /** WriteVarUint: the buffer of ten bytes is enough. */
  method WriteVarUint(w: Writer, value: U64)
    modifies w
    ensures w.buf == old(w.buf) + VarUint(value)
  {
    hide VarUint, Cap;
    var buf := new Byte[10];
    var v: nat, n := value, 0;
    assert Cap(0) == TWO64 by { CapStart(); }
    while true
      invariant n <= 9 && v < Cap(n)
      invariant buf[..n] + VarUint(v) == VarUint(value)
      invariant w.buf == old(w.buf)
      decreases v
    {
      FirstGroup(v);
      CapNext(v, n);
      var b: Byte := v % 128;
      v := v / 128;
      if v != 0 {
        b := b + 128;
      }
      buf[n] := b;
      n := n + 1;
      assert buf[..n] == buf[..n - 1] + [b];
      if v == 0 {
        break;
      }
    }
    w.Write(buf[..n]);
  }

  lemma CapStart()
    ensures Cap(0) == TWO64
  {
  }

  /** What reading on adds to a result of some bytes already, at the weight of the next byte. */
  function Lift(result: nat, scale: nat, p: Parsed<nat>): Parsed<nat> {
    match p
    case Ok(r) => Ok(Read(result + scale * r.value, r.rest))
    case Err(e) => Err(e)
  }

  /** A shift to the left by log2(scale) in a 64-bit word. */
  function ShiftLeft(payload: nat, scale: nat): nat {
    payload * scale % TWO64
  }

  /** A byte with the top bit set adds its seven bits, and the next byte weighs 128 times as much. */
  lemma LiftMore(result: nat, n: nat, bs: Bytes)
    requires n < 9 && bs != [] && bs[0] >= 128
    ensures Lift(result, Groups(n), ParseFrom(bs, n)) == Lift(result + ShiftLeft(bs[0] % 128, Groups(n)), Groups(n + 1), ParseFrom(bs[1..], n + 1))
  {
    hide Cap, Weight, ShiftLeft;
    NoOverflow(bs[0] % 128, n);
    var scale, payload := Groups(n), bs[0] % 128;
    match ParseFrom(bs[1..], n + 1) {
      case Ok(r) => Distribute(scale, payload, r.value);
      case Err(_) =>
    }
  }

  lemma Distribute(scale: nat, payload: nat, v: nat)
    ensures scale * (payload + 128 * v) == payload * scale + (128 * scale) * v
  {
    assert scale * (payload + 128 * v) == scale * payload + scale * (128 * v);
    assert scale * (128 * v) == (128 * scale) * v;
  }

  /** The weight of the byte after n bytes. */
  function Weight(n: nat): nat
    requires n <= 9
  {
    match n
    case 0 => 1
    case 1 => 0x80
    case 2 => 0x4000
    case 3 => 0x20_0000
    case 4 => 0x1000_0000
    case 5 => 0x8_0000_0000
    case 6 => 0x400_0000_0000
    case 7 => 0x2_0000_0000_0000
    case 8 => 0x100_0000_0000_0000
    case 9 => 0x8000_0000_0000_0000
  }

  lemma {:induction false} GroupsIsWeight(n: nat)
    requires n <= 9
    ensures Groups(n) == Weight(n)
  {
    if n > 0 { GroupsIsWeight(n - 1); }
  }

  /** Only the tenth byte loses bits when it is shifted. */
  lemma NoOverflow(payload: nat, n: nat)
    requires n <= 9 && payload < 128
    ensures ShiftLeft(payload, Groups(n)) == (if n == 9 then payload % 2 else payload) * Groups(n)
    ensures ShiftLeft(payload, Groups(n)) + Groups(n) <= TWO64
    ensures n < 9 ==> ShiftLeft(payload, Groups(n)) + Groups(n) <= Groups(n + 1)
  {
    GroupsIsWeight(n);
    if n == 9 {
      TopBit(payload);
    } else {
      Below(payload, n);
      Bounded(payload, Groups(n));
    }
  }

  lemma TopBit(payload: nat)
    requires payload < 128
    ensures ShiftLeft(payload, Weight(9)) == payload % 2 * Weight(9)
  {
    assert payload == 2 * (payload / 2) + payload % 2;
  }

  lemma Bounded(payload: nat, scale: nat)
    requires payload < 128
    ensures payload * scale + scale <= 128 * scale
  {
  }

  lemma Below(payload: nat, n: nat)
    requires n <= 8 && payload < 128
    ensures payload * Weight(n) + Weight(n) <= 0x8000_0000_0000_0000
  {
  }

  /** The last byte. */
  lemma LiftLast(result: nat, n: nat, bs: Bytes)
    requires n <= 9 && bs != [] && bs[0] < 128
    ensures Lift(result, Groups(n), ParseFrom(bs, n)) == Ok(Read(result + ShiftLeft(bs[0] % 128, Groups(n)), bs[1..]))
  {
    hide Groups, Cap, ShiftLeft;
    NoOverflow(bs[0] % 128, n);
    var payload := if n == 9 then bs[0] % 2 else bs[0] % 128;
    assert ParseFrom(bs, n) == Ok(Read(payload, bs[1..]));
    assert (bs[0] % 128) % 2 == bs[0] % 2;
    Commutes(Groups(n), payload);
  }

  lemma Commutes(a: nat, b: nat)
    ensures a * b == b * a
  {
  }

  /** ReadVarUint: `scale` is 1 << shift, and a shift to the left drops what leaves the 64-bit word. */
  method ReadVarUint(r: Reader) returns (res: Result<U64>)
    modifies r
    ensures Reads(ParseVarUint(old(r.rest)), res, r.rest)
  {
    hide Groups, ParseFrom, Cap, ShiftLeft;
    var result: nat, scale: nat, n := 0, 1, 0;
    ghost var start := r.rest;
    ParseStarts(start);
    while true
      invariant n <= 9 && scale == Groups(n) && result < scale
      invariant ParseFrom(start, 0) == Lift(result, scale, ParseFrom(r.rest, n))
      decreases |r.rest|
    {
      ParseEnds(r.rest, n);
      if r.rest == [] {
        return Err(Truncated);
      }
      ghost var bs := r.rest;
      var b := r.rest[0];
      r.rest := r.rest[1..];
      NoOverflow(b % 128, n);
      if b < 128 { LiftLast(result, n, bs); } else if n < 9 { LiftMore(result, n, bs); }
      result := result + ShiftLeft(b % 128, scale);
      if b < 128 {
        return Ok(result);
      }
      GroupsNext(n + 1);
      scale := scale * 128;
      n := n + 1;
      if n > 9 {
        return Err(VarintOverflow);
      }
    }
  }

  lemma ParseStarts(bs: Bytes)
    ensures Groups(0) == 1 && ParseFrom(bs, 0) == Lift(0, 1, ParseFrom(bs, 0)) && Cap(0) == TWO64
  {
  }

  lemma ParseEnds(bs: Bytes, n: nat)
    requires n <= 9
    ensures bs == [] ==> ParseFrom(bs, n) == Err(Truncated)
    ensures n == 9 && bs != [] && bs[0] >= 128 ==> ParseFrom(bs, n) == Err(VarintOverflow)
  {
  }

  lemma GroupsNext(n: nat)
    requires n > 0
    ensures Groups(n) == 128 * Groups(n - 1)
  {
  }

  // Length-prefixed bytes.

  function VarBytes(b: Bytes): Bytes {
    VarUint(|b|) + b
  }

  function ParseVarBytes(bs: Bytes): (p: Parsed<Bytes>)
    ensures p.Ok? ==> |p.value.rest| < |bs|
  {
    var n :- ParseVarUint(bs);
    ParseFixed(n.rest, n.value)
  }

  lemma VarBytesRoundTrip(b: Bytes, tail: Bytes)
    requires |b| < TWO64
    ensures ParseVarBytes(VarBytes(b) + tail) == Ok(Read(b, tail))
  {
    assert VarBytes(b) + tail == VarUint(|b|) + (b + tail);
    VarUintRoundTrip(|b|, b + tail);
  }

  /** WriteVarBytes */
  method WriteVarBytes(w: Writer, b: Bytes)
    requires |b| < TWO64
    modifies w
    ensures w.buf == old(w.buf) + VarBytes(b)
  {
    WriteVarUint(w, |b|);
    if b == [] {
      return;
    }
    w.Write(b);
  }

  /** ReadVarBytes */
  method ReadVarBytes(r: Reader) returns (res: Result<Bytes>)
    modifies r
    ensures Reads(ParseVarBytes(old(r.rest)), res, r.rest)
  {
    hide ParseVarUint;
    var n := ReadVarUint(r);
    if n.Err? { return Err(n.error); }
    if n.value == 0 { return Ok([]); }
    res := ReadFixed(r, n.value);
  }
}
