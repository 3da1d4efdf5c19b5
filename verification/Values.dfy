/** The plain values a document holds: bytes, runes, names and any-values. */
module Values {

  type Byte = n: nat | n < 256

  type Bytes = seq<Byte>

  /** A Go string used as a name or a map key: its UTF-8 bytes. */
  type Name = Bytes

  predicate IsContinuation(b: Byte) {
    0x80 <= b < 0xC0
  }

  /** One code point of the basic multilingual plane, kept as its UTF-8 bytes. */
  predicate IsRune(r: Bytes) {
    && |r| >= 1
    && !IsContinuation(r[0])
    && r[0] < 0xF0
    && forall i :: 1 <= i < |r| ==> IsContinuation(r[i])
  }

  type Rune = r: Bytes | IsRune(r) witness [0x61]

  /**
   * A value of a Go `interface{}`. `Obj` lists a Go map in the order in which one iteration
   * visits it, so a statement about every listing is a statement about every iteration order.
   * `GoInt` is an `int`, `Int` an `int64`; `Foreign` is any Go type the codec does not know.
   */
  datatype Any =
    | Nil
    | Bool(b: bool)
    | Int(i: int)
    | GoInt(i: int)
    | BigUint(n: nat)
    | Float32(bits: Bytes)
    | Float64(bits: Bytes)
    | Text(s: Bytes)
    | Obj(fields: seq<Field>)
    | Arr(elems: seq<Any>)
    | Blob(data: Bytes)
    | Foreign

  datatype Field = Field(key: Bytes, value: Any)

  function Min(a: int, b: int): int {
    if a <= b then a else b
  }
}
