/** The byte streams of the protocol package, and what it means to parse a value from the front of one. */
module Streams {
  import opened Wrappers
  import opened Values

  /** A parsed value and the bytes after it. */
  datatype Read<+T> = Read(value: T, rest: Bytes)

  type Parsed<+T> = Result<Read<T>>

  /** io.Reader: the bytes that are still to be read. */
  class Reader {
    var rest: Bytes

    constructor (data: Bytes)
      ensures rest == data
    {
      rest := data;
    }
  }

  /** io.Writer: the bytes written so far. */
  class Writer {
    var buf: Bytes

    constructor ()
      ensures buf == []
    {
      buf := [];
    }

    method Write(bytes: Bytes)
      modifies this
      ensures buf == old(buf) + bytes
    {
      buf := buf + bytes;
    }
  }

  /** A reading operation does on a stream what a parser does on bytes; where it fails the rest does not matter. */
  predicate Reads<T(==)>(parsed: Parsed<T>, got: Result<T>, rest: Bytes) {
    match parsed
    case Ok(r) => got == Ok(r.value) && rest == r.rest
    case Err(e) => got == Err(e)
  }

  /** io.ReadFull of n bytes. */
  function ParseFixed(bs: Bytes, n: nat): (p: Parsed<Bytes>)
    ensures p.Ok? ==> bs == p.value.value + p.value.rest && |p.value.value| == n
  {
    if |bs| < n then Err(Truncated) else Ok(Read(bs[..n], bs[n..]))
  }

  method ReadFixed(r: Reader, n: nat) returns (res: Result<Bytes>)
    modifies r
    ensures Reads(ParseFixed(old(r.rest), n), res, r.rest)
  {
    if |r.rest| < n {
      return Err(Truncated);
    }
    res := Ok(r.rest[..n]);
    r.rest := r.rest[n..];
  }
}
