/** EncodeStateVectorV1 and DecodeStateVectorV1 of protocol/update.go. */
module StateVectors {
  import opened Wrappers
  import opened Values
  import opened Streams
  import opened Varints

  ghost predicate IsMax(s: set<nat>, m: nat) {
    m in s && forall x :: x in s ==> x <= m
  }

  lemma {:induction false} MaxExists(s: set<nat>)
    requires s != {}
    ensures exists m :: IsMax(s, m)
    decreases |s|
  {
    var c :| c in s;
    assert forall x :: x in s ==> x == c || x in s - {c};
    if s - {c} == {} {
      assert IsMax(s, c);
    } else {
      MaxExists(s - {c});
      var m :| IsMax(s - {c}, m);
      var top := if c > m then c else m;
      forall x | x in s ensures x <= top {
        assert x == c || x in s - {c};
      }
      assert IsMax(s, top);
    }
  }

  ghost function MaxOf(s: set<nat>): (m: nat)
    requires s != {}
    ensures IsMax(s, m)
  {
    MaxExists(s);
    var m :| IsMax(s, m);
    m
  }

  /** A set of client IDs in descending order, which is how sort.Slice leaves distinct keys. */
  ghost function SortDesc(s: set<nat>): seq<nat>
    decreases |s|
  {
    if s == {} then [] else [MaxOf(s)] + SortDesc(s - {MaxOf(s)})
  }

  predicate Descends(r: seq<nat>) {
    forall i, j :: 0 <= i < j < |r| ==> r[i] > r[j]
  }

  lemma ConsDescends(m: nat, rest: seq<nat>)
    requires Descends(rest) && forall c :: c in rest ==> c < m
    ensures Descends([m] + rest)
  {
    assert forall j :: 0 <= j < |rest| ==> rest[j] in rest;
  }

  lemma {:induction false} SortDescIs(s: set<nat>)
    ensures var r := SortDesc(s); |r| == |s| && Descends(r) && forall c :: c in r <==> c in s
    decreases |s|
  {
    if s != {} {
      var m := MaxOf(s);
      SortDescIs(s - {m});
      ConsDescends(m, SortDesc(s - {m}));
    }
  }

  /** The sort: the greatest of the remaining keys, again and again. */
  method SortDescending(keys: set<nat>) returns (sorted: seq<nat>)
    ensures sorted == SortDesc(keys)
  {
    sorted := [];
    var todo := keys;
    while todo != {}
      invariant sorted + SortDesc(todo) == SortDesc(keys)
      decreases |todo|
    {
      var m := Greatest(todo);
      assert m == MaxOf(todo);
      sorted := sorted + [m];
      todo := todo - {m};
    }
  }

  method Greatest(s: set<nat>) returns (m: nat)
    requires s != {}
    ensures m in s && forall x :: x in s ==> x <= m
  {
    m :| m in s;
    var todo := s - {m};
    while todo != {}
      invariant todo <= s && m in s && forall x :: x in s && x !in todo ==> x <= m
      decreases |todo|
    {
      var x :| x in todo;
      if x > m {
        m := x;
      }
      todo := todo - {x};
    }
  }

  type StateVector = map<nat, nat>

  predicate Fits(sv: StateVector) {
    |sv| < TWO64 && forall c :: c in sv ==> c < TWO64 && sv[c] < TWO64
  }

  function PrintPairs(sv: StateVector, clients: seq<nat>): Bytes
    requires forall c :: c in clients ==> c in sv
  {
    if clients == [] then []
    else VarUint(clients[0]) + VarUint(sv[clients[0]]) + PrintPairs(sv, clients[1..])
  }

  /** The count, and the clients in descending order with their clocks. */
  ghost function Print(sv: StateVector): Bytes {
    SortDescIs(sv.Keys);
    VarUint(|sv|) + PrintPairs(sv, SortDesc(sv.Keys))
  }

  function ParsePairs(bs: Bytes, n: nat, sofar: StateVector): Parsed<StateVector>
    decreases n
  {
    if n == 0 then Ok(Read(sofar, bs))
    else
      var client :- ParseVarUint(bs);
      var clock :- ParseVarUint(client.rest);
      ParsePairs(clock.rest, n - 1, sofar[client.value := clock.value])
  }

  /** What is after the pairs is not looked at. */
  function Parse(bs: Bytes): Result<StateVector> {
    var n :- ParseVarUint(bs);
    var sv :- ParsePairs(n.rest, n.value, map[]);
    Ok(sv.value)
  }

  /** A state vector without some of its clients. */
  function Without(sv: StateVector, clients: seq<nat>): StateVector {
    map c | c in sv && c !in clients :: sv[c]
  }

  lemma {:induction false} PairsRoundTrip(sv: StateVector, clients: seq<nat>, tail: Bytes)
    requires Fits(sv) && (forall c :: c in clients ==> c in sv) && forall i, j :: 0 <= i < j < |clients| ==> clients[i] != clients[j]
    ensures ParsePairs(PrintPairs(sv, clients) + tail, |clients|, Without(sv, clients)) == Ok(Read(sv, tail))
    decreases |clients|
  {
    hide ParseVarUint, VarUint, Fits;
    if clients == [] {
      assert Without(sv, clients) == sv && PrintPairs(sv, clients) + tail == tail;
    } else {
      var c, rest := clients[0], clients[1..];
      FitsAt(sv, c);
      var more := PrintPairs(sv, rest) + tail;
      assert PrintPairs(sv, clients) + tail == VarUint(c) + (VarUint(sv[c]) + more);
      VarUintRoundTrip(c, VarUint(sv[c]) + more);
      VarUintRoundTrip(sv[c], more);
      assert Without(sv, clients)[c := sv[c]] == Without(sv, rest);
      PairsRoundTrip(sv, rest, tail);
    }
  }

  lemma FitsAt(sv: StateVector, c: nat)
    requires Fits(sv) && c in sv
    ensures c < TWO64 && sv[c] < TWO64
  {
  }

  /** Decoding the encoding gives the same map. */
  lemma StateVectorRoundTrip(sv: StateVector)
    requires Fits(sv)
    ensures Parse(Print(sv)) == Ok(sv)
  {
    hide ParseVarUint, VarUint;
    var clients := SortDesc(sv.Keys);
    SortDescIs(sv.Keys);
    assert |sv| == |sv.Keys|;
    VarUintRoundTrip(|sv|, PrintPairs(sv, clients));
    PairsRoundTrip(sv, clients, []);
    assert PrintPairs(sv, clients) + [] == PrintPairs(sv, clients);
    assert Without(sv, clients) == map[];
  }

  /** The bytes are canonical: they are the same exactly if the state vectors are. */
  lemma Canonical(a: StateVector, b: StateVector)
    requires Fits(a) && Fits(b)
    ensures Print(a) == Print(b) <==> a == b
  {
    StateVectorRoundTrip(a);
    StateVectorRoundTrip(b);
  }

  /** EncodeStateVectorV1: the pairs come in the order of the map iteration and are sorted. */
  method Encode(sv: StateVector) returns (bs: Bytes)
    requires Fits(sv)
    ensures bs == Print(sv)
  {
    hide VarUint, SortDesc;
    var w := new Writer();
    WriteVarUint(w, |sv|);
    var clients := SortDescending(sv.Keys);
    SortDescIs(sv.Keys);
    WritePairs(w, sv, clients);
    bs := w.buf;
  }

  /** The loop over the sorted pairs. */
  method WritePairs(w: Writer, sv: StateVector, clients: seq<nat>)
    requires Fits(sv) && forall c :: c in clients ==> c in sv
    modifies w
    ensures w.buf == old(w.buf) + PrintPairs(sv, clients)
  {
    hide VarUint;
    ghost var start := w.buf;
    assert clients[0..] == clients;
    for i := 0 to |clients|
      invariant w.buf + PrintPairs(sv, clients[i..]) == start + PrintPairs(sv, clients)
    {
      assert clients[i] in clients && clients[i..][1..] == clients[i + 1..];
      WriteVarUint(w, clients[i]);
      WriteVarUint(w, sv[clients[i]]);
    }
    assert PrintPairs(sv, clients[|clients|..]) == [];
  }

  /** DecodeStateVectorV1 */
  method Decode(data: Bytes) returns (res: Result<StateVector>)
    ensures res == Parse(data)
  {
    hide ParseVarUint;
    var r := new Reader(data);
    var n := ReadVarUint(r);
    if n.Err? { return Err(n.error); }
    ghost var start := r.rest;
    var sv: StateVector, i := map[], 0;
    while i < n.value
      invariant i <= n.value
      invariant ParsePairs(start, n.value, map[]) == ParsePairs(r.rest, n.value - i, sv)
    {
      var client := ReadVarUint(r);
      if client.Err? { return Err(client.error); }
      var clock := ReadVarUint(r);
      if clock.Err? { return Err(clock.error); }
      sv := sv[client.value := clock.value];
      i := i + 1;
    }
    res := Ok(sv);
  }
}
