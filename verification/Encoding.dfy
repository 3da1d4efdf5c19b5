/**
 * encoding.go: items as the structs of an update and back, and the bytes of whole transactions.
 */
module Encoding {
  import opened Wrappers
  import opened Values
  import opened Ids
  import opened Cells
  import opened Integration
  import opened Varints
  import opened StateVectors
  import E = EncodedItems
  import opened Updates
  import opened Authoring
  import opened LocalEdits
  import opened Replicas
  import opened Replication
  import AnyValues

  /** The bytes of a string of runes. */
  function Flat(text: seq<Rune>): Bytes {
    if text == [] then [] else text[0] + Flat(text[1..])
  }

  /** How many continuation bytes a string starts with. */
  function Continuations(bs: Bytes): (n: nat)
    ensures n <= |bs|
  {
    if bs == [] || !IsContinuation(bs[0]) then 0 else 1 + Continuations(bs[1..])
  }

  /** []rune(s), each rune as its bytes. */
  function RunesOf(bs: Bytes): seq<Bytes>
    decreases |bs|
  {
    if bs == [] then []
    else
      var n := 1 + Continuations(bs[1..]);
      [bs[..n]] + RunesOf(bs[n..])
  }

  /** A string of runes of the basic multilingual plane. */
  predicate IsBmp(bs: Bytes) {
    forall r :: r in RunesOf(bs) ==> IsRune(r)
  }

  lemma {:induction false} ContinuationsOf(cs: Bytes, rest: Bytes)
    requires (forall i :: 0 <= i < |cs| ==> IsContinuation(cs[i])) && (rest == [] || !IsContinuation(rest[0]))
    ensures Continuations(cs + rest) == |cs|
  {
    if cs == [] {
      assert cs + rest == rest;
    } else {
      ContinuationsOf(cs[1..], rest);
      assert (cs + rest)[1..] == cs[1..] + rest;
    }
  }

  lemma {:induction false} Utf16Continuations(cs: Bytes, rest: Bytes)
    requires forall i :: 0 <= i < |cs| ==> IsContinuation(cs[i])
    ensures E.Utf16Len(cs + rest) == E.Utf16Len(rest)
  {
    if cs == [] {
      assert cs + rest == rest;
    } else {
      Utf16Continuations(cs[1..], rest);
      assert (cs + rest)[1..] == cs[1..] + rest;
    }
  }

  /** A rune is the first one of its bytes and what follows. */
  lemma OneRune(r: Rune, rest: Bytes)
    requires rest == [] || !IsContinuation(rest[0])
    ensures RunesOf(r + rest) == [r] + RunesOf(rest)
  {
    hide Continuations;
    var bs := r + rest;
    assert bs[1..] == r[1..] + rest && bs[..|r|] == r && bs[|r|..] == rest;
    ContinuationsOf(r[1..], rest);
  }

  /** And it counts once, being of the basic multilingual plane. */
  lemma OneUnit(r: Rune, rest: Bytes)
    ensures E.Utf16Len(r + rest) == 1 + E.Utf16Len(rest)
  {
    hide E.Utf16Len;
    var bs := r + rest;
    assert bs[1..] == r[1..] + rest && bs[0] == r[0];
    FirstByte(bs);
    Utf16Continuations(r[1..], rest);
  }

  lemma FirstByte(bs: Bytes)
    requires bs != [] && !IsContinuation(bs[0]) && bs[0] < 0xF0
    ensures E.Utf16Len(bs) == 1 + E.Utf16Len(bs[1..])
  {
  }

  /** The runes of a text are found again in its bytes, and their number is its UTF-16 length. */
  lemma {:induction false} RunesRoundTrip(text: seq<Rune>)
    ensures RunesOf(Flat(text)) == text && IsBmp(Flat(text)) && E.Utf16Len(Flat(text)) == |text|
  {
    hide RunesOf, E.Utf16Len, IsRune;
    if text == [] {
      NoRunes();
    } else {
      RunesRoundTrip(text[1..]);
      FlatStarts(text[1..]);
      OneRune(text[0], Flat(text[1..]));
      OneUnit(text[0], Flat(text[1..]));
      assert text == [text[0]] + text[1..];
    }
  }

  lemma NoRunes()
    ensures RunesOf([]) == [] && E.Utf16Len([]) == 0
  {
  }

  lemma FlatStarts(text: seq<Rune>)
    ensures Flat(text) == [] || !IsContinuation(Flat(text)[0])
  {
  }

  function RefOf(c: Content): Byte {
    match c
    case Str(_) => 4
    case Val(_) => 8
    case Gone => 1
    case Other(ref) => ref
  }

  function DataOf(c: Content): E.Data {
    match c
    case Str(text) => E.Str(Flat(text))
    case Val(v) => E.One(v)
    case Gone => E.NoData
    case Other(_) => E.NoData
  }

  /** itemToEncoded; the parent is written only without origins, and only if it is known. */
  function ToEncoded(c: Cell): E.EncodedItem
    requires RefOf(c.content) < 32
  {
    var ref := RefOf(c.content);
    E.EncodedItem(c.id.client, c.id.clock, c.len, false, false, E.InfoOf(ref, c.left.Some?, c.right.Some?, c.sub.Some?),
                  c.left, c.right, if c.left.None? && c.right.None? && c.home.Some? then E.ByKey(c.home.value) else E.NoParent,
                  c.sub, ref, DataOf(c.content))
  }

  /** A struct that encodedToItem makes an item of; strings are of the basic multilingual plane. */
  predicate IsItem(e: E.EncodedItem) {
    && !e.isGC && !e.isSkip
    && (e.ref == 4 ==> e.data.Str? && IsBmp(e.data.s)) && (e.ref == 8 ==> e.data.One?) && (e.ref == 1 ==> e.data == E.Number(e.length))
  }

  function ContentOf(e: E.EncodedItem): Content
    requires IsItem(e)
  {
    if e.ref == 4 then Str(RunesOf(e.data.s))
    else if e.ref == 8 then Val(e.data.v)
    else if e.ref == 1 then Gone
    else Other(e.ref)
  }

  /** encodedToItem; integrateItem takes an empty parent name for none. */
  function FromEncoded(e: E.EncodedItem): Cell
    requires IsItem(e)
  {
    Cell(Id(e.client, e.clock), e.length, e.left, e.right, if e.parent.ByKey? && e.parent.name != [] then Some(e.parent.name) else None,
         e.sub, ContentOf(e))
  }

  /** The runes of a string are its bytes, cut into runes. */
  lemma {:induction false} RunesKeepBytes(bs: Bytes)
    requires IsBmp(bs)
    ensures Flat(RunesOf(bs)) == bs
    decreases |bs|
  {
    hide IsRune;
    if bs != [] {
      var n := 1 + Continuations(bs[1..]);
      var rest := bs[n..];
      assert RunesOf(bs) == [bs[..n]] + RunesOf(rest);
      assert forall r :: r in RunesOf(rest) ==> r in RunesOf(bs);
      RunesKeepBytes(rest);
      assert RunesOf(bs)[0] == bs[..n] && RunesOf(bs)[1..] == RunesOf(rest) && bs[..n] + rest == bs;
    }
  }

  /**
   * What a struct is as an item, field by field. Ref 1 is deleted content, ref 4 the runes of a string, ref 8
   * an any-value; of every other ref only the ref is kept.
   */
  lemma StructAsItem(e: E.EncodedItem)
    requires IsItem(e)
    ensures var c := FromEncoded(e);
            && c.id.client == e.client && c.id.clock == e.clock && c.len == e.length && c.left == e.left && c.right == e.right && c.sub == e.sub
            && (if e.parent.ByKey? && e.parent.name != [] then c.home.Some? && c.home.value == e.parent.name else c.home.None?)
            && (c.content.Gone? <==> e.ref == 1)
            && (c.content.Str? <==> e.ref == 4) && (e.ref == 4 ==> Flat(c.content.text) == e.data.s)
            && (c.content.Val? <==> e.ref == 8) && (e.ref == 8 ==> c.content.value == e.data.v)
            && (c.content.Other? ==> c.content.ref == e.ref)
  {
    hide RunesOf, Flat, IsRune;
    if e.ref == 4 { RunesKeepBytes(e.data.s); }
  }

  /** A value that comes back as it is, as one value. */
  predicate Transparent(v: Any) {
    AnyValues.Holdable(v) && AnyValues.Norm(v) == v && !v.Arr?
  }

  /** An item of the library that the format carries without loss. */
  predicate Sendable(c: Cell) {
    && Sized(c) && E.IdFits(c.id) && c.len < TWO64
    && (c.left.Some? ==> E.IdFits(c.left.value)) && (c.right.Some? ==> E.IdFits(c.right.value))
    && c.home.Some? && |c.home.value| < TWO64 && (c.sub.Some? ==> |c.sub.value| < TWO64)
    && (if c.content.Str? then |Flat(c.content.text)| < TWO64 else c.content.Val? && c.len == 1 && Transparent(c.content.value))
  }

  /** Item round trip: a sendable item fits the format, and its struct gives back what is sent of it. */
  lemma CellRoundTrip(c: Cell)
    requires Sendable(c)
    ensures var e := ToEncoded(c);
            && E.WellFormed(e) && Normal(e) && IsItem(e) && FromEncoded(e) == Wire(c)
  {
    hide AnyValues.Holdable, AnyValues.Norm, Flat, RunesOf, E.Utf16Len;
    if c.content.Str? { RunesRoundTrip(c.content.text); }
    E.InfoBits(RefOf(c.content), c.left.Some?, c.right.Some?, c.sub.Some?);
  }

  predicate AllSendable(items: seq<Cell>) {
    forall i :: 0 <= i < |items| ==> Sendable(items[i])
  }

  /** The structs of the items of an update. */
  function Structs(items: seq<Cell>): (es: seq<E.EncodedItem>)
    requires AllSendable(items)
    ensures |es| == |items| && forall i :: 0 <= i < |es| ==> es[i] == ToEncoded(items[i])
  {
    seq(|items|, i requires 0 <= i < |items| => ToEncoded(items[i]))
  }

  predicate AllItems(es: seq<E.EncodedItem>) {
    forall i :: 0 <= i < |es| ==> IsItem(es[i])
  }

  function CellsFrom(es: seq<E.EncodedItem>): (cells: seq<Cell>)
    requires AllItems(es)
    ensures |cells| == |es| && forall i :: 0 <= i < |es| ==> cells[i] == FromEncoded(es[i])
  {
    seq(|es|, i requires 0 <= i < |es| => FromEncoded(es[i]))
  }

  /** The items of one client, each right after the one before. */
  predicate InRow(items: seq<Cell>, me: nat) {
    && (forall i :: 0 <= i < |items| ==> items[i].id.client == me)
    && (forall i :: 0 < i < |items| ==> items[i].id.clock == End(items[i - 1]))
  }

  lemma StructsFit(items: seq<Cell>)
    requires AllSendable(items)
    ensures AllWellFormed(Structs(items)) && AllFit(Structs(items)) && AllItems(Structs(items))
    ensures forall e :: e in Structs(items) ==> Normal(e) && e.client < TWO64 && e.clock < TWO64
    ensures CellsFrom(Structs(items)) == Wires(items)
  {
    hide E.WellFormed, E.Fits, Normal, IsItem, FromEncoded, Wire;
    forall i | 0 <= i < |items|
      ensures E.WellFormed(Structs(items)[i]) && IsItem(Structs(items)[i]) && Normal(Structs(items)[i])
      ensures FromEncoded(Structs(items)[i]) == Wire(items[i])
    {
      CellRoundTrip(items[i]);
    }
    AllWellFormedFit(Structs(items));
  }

  lemma {:induction false} OneClient(es: seq<E.EncodedItem>, me: nat)
    requires forall i :: 0 <= i < |es| ==> es[i].client == me
    ensures GroupOf(es, me) == es
  {
    hide AllFit;
    if es != [] {
      OneClient(es[1..], me);
      assert es == [es[0]] + es[1..];
    }
  }

  lemma TheClient(es: seq<E.EncodedItem>, me: nat)
    requires forall i :: 0 <= i < |es| ==> es[i].client == me
    ensures ClientsOf(es) == if es == [] then {} else {me}
  {
    if es != [] { assert es[0] in es; }
  }

  lemma {:induction false} RowRuns(items: seq<Cell>, me: nat)
    requires AllSendable(items) && InRow(items, me)
    ensures Contiguous(Structs(items), FirstClock(Structs(items)))
  {
    hide Sendable;
    if |items| > 1 {
      RowRuns(items[1..], me);
      assert Structs(items)[1..] == Structs(items[1..]);
      assert items[1].id.clock == End(items[0]);
    }
  }

  lemma SortOne(me: nat)
    ensures SortDesc({}) == [] && SortDesc({me}) == [me]
  {
    SortDescIs({me});
    assert SortDesc({me})[0] in SortDesc({me});
  }

  /** The delete set of an update fits the format, and has no client with an empty list. */
  predicate DsSendable(ds: DeleteSet) {
    DsFits(ds) && forall c :: c in ds ==> ds[c] != []
  }

  /**
   * Update round trip, in bytes: what encodeUpdateV1 makes of items of one client in a row and a
   * delete set is decoded to the items as they are sent and to the same delete set.
   */
  lemma BytesRoundTrip(items: seq<Cell>, me: nat, ds: DeleteSet)
    requires AllSendable(items) && InRow(items, me) && |items| < TWO64 && DsSendable(ds)
    ensures AllFit(Structs(items)) && Updates.Print(UpdateV1(Structs(items), ds)).Ok?
    ensures var bs := Updates.Print(UpdateV1(Structs(items), ds)).value;
            Updates.Parse(bs) == Ok(UpdateV1(Structs(items), ds))
            && AllItems(Structs(items)) && CellsFrom(Structs(items)) == Wires(items)
  {
    hide Sendable, E.WellFormed, E.Fits, Normal, IsItem, Updates.Print, Updates.Parse, DsFits;
    var es := Structs(items);
    StructsFit(items);
    OneClient(es, me);
    TheClient(es, me);
    RowRuns(items, me);
    SortOne(me);
    assert forall c :: c in ClientsOf(es) ==> Updates.Runs(es, c);
    UpdateKept(UpdateV1(es, ds));
    RegroupOne(es, me);
  }

  lemma RegroupOne(es: seq<E.EncodedItem>, me: nat)
    requires GroupOf(es, me) == es
    ensures Regroup(es, []) == [] && Regroup(es, [me]) == es
  {
    assert es + [] == es;
    assert Regroup(es, [me]) == GroupOf(es, me) + Regroup(es, []);
  }

  // The update of a transaction.

  /** The items of a transaction follow each other, up to the state of the author. */
  predicate TxInRow(tx: Tx, me: nat) {
    InRow(tx.items, me) && (tx.items != [] ==> EndOf(tx.items) == StateOf(tx.state.store, me))
  }

  lemma RowMore(items: seq<Cell>, me: nat, c: Cell)
    requires InRow(items, me) && c.id.client == me && (items != [] ==> c.id.clock == EndOf(items))
    ensures InRow(items + [c], me) && EndOf(items + [c]) == End(c)
  {
  }

  lemma {:induction false} PutAllInRow(tx: Tx, me: nat, name: Name, p: nat, values: seq<Any>)
    requires TxInRow(tx, me) && p <= |ChainOf(tx.state.chains, ArrayKey(name))|
    ensures TxInRow(PutAll(tx, me, name, p, values), me)
    decreases |values|
  {
    hide InRow, Origin;
    if values != [] {
      var c := Element(tx.state, me, name, p, values[0]);
      RowMore(tx.items, me, c);
      StateAfterAppend(tx.state.store, c, me);
      PutAllInRow(PutElement(tx, me, name, p, values[0]), me, name, p + 1, values[1..]);
    }
  }

  lemma DoInRow(tx: Tx, me: nat, op: Op)
    requires TxInRow(tx, me)
    ensures TxInRow(Do(tx, me, op), me)
  {
    hide InRow, Doomed, PutAll, Slot;
    match op {
      case Push(name, values) => PutAllInRow(tx, me, name, |ChainOf(tx.state.chains, ArrayKey(name))|, values);
      case Insert(name, index, values) =>
        PutAllInRow(tx, me, name, Slot(ChainOf(tx.state.chains, ArrayKey(name)), tx.state.dead, index), values);
      case Delete(_, _, _) =>
      case Set(name, key, v) =>
        RowMore(tx.items, me, Entry(tx.state, me, name, key, v));
        StateAfterAppend(tx.state.store, Entry(tx.state, me, name, key, v), me);
      case Remove(_, _) =>
    }
  }

  lemma {:induction false} DoAllInRow(tx: Tx, me: nat, ops: seq<Op>)
    requires TxInRow(tx, me)
    ensures TxInRow(DoAll(tx, me, ops), me)
    decreases |ops|
  {
    hide TxInRow, Do;
    if ops != [] {
      DoInRow(tx, me, ops[0]);
      DoAllInRow(Do(tx, me, ops[0]), me, ops[1..]);
    }
  }

  predicate ListsFit(ds: DeleteSet, n: nat) {
    forall c :: c in ds ==> c < TWO64 && 0 < |ds[c]| <= n && forall r :: r in ds[c] ==> r.clock < TWO64 && r.len < TWO64
  }

  lemma {:induction false} KillSetFits(kills: seq<Id>)
    requires forall id :: id in kills ==> E.IdFits(id)
    ensures ListsFit(KillSet(kills), |kills|) && |KillSet(kills)| <= |kills|
  {
    if kills != [] {
      var front, id := kills[..|kills| - 1], kills[|kills| - 1];
      KillSetFits(front);
      assert id in kills;
      OneMoreFits(KillSet(front), |front|, id);
    }
  }

  lemma OneMoreFits(ds: DeleteSet, n: nat, id: Id)
    requires ListsFit(ds, n) && |ds| <= n && E.IdFits(id)
    ensures var more := ds[id.client := RangesOf(ds, id.client) + [Range(id.clock, 1)]]; ListsFit(more, n + 1) && |more| <= n + 1
  {
    var list := RangesOf(ds, id.client) + [Range(id.clock, 1)];
    var more := ds[id.client := list];
    KeysMore(ds, id.client, list);
    assert |list| <= n + 1 && forall r :: r in list ==> r.clock < TWO64 && r.len < TWO64;
    forall c | c in more ensures c < TWO64 && 0 < |more[c]| <= n + 1 && forall r :: r in more[c] ==> r.clock < TWO64 && r.len < TWO64 {
      assert c != id.client ==> more[c] == ds[c];
    }
  }

  lemma KeysMore(ds: DeleteSet, c: nat, list: seq<Range>)
    ensures |ds[c := list]| <= |ds| + 1
  {
    assert ds[c := list].Keys == ds.Keys + {c} && |ds[c := list]| == |ds[c := list].Keys| && |ds| == |ds.Keys|;
  }

  lemma KillSetSendable(kills: seq<Id>)
    requires |kills| < TWO64 && forall id :: id in kills ==> E.IdFits(id)
    ensures DsSendable(KillSet(kills))
  {
    KillSetFits(kills);
    hide KillSet;
    ListsSendable(KillSet(kills), |kills|);
  }

  lemma ListsSendable(ds: DeleteSet, n: nat)
    requires ListsFit(ds, n) && |ds| <= n < TWO64
    ensures DsSendable(ds)
  {
    forall c | c in ds ensures RangesFit(ds[c]) && ds[c] != [] && c < TWO64 {
    }
  }

  /** The items that decodeUpdateV1 keeps. */
  function Kept(es: seq<E.EncodedItem>): seq<E.EncodedItem> {
    if es == [] then [] else (if es[0].isGC || es[0].isSkip then [] else [es[0]]) + Kept(es[1..])
  }

  /** GC and Skip are dropped, and nothing else. */
  lemma {:induction false} KeptIs(es: seq<E.EncodedItem>, e: E.EncodedItem)
    ensures e in Kept(es) <==> e in es && !e.isGC && !e.isSkip
  {
    if es != [] {
      KeptIs(es[1..], e);
      assert es == [es[0]] + es[1..];
    }
  }

  /** decodeUpdateV1 on bytes whose strings are of the basic multilingual plane. */
  function DecodeBytes(bs: Bytes): Option<Update> {
    match Updates.Parse(bs)
    case Ok(u) => if AllItems(Kept(u.items)) then Some(Update(CellsFrom(Kept(u.items)), u.ds)) else None
    case Err(_) => None
  }

  lemma {:induction false} AllKept(es: seq<E.EncodedItem>)
    requires AllItems(es)
    ensures Kept(es) == es
  {
    if es != [] {
      assert IsItem(es[0]);
      AllKept(es[1..]);
    }
  }

  /** The bytes that a transaction emits. */
  ghost function EmittedBytes(tx: Tx): Bytes
    requires AllSendable(tx.items) && AllFit(Structs(tx.items)) && Updates.Print(UpdateV1(Structs(tx.items), KillSet(tx.kills))).Ok?
  {
    Updates.Print(UpdateV1(Structs(tx.items), KillSet(tx.kills))).value
  }

  /**
   * What a replica decodes from the bytes of a transaction is the update that the transaction
   * emitted, so replication through bytes is replication of these updates.
   */
  lemma EmittedIsDecoded(s: DocState, me: nat, ops: seq<Op>)
    requires var tx := Work(s, me, ops);
             AllSendable(tx.items) && |tx.items| < TWO64 && |tx.kills| < TWO64 && forall id :: id in tx.kills ==> E.IdFits(id)
    ensures var tx := Work(s, me, ops);
            && AllFit(Structs(tx.items)) && Updates.Print(UpdateV1(Structs(tx.items), KillSet(tx.kills))).Ok?
            && DecodeBytes(EmittedBytes(tx)) == Some(Emitted(tx))
  {
    hide AllSendable, AllFit, DsSendable, Updates.Print, Updates.Parse, Structs, CellsFrom, AllItems;
    var tx := Work(s, me, ops);
    DoAllInRow(Tx(s, [], []), me, ops);
    KillSetSendable(tx.kills);
    BytesRoundTrip(tx.items, me, KillSet(tx.kills));
    AllKept(Structs(tx.items));
  }
}
