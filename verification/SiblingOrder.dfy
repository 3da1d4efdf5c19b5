/**
 * Which of two concurrent items stands left, over whole runs and in terms of clocks and clients alone:
 * between an item and its origin there are only items of a later origin, or of a greater ID; and an item
 * stands left of its right origin.
 */
module SiblingOrder {
  import opened Wrappers
  import opened Values
  import opened Ids
  import opened Cells
  import opened Integration
  import opened Convergence
  import opened UnitReplicas
  import opened Authoring
  import opened LocalEdits
  import opened Replication
  import opened Intention

  /** Every item between an item and its origin goes left of it. */
  ghost predicate LaterBetween(chain: seq<Cell>) {
    forall i, j :: 0 <= i < j < |chain| && Start(chain, chain[j].left) <= i ==> Before(chain[i], chain[j])
  }

  /** All origins are in the list, and the new item holds none of them. */
  predicate OriginsKept(chain: seq<Cell>, x: Cell) {
    forall c :: c in chain && c.left.Some? ==> IndexOf(chain, c.left.value) < |chain| && !Covers(x, c.left.value)
  }

  /** Where the scan for an item would start when another one has come in at p. */
  lemma StartAfterInsert(chain: seq<Cell>, p: nat, x: Cell, left: Option<Id>)
    requires p <= |chain| && (left.Some? ==> IndexOf(chain, left.value) < |chain| && !Covers(x, left.value))
    ensures Start(InsertAt(chain, p, x), left) == Start(chain, left) + if Start(chain, left) <= p then 0 else 1
  {
    hide IndexOf;
    if left.Some? { IndexAfterInsert(chain, p, x, left.value); }
  }

  /** What the scan passed goes left of the new item. */
  lemma PassedGoLeft(chain: seq<Cell>, x: Cell, i: nat)
    requires Start(chain, x.left) <= i < Place(chain, x) && forall c :: c in chain ==> c.id != x.id
    ensures Before(chain[i], x)
  {
    BeforeIsStrictTotalOrder(x, chain[i], x);
  }

  lemma StopsAtPlace(chain: seq<Cell>, x: Cell)
    requires x.right.None? && Place(chain, x) < |chain|
    ensures Before(x, chain[Place(chain, x)])
  {
  }

  /** The new item goes left of the item it is put in front of, and so of all that has that one between itself and its origin. */
  lemma GoesLeftOfLater(chain: seq<Cell>, x: Cell, j: nat)
    requires x.right.None? && LaterBetween(chain) && j < |chain| && Start(chain, chain[j].left) <= Place(chain, x) <= j
    ensures Before(x, chain[j])
  {
    hide Before, Start, Place, LaterBetween;
    var p := Place(chain, x);
    StopsAtPlace(chain, x);
    if p < j {
      LaterAt(chain, p, j);
      BeforeIsStrictTotalOrder(x, chain[p], chain[j]);
    }
  }

  lemma IntegrateKeepsLater(chain: seq<Cell>, x: Cell)
    requires LaterBetween(chain) && x.right.None? && LeftFound(chain, x) && OriginsKept(chain, x)
    requires (forall c :: c in chain ==> c.id != x.id) && (x.left.Some? ==> !Covers(x, x.left.value))
    ensures LaterBetween(Integrate(chain, x))
  {
    var p, longer := Place(chain, x), Integrate(chain, x);
    hide Place, Start, Before, IndexOf, LaterBetween;
    forall i, j | 0 <= i < j < |longer| && Start(longer, longer[j].left) <= i ensures Before(longer[i], longer[j]) {
      assert longer[i] == if i < p then chain[i] else if i == p then x else chain[i - 1];
      assert longer[j] == if j < p then chain[j] else if j == p then x else chain[j - 1];
      StartAfterInsert(chain, p, x, longer[j].left);
      if j == p {
        PassedGoLeft(chain, x, i);
      } else if i == p {
        GoesLeftOfLater(chain, x, j - 1);
      } else {
        LaterAt(chain, if i < p then i else i - 1, if j < p then j else j - 1);
      }
    }
    assert LaterBetween(longer) by { AllLater(longer); }
  }

  lemma LaterAt(chain: seq<Cell>, i: nat, j: nat)
    requires LaterBetween(chain) && i < j < |chain| && Start(chain, chain[j].left) <= i
    ensures Before(chain[i], chain[j])
  {
  }

  lemma AllLater(chain: seq<Cell>)
    requires forall i, j :: 0 <= i < j < |chain| && Start(chain, chain[j].left) <= i ==> Before(chain[i], chain[j])
    ensures LaterBetween(chain)
  {
  }

  /** Every list of a document. */
  ghost predicate AllLaterBetween(s: DocState) {
    forall k :: k in s.chains ==> LaterBetween(s.chains[k])
  }

  /** A new item does not hold the origin of anything in the list. */
  lemma EnabledKeepsOrigins(s: DocState, x: Cell)
    requires Inv(s) && AllRightOfOrigins(s) && Enabled(s, x)
    ensures var c := Resolved(s, x); var chain := ChainOf(s.chains, KeyOf(c));
            OriginsKept(chain, c) && (c.left.Some? ==> !Covers(c, c.left.value)) && forall d :: d in chain ==> d.id != c.id
  {
    hide IndexOf;
    var c := Resolved(s, x);
    var chain := ChainOf(s.chains, KeyOf(c));
    assert RightOfOrigins(chain) by { NoOrigins(); }
    assert ChainOk(s.store, chain, KeyOf(c)) by { NoneListed(s.store, KeyOf(c)); }
    AppendKeepsStore(s.store, c);
    forall d | d in chain && d.left.Some? ensures IndexOf(chain, d.left.value) < |chain| && !Covers(c, d.left.value) {
      var j :| 0 <= j < |chain| && chain[j] == d;
      var i :| 0 <= i < j && Covers(chain[i], chain[j].left.value);
      assert chain[i] in chain;
      StoredBefore(s, c, chain[i]);
    }
    if c.left.Some? { StoredBefore(s, c, Lookup(s.store, c.left.value).value); }
  }

  lemma NoneListed(store: Store, k: Key)
    ensures ChainOk(store, [], k)
  {
  }

  /** What is stored has no unit in common with an item that comes in its turn. */
  lemma StoredBefore(s: DocState, c: Cell, o: Cell)
    requires Inv(s) && InStore(s.store, o) && StateOf(s.store, c.id.client) <= c.id.clock
    ensures forall id: Id :: Covers(o, id) ==> !Covers(c, id)
  {
    SortedBelow(ItemsOf(s.store, o.id.client), o.id.client, StateOf(s.store, o.id.client));
  }

  lemma ReceiveKeepsLater(s: DocState, x: Cell)
    requires Inv(s) && AllRightOfOrigins(s) && AllLaterBetween(s) && Enabled(s, x)
    ensures AllLaterBetween(Receive(s, x))
  {
    hide Integrate, Find, OriginsKept, LaterBetween, RightOfOrigins;
    var c := Resolved(s, x);
    var chain := ChainOf(s.chains, KeyOf(c));
    EnabledLeftFound(s, x);
    EnabledKeepsOrigins(s, x);
    assert LaterBetween([]) by { AllLater([]); }
    IntegrateKeepsLater(chain, c);
  }

  lemma {:induction false} DeliverKeepsLater(s: DocState, items: seq<Cell>)
    requires Inv(s) && AllRightOfOrigins(s) && AllLaterBetween(s) && Flows(s, items)
    ensures AllLaterBetween(Deliver(s, items))
    decreases |items|
  {
    hide Inv, Enabled, Receive, AllRightOfOrigins, AllLaterBetween;
    if items != [] {
      ReceiveKeepsLater(s, items[0]);
      OneMore(s, items[0]);
      DeliverKeepsLater(Receive(s, items[0]), items[1..]);
    }
  }

  /** No item from index i up to index j holds the origin of the item at j. */
  predicate OriginLeftOf(chain: seq<Cell>, i: nat, j: nat)
    requires i <= j < |chain|
  {
    chain[j].left.Some? ==> forall m :: i <= m < j ==> !Covers(chain[m], chain[j].left.value)
  }

  /**
   * Tie-break over runs: in every list, after any causal delivery, of the items between an item and its
   * origin each has an origin of a later clock, or an origin of the same clock (or both have none) and the
   * greater client, or the same client and a greater clock.
   */
  lemma LaterOriginsLeft(ds: DeleteSet, items: seq<Cell>, k: Key, i: nat, j: nat)
    requires Causal(items)
    requires var chain := ChainOf(Deliver(Blank(ds), items).chains, k); i < j < |chain| && OriginLeftOf(chain, i, j)
    ensures var chain := ChainOf(Deliver(Blank(ds), items).chains, k);
            var a, b := chain[i], chain[j];
            || (a.left.Some? && (b.left.Some? ==> a.left.value.clock > b.left.value.clock))
            || ((a.left.Some? <==> b.left.Some?) && (a.left.Some? && b.left.Some? ==> a.left.value.clock == b.left.value.clock)
                && (a.id.client > b.id.client || (a.id.client == b.id.client && a.id.clock > b.id.clock)))
  {
    hide Causal, Flows, Deliver, Inv, IndexOf;
    var s := Deliver(Blank(ds), items);
    CausalFlows(ds, items);
    BlankOk(ds);
    assert AllRightOfOrigins(Blank(ds)) && AllLaterBetween(Blank(ds)) by { BlankRight(ds); }
    DeliverKeepsOrigins(Blank(ds), items);
    DeliverKeepsLater(Blank(ds), items);
    var chain := ChainOf(s.chains, k);
    assert k in s.chains;
    StartLeftOf(chain, i, j);
    BeforeIsStrictTotalOrder(chain[i], chain[j], chain[i]);
  }

  lemma StartLeftOf(chain: seq<Cell>, i: nat, j: nat)
    requires RightOfOrigins(chain) && i < j < |chain| && OriginLeftOf(chain, i, j)
    ensures Start(chain, chain[j].left) <= i
  {
    if chain[j].left.Some? {
      var o :| 0 <= o < j && Covers(chain[o], chain[j].left.value);
      assert IndexOf(chain, chain[j].left.value) <= o;
    }
  }

  /**
   * Two items of one list with origins of the same clock, or none: the one of the greater client (for one
   * client, of the greater clock) stands left of the other one, unless that one is its origin or stands left
   * of its origin.
   */
  lemma GreaterIdLeftIff(ds: DeleteSet, items: seq<Cell>, k: Key, i: nat, j: nat)
    requires Causal(items)
    requires var chain := ChainOf(Deliver(Blank(ds), items).chains, k);
             && i < |chain| && j < |chain|
             && var a, b := chain[i], chain[j];
                && (a.left.Some? <==> b.left.Some?) && (a.left.Some? && b.left.Some? ==> a.left.value.clock == b.left.value.clock)
                && (a.id.client > b.id.client || (a.id.client == b.id.client && a.id.clock > b.id.clock))
    ensures var chain := ChainOf(Deliver(Blank(ds), items).chains, k);
            i < j <==> !(chain[i].left.Some? && exists m :: j <= m < i && Covers(chain[m], chain[i].left.value))
  {
    hide Causal, Deliver;
    var chain := ChainOf(Deliver(Blank(ds), items).chains, k);
    if j < i && OriginLeftOf(chain, j, i) {
      LaterOriginsLeft(ds, items, k, j, i);
    }
  }

  /** The list of a linked item. */
  function ListOfItem(s: DocState, x: Cell): seq<Cell>
    requires Delivered(s, x)
  {
    ChainOf(s.chains, KeyOf(Lookup(s.store, x.id).value))
  }

  lemma InTheirLists(s: DocState, x: Cell) returns (i: nat)
    requires Inv(s) && Delivered(s, x)
    ensures i < |ListOfItem(s, x)| && ListOfItem(s, x)[i] == Lookup(s.store, x.id).value
    ensures var c := Lookup(s.store, x.id).value; c.id == x.id && c.left == x.left
  {
    var chain := ListOfItem(s, x);
    i :| 0 <= i < |chain| && chain[i] == Lookup(s.store, x.id).value;
  }

  /** The item that holds an origin is in one list only. */
  lemma OneHolder(s: DocState, k: Key, l: Key, m: nat, n: nat, id: Id)
    requires Inv(s) && m < |ChainOf(s.chains, k)| && n < |ChainOf(s.chains, l)|
    requires Covers(ChainOf(s.chains, k)[m], id) && Covers(ChainOf(s.chains, l)[n], id)
    ensures k == l && m == n
  {
    var c, d := ChainOf(s.chains, k)[m], ChainOf(s.chains, l)[n];
    assert c in ChainOf(s.chains, k) && d in ChainOf(s.chains, l);
    FindIsUnique(ItemsOf(s.store, id.client), id.client, id, c);
    FindIsUnique(ItemsOf(s.store, id.client), id.client, id, d);
  }

  /** Two items with the same origin are in the same list. */
  lemma SameList(s: DocState, x: Cell, y: Cell)
    requires Inv(s) && AllRightOfOrigins(s) && Delivered(s, x) && Delivered(s, y)
    requires x.left == y.left && (x.left.None? ==> x.home.Some? && y.home.Some? && KeyOf(x) == KeyOf(y))
    ensures KeyOf(Lookup(s.store, x.id).value) == KeyOf(Lookup(s.store, y.id).value)
  {
    hide Inv, Find;
    if x.left.Some? {
      var k, l := KeyOf(Lookup(s.store, x.id).value), KeyOf(Lookup(s.store, y.id).value);
      var i := InTheirLists(s, x);
    var j := InTheirLists(s, y);
      assert RightOfOrigins(s.chains[k]) && RightOfOrigins(s.chains[l]);
      var m :| 0 <= m < i && Covers(s.chains[k][m], x.left.value);
      var n :| 0 <= n < j && Covers(s.chains[l][n], y.left.value);
      OneHolder(s, k, l, m, n, x.left.value);
    }
  }

  /**
   * Siblings: of two items with the same origin, or of two first items of one list, the one of the greater
   * client stands left on every replica, in whatever causal order the items arrive.
   */
  lemma GreaterClientLeft(ds: DeleteSet, items: seq<Cell>, x: Cell, y: Cell)
    requires Causal(items) && x in items && y in items
    requires x.left == y.left && (x.left.None? ==> x.home.Some? && y.home.Some? && KeyOf(x) == KeyOf(y))
    requires x.id.client > y.id.client || (x.id.client == y.id.client && x.id.clock > y.id.clock)
    ensures var s := Deliver(Blank(ds), items);
            Delivered(s, x) && Precedes(ListOfItem(s, x), x.id, y.id)
  {
    hide Causal, Deliver, Inv, Flows, AllRightOfOrigins;
    var s := Deliver(Blank(ds), items);
    CausalFlows(ds, items);
    BlankOk(ds);
    assert AllRightOfOrigins(Blank(ds)) by { BlankRight(ds); }
    DeliverKeepsOrigins(Blank(ds), items);
    SameList(s, x, y);
    var k := KeyOf(Lookup(s.store, x.id).value);
    var i := InTheirLists(s, x);
    var j := InTheirLists(s, y);
    GreaterIdLeftIff(ds, items, k, i, j);
    if i >= j { OriginBeforeBoth(s, k, i, j); }
  }

  lemma BlankRight(ds: DeleteSet)
    ensures AllRightOfOrigins(Blank(ds)) && AllLaterBetween(Blank(ds))
  {
  }

  /** What holds the origin of an item is left of it, and there is no other one. */
  lemma OriginBeforeBoth(s: DocState, k: Key, i: nat, j: nat)
    requires Inv(s) && AllRightOfOrigins(s) && j <= i < |ChainOf(s.chains, k)| && ChainOf(s.chains, k)[i].left == ChainOf(s.chains, k)[j].left
    ensures var chain := ChainOf(s.chains, k);
            !(chain[i].left.Some? && exists m :: j <= m < i && Covers(chain[m], chain[i].left.value))
  {
    hide Inv;
    var chain := ChainOf(s.chains, k);
    assert RightOfOrigins(chain);
    if chain[i].left.Some? {
      var n :| 0 <= n < j && Covers(chain[n], chain[j].left.value);
      forall m | j <= m < i ensures !Covers(chain[m], chain[i].left.value) {
        if Covers(chain[m], chain[i].left.value) { OneHolder(s, k, k, m, n, chain[i].left.value); }
      }
    }
  }

  // The right origin.

  lemma InsertedBefore(chain: seq<Cell>, p: nat, x: Cell, r: nat)
    requires p <= |chain| && r < |chain|
    ensures p <= r ==> Precedes(InsertAt(chain, p, x), x.id, chain[r].id)
    ensures p > r ==> Precedes(InsertAt(chain, p, x), chain[r].id, x.id)
  {
    var longer := InsertAt(chain, p, x);
    assert longer[p] == x && longer[if r < p then r else r + 1] == chain[r];
  }

  /**
   * The right origin over runs: an item that names a right origin, which is in its list when it arrives,
   * stands left of it, then and after everything that is received later, if that lies at or after the start
   * of its scan, and otherwise right of it.
   */
  lemma RightOriginRight(s: DocState, items: seq<Cell>, n: nat, k: Key, r: nat)
    requires n < |items|
    requires var t, x := Deliver(s, items[..n]), items[n];
             var c, chain := x.(home := Resolve(t.store, x)), ChainOf(t.chains, k);
             && Lookup(t.store, x.id).None? && c.home.Some? && KeyOf(c) == k
             && r < |chain| && x.right.Some? && Covers(chain[r], x.right.value)
    ensures var chain, after, id := ChainOf(Deliver(s, items[..n]).chains, k), ChainOf(Deliver(s, items).chains, k), items[n].id;
            && (Start(chain, items[n].left) <= r ==> Precedes(after, id, chain[r].id))
            && (Start(chain, items[n].left) > r ==> Precedes(after, chain[r].id, id))
  {
    hide Deliver, Start, Find, Precedes;
    var t, x := Deliver(s, items[..n]), items[n];
    var c, chain := x.(home := Resolve(t.store, x)), ChainOf(t.chains, k);
    var a, b := chain[r].id, x.id;
    LeftOfRightOrigin(chain, c, r);
    InsertedBefore(chain, Place(chain, c), c, r);
    assert items == items[..n] + ([x] + items[n + 1..]);
    DeliverConcat(s, items[..n], [x] + items[n + 1..]);
    DeliverFirst(t, x, items[n + 1..]);
    var u := Receive(t, x);
    assert ChainOf(u.chains, k) == Integrate(chain, c);
    if Start(chain, x.left) <= r {
      DeliverKeepsOrder(u, items[n + 1..], k, b, a);
    } else {
      DeliverKeepsOrder(u, items[n + 1..], k, a, b);
    }
  }

  lemma DeliverFirst(s: DocState, x: Cell, rest: seq<Cell>)
    ensures Deliver(s, [x] + rest) == Deliver(Receive(s, x), rest)
  {
    assert ([x] + rest)[0] == x && ([x] + rest)[1..] == rest;
  }

  // Two runs.

  /** One character of a text. */
  function Char(client: nat, clock: nat, left: Option<Id>, right: Option<Id>, name: Name, r: Rune): Cell {
    Cell(Id(client, clock), 1, left, right, Some(name), None, Str([r]))
  }

  /** A document of one text, without deletions. */
  function TextOnly(name: Name, store: Store, chain: seq<Cell>): DocState {
    DocState(store, map[ArrayKey(name) := chain], map[], {})
  }

  /** A character arrives next to the character it was typed after. */
  lemma CharArrives(name: Name, store: Store, chain: seq<Cell>, c: Cell, r: Rune, p: nat)
    requires name != [] && c == Char(c.id.client, c.id.clock, c.left, c.right, name, r) && c.left.Some?
    requires Inv(TextOnly(name, store, chain)) && StateOf(store, c.id.client) <= c.id.clock && Lookup(store, c.id).None?
    requires Lookup(store, c.left.value).Some? && Lookup(store, c.left.value).value in chain
    requires p == Place(chain, c)
    ensures var t := TextOnly(name, Append(store, c), InsertAt(chain, p, c)); Receive(TextOnly(name, store, chain), Wire(c)) == t && Inv(t)
  {
    hide Find, Place, Append;
    var s, key := TextOnly(name, store, chain), ArrayKey(name);
    assert ChainOk(store, s.chains[key], key);
    assert Resolve(store, Wire(c)) == Some(name) && Wire(c).(home := Some(name)) == c;
    assert s.chains[key := InsertAt(chain, p, c)] == map[key := InsertAt(chain, p, c)];
    ReceiveKeepsInv(s, Wire(c));
  }

  /** A first character arrives. */
  lemma FirstArrives(s: DocState, name: Name, store: Store, chain: seq<Cell>, c: Cell, r: Rune, p: nat)
    requires name != [] && c == Char(c.id.client, c.id.clock, None, None, name, r) && s.ds == map[] && s.dead == {} && s.store == store
    requires (s.chains == map[] && chain == []) || s == TextOnly(name, store, chain)
    requires Inv(s) && StateOf(store, c.id.client) <= c.id.clock && Lookup(store, c.id).None? && p == Place(chain, c)
    ensures var t := TextOnly(name, Append(store, c), InsertAt(chain, p, c)); Receive(s, Wire(c)) == t && Inv(t)
  {
    hide Find, Place, Append;
    var key := ArrayKey(name);
    assert s.chains[key := InsertAt(chain, p, c)] == map[key := InsertAt(chain, p, c)];
    ReceiveKeepsInv(s, Wire(c));
  }

  lemma NothingYet()
    ensures Inv(EMPTY)
  {
  }

  lemma FoundAlone(store: Store, c: Cell)
    requires ItemsOf(store, c.id.client) == [c] && c.len == 1
    ensures Lookup(store, c.id) == Some(c)
  {
  }

  /** Client 2 types p and q; client 1 types x between them and names both as its origins. */
  function Between(name: Name, p: Rune, q: Rune, x: Rune): (Cell, Cell, Cell) {
    (Char(2, 0, None, None, name, p), Char(2, 1, Some(Id(2, 0)), None, name, q), Char(1, 0, Some(Id(2, 0)), Some(Id(2, 1)), name, x))
  }

  /** It goes between them, although by the order of IDs it would go behind the q. */
  lemma InsertedBetween(name: Name, p: Rune, q: Rune, x: Rune)
    requires name != []
    ensures var (a, b, c) := Between(name, p, q, x);
            ChainOf(Deliver(EMPTY, [Wire(a), Wire(b), Wire(c)]).chains, ArrayKey(name)) == [a, c, b]
  {
    hide Inv, Receive, Deliver, Wire;
    var (a, b, c) := Between(name, p, q, x);
    NothingYet();
    assert InsertAt([], 0, a) == [a] && InsertAt([a], 1, b) == [a, b];
    PlaceAt([], a, 0);
    FirstArrives(EMPTY, name, map[], [], a, p, 0);
    var s1 := Append(map[], a);
    assert s1 == map[2 := [a]] by { assert [] + [a] == [a]; }
    FoundAlone(s1, a);
    PlaceAt([a], b, 1);
    CharArrives(name, s1, [a], b, q, 1);
    ThirdArrives(name, Append(s1, b), a, b, c, x);
    DeliverFirst(EMPTY, Wire(a), [Wire(b), Wire(c)]);
    DeliverFirst(TextOnly(name, s1, [a]), Wire(b), [Wire(c)]);
    DeliverFirst(TextOnly(name, Append(s1, b), [a, b]), Wire(c), []);
    assert [Wire(a)] + [Wire(b), Wire(c)] == [Wire(a), Wire(b), Wire(c)] && [Wire(b)] + [Wire(c)] == [Wire(b), Wire(c)] && [Wire(c)] + [] == [Wire(c)];
    DeliverNone(Receive(TextOnly(name, Append(s1, b), [a, b]), Wire(c)));
  }

  /** The x arrives last: q is its right origin and ends its scan. */
  lemma ThirdArrives(name: Name, store: Store, a: Cell, b: Cell, c: Cell, x: Rune)
    requires name != [] && store == Append(Append(map[], a), b) && Inv(TextOnly(name, store, [a, b]))
    requires a.id == Id(2, 0) && a.len == 1 && b.id == Id(2, 1) && b.len == 1 && c == Char(1, 0, Some(Id(2, 0)), Some(Id(2, 1)), name, x)
    ensures Receive(TextOnly(name, store, [a, b]), Wire(c)).chains == map[ArrayKey(name) := [a, c, b]]
  {
    hide Inv, Receive, Wire;
    assert store == map[2 := [a, b]] by { assert [] + [a] == [a] && [a] + [b] == [a, b]; }
    assert InsertAt([a, b], 1, c) == [a, c, b];
    PlaceAt([a, b], c, 1);
    CharArrives(name, store, [a, b], c, x, 1);
  }

  lemma DeliverNone(s: DocState)
    ensures Deliver(s, []) == s
  {
  }

  /** Clients 2 and 1 type a and b; client 3 types y after the a, client 9 types x after the b. */
  function TwoPairs(name: Name, a: Rune, b: Rune, y: Rune, x: Rune): seq<Cell> {
    [Char(2, 0, None, None, name, a), Char(1, 0, None, None, name, b),
     Char(3, 0, Some(Id(2, 0)), None, name, y), Char(9, 0, Some(Id(1, 0)), None, name, x)]
  }

  lemma PairsAreCausal(name: Name, a: Rune, b: Rune, y: Rune, x: Rune)
    requires name != []
    ensures Causal(Wires(TwoPairs(name, a, b, y, x)))
  {
    var d := Wires(TwoPairs(name, a, b, y, x));
    assert d[..2] == [d[0], d[1]] && d[..3] == [d[0], d[1], d[2]];
    assert Covers(d[0], Id(2, 0)) && Covers(d[1], Id(1, 0));
    assert IndexOf(d[..2], Id(2, 0)) == 0;
    OneFurther(d[..3], Id(1, 0));
  }

  lemma OneFurther(cells: seq<Cell>, id: Id)
    requires |cells| > 1 && !Covers(cells[0], id) && Covers(cells[1], id)
    ensures IndexOf(cells, id) == 1
  {
  }

  /**
   * The same clock of the origin alone does not decide: x has the greatest client, its origin has the clock
   * of the origin of y, and it stands right of y, which stands left of its origin.
   */
  lemma EqualClocksApart(name: Name, a: Rune, b: Rune, y: Rune, x: Rune)
    requires name != []
    ensures var c := TwoPairs(name, a, b, y, x);
            && Causal(Wires(c))
            && ChainOf(Deliver(EMPTY, Wires(c)).chains, ArrayKey(name)) == [c[0], c[2], c[1], c[3]]
  {
    hide Inv, Receive, Deliver, Wire, Causal;
    var c := TwoPairs(name, a, b, y, x);
    PairsAreCausal(name, a, b, y, x);
    NothingYet();
    assert InsertAt([], 0, c[0]) == [c[0]] && InsertAt([c[0]], 1, c[1]) == [c[0], c[1]];
    PlaceAt([], c[0], 0);
    FirstArrives(EMPTY, name, map[], [], c[0], a, 0);
    var s1 := map[2 := [c[0]]];
    assert Append(map[], c[0]) == s1 by { assert [] + [c[0]] == [c[0]]; }
    PlaceAt([c[0]], c[1], 1);
    FirstArrives(TextOnly(name, s1, [c[0]]), name, s1, [c[0]], c[1], b, 1);
    var s2 := s1[1 := [c[1]]];
    assert Append(s1, c[1]) == s2 by { assert [] + [c[1]] == [c[1]]; }
    PairsArrive(name, s2, c, y, x);
    DeliverFour(EMPTY, Wires(c));
  }

  lemma PairsArrive(name: Name, store: Store, c: seq<Cell>, y: Rune, x: Rune)
    requires |c| == 4 && store == map[2 := [c[0]], 1 := [c[1]]] && name != []
    requires c[0].id == Id(2, 0) && c[1].id == Id(1, 0) && c[0].len == 1 && c[1].len == 1 && c[0].left.None? && c[1].left.None?
    requires c[2] == Char(3, 0, Some(Id(2, 0)), None, name, y) && c[3] == Char(9, 0, Some(Id(1, 0)), None, name, x)
    requires Inv(TextOnly(name, store, [c[0], c[1]]))
    ensures Receive(Receive(TextOnly(name, store, [c[0], c[1]]), Wire(c[2])), Wire(c[3])).chains == map[ArrayKey(name) := [c[0], c[2], c[1], c[3]]]
  {
    hide Inv, Receive, Wire;
    FoundAlone(store, c[0]);
    PlaceAt([c[0], c[1]], c[2], 1);
    assert InsertAt([c[0], c[1]], 1, c[2]) == [c[0], c[2], c[1]];
    CharArrives(name, store, [c[0], c[1]], c[2], y, 1);
    var s3 := Append(store, c[2]);
    FoundAlone(s3, c[1]);
    var chain := [c[0], c[2], c[1]];
    LastOfThree(chain, Id(1, 0));
    PlaceAt(chain, c[3], 3);
    assert InsertAt(chain, 3, c[3]) == [c[0], c[2], c[1], c[3]];
    CharArrives(name, s3, chain, c[3], x, 3);
  }

  lemma LastOfThree(cells: seq<Cell>, id: Id)
    requires |cells| == 3 && !Covers(cells[0], id) && !Covers(cells[1], id) && Covers(cells[2], id)
    ensures IndexOf(cells, id) == 2
  {
    OneFurther(cells[1..], id);
  }

  lemma DeliverFour(s: DocState, d: seq<Cell>)
    requires |d| == 4
    ensures Deliver(s, d) == Receive(Receive(Receive(Receive(s, d[0]), d[1]), d[2]), d[3])
  {
    hide Receive;
    var s1 := Receive(s, d[0]);
    var s2 := Receive(s1, d[1]);
    assert Deliver(s, d) == Deliver(s1, d[1..]) && d[1..][0] == d[1] && d[1..][1..] == d[2..];
    assert Deliver(s1, d[1..]) == Deliver(s2, d[2..]) && d[2..][0] == d[2] && d[2..][1..] == d[3..];
    var s3 := Receive(s2, d[2]);
    assert Deliver(s2, d[2..]) == Deliver(s3, d[3..]) && d[3..][0] == d[3] && d[3..][1..] == [];
    assert Deliver(s3, d[3..]) == Deliver(Receive(s3, d[3]), []);
  }
}
