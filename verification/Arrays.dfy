/** array.go: editing and reading an array in its linked list. */
module Arrays {
  import opened Wrappers
  import opened Values
  import opened Ids
  import opened Cells
  import opened Integration
  import opened UnitReplicas
  import opened Authoring
  import opened Items
  import opened Linking
  import opened Docs
  import opened Integrator

  function IdsIn(items: seq<Item>): (ids: seq<Id>)
    ensures |ids| == |items| && forall i :: 0 <= i < |items| ==> ids[i] == items[i].id
  {
    seq(|items|, i requires 0 <= i < |items| => items[i].id)
  }

  /** The transaction of a document has come this far. */
  ghost predicate Stage(d: Doc, tx: Transaction, t: Tx)
    reads d`held, tx, tx.pendingItems`parent, tx.pendingItems`content, tx.pendingItems`length
  {
    d.held.view == t.state && Says(tx.pendingItems) == t.items && IdsIn(tx.pendingDeletes) == t.kills
  }

  /** An array of the document. */
  ghost predicate IsArray(d: Doc, a: SharedType)
    reads d`share
  {
    a.kind == ArrayType && a.name in d.share && d.share[a.name] == a
  }

  /** The new item of an array element, not stored or linked yet. */
  method NewElement(d: Doc, a: SharedType, left: Item?, v: Any, ghost p: nat) returns (item: Item)
    requires d.Valid() && IsArray(d, a)
    requires var nodes := ListAt(d.held.lists, ArrayKey(a.name)); p <= |nodes| && left == NodeBefore(nodes, p)
    ensures fresh(item) && item.parent == a && !item.deleted && item.left == null && item.right == null
    ensures p <= |ChainOf(d.held.view.chains, ArrayKey(a.name))| && item.AsCell() == Element(d.held.view, d.clientID, a.name, p, v)
  {
    hide Find, Inv, StoreIs, ItemsAre, FlagsAre, ParentsAre, ListsLinked, LooseApart, HeadsAre, Placed;
    var clock := NextClock(d);
    ghost var key := ArrayKey(a.name);
    ghost var nodes, chain := ListAt(d.held.lists, key), ChainOf(d.held.view.chains, key);
    assert Spell(d.held.says, nodes, chain);
    if p > 0 { ChainSized(d.held.view, key, p - 1); }
    var originLeft := None;
    if left != null {
      originLeft := Some(Id(left.id.client, left.id.clock + left.length - 1));
    }
    item := new Item(Id(d.clientID, clock), originLeft, None, None, None, a, Val(v), 1);
  }

  lemma ChainSized(s: DocState, key: Key, i: nat)
    requires Inv(s) && i < |ChainOf(s.chains, key)|
    ensures ChainOf(s.chains, key)[i].len >= 1
  {
    assert ChainOk(s.store, s.chains[key], key);
    var c := ChainOf(s.chains, key)[i];
    assert c in s.chains[key] && InStore(s.store, c);
  }

  /** getState of the own client. */
  method NextClock(d: Doc) returns (clock: nat)
    requires d.Valid()
    ensures clock == StateOf(d.held.view.store, d.clientID)
  {
    hide Find, Inv, ItemsAre, ListsAre, FlagsAre, ParentsAre, ListsLinked, LooseApart, HeadsAre, Placed;
    ghost var items, cells := d.store.Of(d.clientID), ItemsOf(d.held.view.store, d.clientID);
    assert Spell(d.held.says, items, cells);
    if items != [] { assert items[|items| - 1] in d.held.says && d.held.says[items[|items| - 1]] == cells[|items| - 1]; }
    clock := d.store.GetState(d.clientID);
  }

  lemma ElementIsNew(s: DocState, me: nat, name: Name, p: nat, v: Any)
    requires Inv(s) && p <= |ChainOf(s.chains, ArrayKey(name))|
    ensures var c := Element(s, me, name, p, v);
            Lookup(s.store, c.id).None? && Sized(c) && c.home == Some(name) && KeyOf(c) == ArrayKey(name)
            && c.id.client == me && StateOf(s.store, c.id.client) <= c.id.clock
  {
    var o := Lookup(s.store, NextId(s, me));
    if o.Some? { SortedBelow(ItemsOf(s.store, me), me, StateOf(s.store, me)); }
  }

  lemma ParentIs(d: Doc, item: Item, a: SharedType)
    requires IsArray(d, a) && item.parent == a
    ensures HasParent(item, d.share)
  {
  }

  lemma ListSizes(h: Holding, key: Key)
    requires ListsAre(h.lists, h.view.chains, h.says)
    ensures |ListAt(h.lists, key)| == |ChainOf(h.view.chains, key)|
  {
  }

  ghost predicate LastStored(d: Doc, item: Item)
    reads d`held
  {
    var items := ItemsOf(d.held.view.store, d.clientID);
    item in d.held.says && items != [] && items[|items| - 1] == d.held.says[item]
  }

  lemma StoredLast(store: Store, c: Cell)
    ensures var items := ItemsOf(Append(store, c), c.id.client); items != [] && items[|items| - 1] == c
  {
  }

  /** A new element enters the store and the list, at a place. */
  method PutLinked(d: Doc, a: SharedType, item: Item, left: Item?, right: Item?, ghost p: nat, ghost v: Any)
    requires d.Valid() && IsArray(d, a) && item !in d.held.says
    requires item.parent == a && !item.deleted && item.left == null && item.right == null
    requires var nodes := ListAt(d.held.lists, ArrayKey(a.name));
             p <= |nodes| && left == NodeBefore(nodes, p) && right == NodeAt(nodes, p)
    requires p <= |ChainOf(d.held.view.chains, ArrayKey(a.name))| && item.AsCell() == Element(d.held.view, d.clientID, a.name, p, v)
    modifies d`held, d.store`clients, a`start, a`starts, item`left, item`right
    modifies d.held.says.Keys`left, d.held.says.Keys`right
    ensures d.Valid() && d.held.view == PutAt(old(d.held.view), ArrayKey(a.name), p, item.AsCell())
    ensures d.held.says.Keys == old(d.held.says.Keys) + {item} && LastStored(d, item)
    ensures ListAt(d.held.lists, ArrayKey(a.name)) == InsertAt(old(ListAt(d.held.lists, ArrayKey(a.name))), p, item)
  {
    hide Find, Inv, StoreIs, ItemsAre, ListsAre, SaysTrue, FlagsAre, ParentsAre, ListsLinked, LooseApart, HeadsAre, Placed, HasParent;
    hide NodeAt, NodeBefore, Element, InsertAt;
    ghost var s, c, key := d.held.view, item.AsCell(), ArrayKey(a.name);
    ElementIsNew(s, d.clientID, a.name, p, v);
    NotListed(d, item);
    ParentIs(d, item, a);
    ListSizes(d.held, key);
    EnteredInv(s, c, false);
    PutKeepsInv(s, key, p, c);
    PutKeepsPlaced(s, key, p, c);
    Enter(d, item);
    LinkItem(d, a, item, left, right, key, p);
    StoredLast(s.store, c);
  }

  /** addItem of the transaction. */
  method Record(tx: Transaction, item: Item)
    modifies tx`pendingItems
    ensures Says(tx.pendingItems) == old(Says(tx.pendingItems)) + [item.AsCell()]
  {
    SaysMore(tx.pendingItems, item);
    tx.AddItem(item);
  }

  /** And it is recorded. */
  method PutItem(d: Doc, a: SharedType, tx: Transaction, item: Item, left: Item?, right: Item?, ghost p: nat, ghost v: Any, ghost t: Tx)
    requires d.Valid() && IsArray(d, a) && Stage(d, tx, t) && item !in d.held.says
    requires item.parent == a && !item.deleted && item.left == null && item.right == null
    requires var nodes := ListAt(d.held.lists, ArrayKey(a.name));
             p <= |nodes| && left == NodeBefore(nodes, p) && right == NodeAt(nodes, p)
    requires p <= |ChainOf(d.held.view.chains, ArrayKey(a.name))| && item.AsCell() == Element(d.held.view, d.clientID, a.name, p, v)
    modifies d`held, d.store`clients, tx`pendingItems, a`start, a`starts, item`left, item`right
    modifies d.held.says.Keys`left, d.held.says.Keys`right
    ensures d.Valid() && Stage(d, tx, PutElement(t, d.clientID, a.name, p, v))
    ensures d.held.says.Keys == old(d.held.says.Keys) + {item} && LastStored(d, item)
    ensures ListAt(d.held.lists, ArrayKey(a.name)) == InsertAt(old(ListAt(d.held.lists, ArrayKey(a.name))), p, item)
  {
    hide Coherent, Embodied, Inv, Placed, NodeAt, NodeBefore, Element, InsertAt, PutAt, Says, IdsIn, IsArray;
    ghost var before, c := Says(tx.pendingItems), item.AsCell();
    PutLinked(d, a, item, left, right, p, v);
    assert Says(tx.pendingItems) == before && item.AsCell() == c;
    Record(tx, item);
    assert d.Valid();
  }

  /** The linked list of an array, and what its nodes say. */
  ghost predicate IsList(a: SharedType, nodes: seq<Item>, chain: seq<Cell>, dead: set<Id>)
    reads a`start, nodes`left, nodes`right, nodes`parent, nodes`content, nodes`length, nodes`deleted
  {
    && a.start == HeadOf(nodes) && Linked(nodes) && |nodes| == |chain|
    && forall i :: 0 <= i < |nodes| ==> nodes[i].AsCell() == chain[i] && (nodes[i].deleted <==> chain[i].id in dead)
  }

  lemma ArrayList(d: Doc, a: SharedType)
    requires d.Valid() && IsArray(d, a)
    ensures var key := ArrayKey(a.name); IsList(a, ListAt(d.held.lists, key), ChainOf(d.held.view.chains, key), d.held.view.dead)
  {
    hide Find, Inv, StoreIs, ItemsAre, ParentsAre, LooseApart, Placed;
    var key := ArrayKey(a.name);
    assert FitsKind(d.share, key);
    var nodes, chain := ListAt(d.held.lists, key), ChainOf(d.held.view.chains, key);
    assert Linked(nodes) && Spell(d.held.says, nodes, chain);
  }

  lemma NodeIs(a: SharedType, nodes: seq<Item>, chain: seq<Cell>, dead: set<Id>, k: nat)
    requires IsList(a, nodes, chain, dead) && k < |nodes|
    ensures |nodes| == |chain| && nodes[k].AsCell() == chain[k] && (nodes[k].deleted <==> chain[k].id in dead)
    ensures nodes[k].right == NodeAt(nodes, k + 1) && nodes[k] in nodes
  {
    assert Joined(nodes, k);
  }

  /** One more item of the list, seen or not. */
  lemma SeenAt(chain: seq<Cell>, dead: set<Id>, k: nat)
    requires k < |chain|
    ensures Visible(chain[..k + 1], dead) == Visible(chain[..k], dead) + Seen(chain[k], dead)
  {
    assert chain[..k + 1] == chain[..k] + [chain[k]];
    VisibleConcat(chain[..k], [chain[k]], dead);
    assert Visible([chain[k]], dead) == Seen(chain[k], dead);
  }

  /** The walk to the end of the list. */
  method Last(a: SharedType, ghost nodes: seq<Item>, ghost chain: seq<Cell>, ghost dead: set<Id>) returns (last: Item?)
    requires IsList(a, nodes, chain, dead)
    ensures last == NodeBefore(nodes, |nodes|)
  {
    last := null;
    var item := a.start;
    ghost var k := 0;
    while item != null
      invariant k <= |nodes| && item == NodeAt(nodes, k) && last == NodeBefore(nodes, k)
      decreases |nodes| - k
    {
      assert Joined(nodes, k);
      last := item;
      item := item.right;
      k := k + 1;
    }
  }

  /** findItemAtIndex */
  method FindItemAtIndex(a: SharedType, index: nat, ghost nodes: seq<Item>, ghost chain: seq<Cell>, ghost dead: set<Id>)
    returns (found: Item?)
    requires IsList(a, nodes, chain, dead)
    ensures found == NodeBefore(nodes, Slot(chain, dead, index))
  {
    if index == 0 { return null; }
    var pos, last, item := 0, null, a.start;
    ghost var k, p := 0, 0;
    while item != null
      invariant p <= k <= |nodes| && item == NodeAt(nodes, k) && last == NodeBefore(nodes, p)
      invariant pos < index
      invariant Slot(chain, dead, index) == (var q := Slot(chain[k..], dead, index - pos); if q == 0 then p else k + q)
      decreases |nodes| - k
    {
      assert Joined(nodes, k) && (item.deleted <==> chain[k].id in dead);
      assert chain[k..][0] == chain[k] && chain[k..][1..] == chain[k + 1..];
      if !item.deleted {
        pos := pos + 1;
        last := item;
        p := k + 1;
        if pos >= index {
          return last;
        }
      }
      item := item.right;
      k := k + 1;
    }
    return last;
  }

  /** Array.ToSlice */
  method ToSlice(d: Doc, a: SharedType) returns (out: seq<Content>)
    requires d.Valid() && IsArray(d, a)
    ensures out == Authoring.ToSlice(d.held.view, a.name)
  {
    ghost var nodes, chain, dead := ListAt(d.held.lists, ArrayKey(a.name)), ChainOf(d.held.view.chains, ArrayKey(a.name)), d.held.view.dead;
    ArrayList(d, a);
    out := Contents(a, nodes, chain, dead);
  }

  method Contents(a: SharedType, ghost nodes: seq<Item>, ghost chain: seq<Cell>, ghost dead: set<Id>) returns (out: seq<Content>)
    requires IsList(a, nodes, chain, dead)
    ensures out == ContentsOf(Visible(chain, dead))
  {
    out := [];
    var item := a.start;
    ghost var k := 0;
    assert chain[..0] == [];
    while item != null
      invariant k <= |nodes| && item == NodeAt(nodes, k) && out == ContentsOf(Visible(chain[..k], dead))
      decreases |nodes| - k
    {
      NodeIs(a, nodes, chain, dead, k);
      SeenAt(chain, dead, k);
      if !item.deleted {
        out := out + [item.content];
      }
      item := item.right;
      k := k + 1;
    }
    assert chain[..k] == chain;
  }

  /** Array.Get: the visible element at an index, or nothing. */
  method Get(a: SharedType, index: nat, ghost nodes: seq<Item>, ghost chain: seq<Cell>, ghost dead: set<Id>) returns (r: Option<Content>)
    requires IsList(a, nodes, chain, dead)
    ensures var out := ContentsOf(Visible(chain, dead)); r == if index < |out| then Some(out[index]) else None
  {
    var pos, item := 0, a.start;
    ghost var k := 0;
    assert chain[..0] == [];
    while item != null
      invariant k <= |nodes| && item == NodeAt(nodes, k) && pos == |Visible(chain[..k], dead)| <= index
      decreases |nodes| - k
    {
      NodeIs(a, nodes, chain, dead, k);
      SeenAt(chain, dead, k);
      if !item.deleted {
        if pos == index {
          VisibleAt(chain, k + 1, dead);
          return Some(item.content);
        }
        pos := pos + 1;
      }
      item := item.right;
      k := k + 1;
    }
    assert chain[..k] == chain;
    return None;
  }

  /** Array.Len */
  method Len(a: SharedType, ghost nodes: seq<Item>, ghost chain: seq<Cell>, ghost dead: set<Id>) returns (n: nat)
    requires IsList(a, nodes, chain, dead)
    ensures n == |Visible(chain, dead)|
  {
    n := 0;
    var item := a.start;
    ghost var k := 0;
    assert chain[..0] == [];
    while item != null
      invariant k <= |nodes| && item == NodeAt(nodes, k) && n == |Visible(chain[..k], dead)|
      decreases |nodes| - k
    {
      NodeIs(a, nodes, chain, dead, k);
      SeenAt(chain, dead, k);
      if !item.deleted {
        n := n + 1;
      }
      item := item.right;
      k := k + 1;
    }
    assert chain[..k] == chain;
  }

  lemma ListLength(d: Doc, key: Key)
    requires d.Valid()
    ensures |ListAt(d.held.lists, key)| == |ChainOf(d.held.view.chains, key)|
  {
    ListSizes(d.held, key);
  }

  /** Between these two nodes is the place p of the array. */
  ghost predicate Between(d: Doc, a: SharedType, left: Item?, right: Item?, p: nat)
    reads d`held
  {
    var nodes := ListAt(d.held.lists, ArrayKey(a.name));
    p <= |nodes| == |ChainOf(d.held.view.chains, ArrayKey(a.name))| && left == NodeBefore(nodes, p) && right == NodeAt(nodes, p)
  }

  /** One value becomes an item between two nodes. */
  method PutValue(d: Doc, a: SharedType, tx: Transaction, left: Item?, right: Item?, v: Any, ghost p: nat, ghost t: Tx) returns (item: Item)
    requires d.Valid() && IsArray(d, a) && Stage(d, tx, t) && Between(d, a, left, right, p)
    modifies d`held, d.store`clients, tx`pendingItems, a`start, a`starts, d.held.says.Keys`left, d.held.says.Keys`right
    ensures p <= |ChainOf(t.state.chains, ArrayKey(a.name))|
    ensures d.Valid() && Stage(d, tx, PutElement(t, d.clientID, a.name, p, v)) && Between(d, a, item, right, p + 1)
    ensures fresh(item) && d.held.says.Keys == old(d.held.says.Keys) + {item} && LastStored(d, item)
  {
    hide Coherent, Embodied, Inv, Placed, Element, Stage, InsertAt;
    ghost var nodes := ListAt(d.held.lists, ArrayKey(a.name));
    item := NewElement(d, a, left, v, p);
    assert Stage(d, tx, t);
    StageState(d, tx, t);
    PutItem(d, a, tx, item, left, right, p, v, t);
    ListLength(d, ArrayKey(a.name));
    PlaceAfter(nodes, p, item);
  }

  lemma StageState(d: Doc, tx: Transaction, t: Tx)
    requires Stage(d, tx, t)
    ensures d.held.view == t.state
  {
  }

  lemma PlaceAfter(nodes: seq<Item>, p: nat, item: Item)
    requires p <= |nodes|
    ensures var longer := InsertAt(nodes, p, item);
            p + 1 <= |longer| && NodeBefore(longer, p + 1) == item && NodeAt(longer, p + 1) == NodeAt(nodes, p)
  {
  }

  /** The last stored item of the own client, which is the one that was just inserted. */
  method Previous(d: Doc, ghost item: Item) returns (prev: Item?)
    requires d.Valid() && LastStored(d, item)
    ensures prev == item
  {
    hide Find, StoreIs, ListsAre, FlagsAre, ParentsAre, ListsLinked, LooseApart, HeadsAre, Placed;
    var clock := NextClock(d);
    ghost var items := ItemsOf(d.held.view.store, d.clientID);
    assert Sorted(items, d.clientID);
    FindIsUnique(items, d.clientID, Id(d.clientID, clock - 1), items[|items| - 1]);
    prev := FindItem(d.store, Id(d.clientID, clock - 1), d.held);
  }

  /** In the middle of a row of values: what is still to do leads to the goal. */
  ghost predicate Putting(d: Doc, a: SharedType, tx: Transaction, left: Item?, right: Item?, p: nat, values: seq<Any>, t: Tx, goal: Tx)
    reads d, d.store, d.share.Values, d.held.says.Keys, tx, tx.pendingItems`parent, tx.pendingItems`content, tx.pendingItems`length
  {
    && d.Valid() && IsArray(d, a) && Stage(d, tx, t) && Between(d, a, left, right, p)
    && p <= |ChainOf(t.state.chains, ArrayKey(a.name))| && PutAll(t, d.clientID, a.name, p, values) == goal
  }

  /** One more of the values. */
  method PutNext(d: Doc, a: SharedType, tx: Transaction, left: Item?, right: Item?, values: seq<Any>, ghost p: nat, ghost t: Tx, ghost goal: Tx)
    returns (item: Item, ghost next: Tx)
    requires Putting(d, a, tx, left, right, p, values, t, goal) && values != []
    modifies d`held, d.store`clients, tx`pendingItems, a`start, a`starts, d.held.says.Keys`left, d.held.says.Keys`right
    ensures d.Valid() && Putting(d, a, tx, item, right, p + 1, values[1..], next, goal)
    ensures fresh(item) && d.held.says.Keys == old(d.held.says.Keys) + {item} && LastStored(d, item)
  {
    hide Coherent, Embodied, Inv, Placed, Stage, PutElement;
    item := PutValue(d, a, tx, left, right, values[0], p, t);
    next := PutElement(t, d.clientID, a.name, p, values[0]);
    StageState(d, tx, next);
  }

  lemma PuttingDone(d: Doc, a: SharedType, tx: Transaction, left: Item?, right: Item?, p: nat, t: Tx, goal: Tx)
    requires Putting(d, a, tx, left, right, p, [], t, goal)
    ensures d.Valid() && Stage(d, tx, goal)
  {
  }

  lemma PuttingStarts(d: Doc, a: SharedType, tx: Transaction, left: Item?, right: Item?, p: nat, values: seq<Any>, t: Tx)
    requires d.Valid() && IsArray(d, a) && Stage(d, tx, t) && Between(d, a, left, right, p)
    ensures p <= |ChainOf(t.state.chains, ArrayKey(a.name))|
    ensures Putting(d, a, tx, left, right, p, values, t, PutAll(t, d.clientID, a.name, p, values))
  {
  }

  /** The loop of Array.Push: each value after the item of the one before. */
  method PushAll(d: Doc, a: SharedType, tx: Transaction, values: seq<Any>, from: Item?, ghost q: nat, ghost t: Tx, ghost goal: Tx)
    requires Putting(d, a, tx, from, null, q, values, t, goal)
    modifies d`held, d.store`clients, tx`pendingItems, a`start, a`starts, d.held.says.Keys`left, d.held.says.Keys`right
    ensures d.Valid() && Stage(d, tx, goal) && fresh(d.held.says.Keys - old(d.held.says.Keys))
  {
    hide Putting, Stage, Coherent, Embodied, Inv, Placed;
    var last := from;
    ghost var p: nat, now := q, t;
    assert values[0..] == values;
    for i := 0 to |values|
      invariant Putting(d, a, tx, last, null, p, values[i..], now, goal)
      invariant fresh(d.held.says.Keys - old(d.held.says.Keys))
    {
      last, now := PutNext(d, a, tx, last, null, values[i..], p, now, goal);
      assert values[i..][1..] == values[i + 1..];
      p := p + 1;
    }
    assert values[|values|..] == [];
    PuttingDone(d, a, tx, last, null, p, now, goal);
  }

  /** Array.Push: the document and the transaction become what Push makes of them. */
  method Push(d: Doc, a: SharedType, tx: Transaction, values: seq<Any>, ghost t: Tx)
    requires d.Valid() && IsArray(d, a) && Stage(d, tx, t)
    modifies d`held, d.store`clients, tx`pendingItems, a`start, a`starts, d.held.says.Keys`left, d.held.says.Keys`right
    ensures d.Valid() && Stage(d, tx, Authoring.Push(t, d.clientID, a.name, values))
    ensures fresh(d.held.says.Keys - old(d.held.says.Keys))
  {
    hide Coherent, Embodied, Inv, Placed, IsList, Stage, PutAll, Putting;
    ghost var key, nodes := ArrayKey(a.name), ListAt(d.held.lists, ArrayKey(a.name));
    ArrayList(d, a);
    ListLength(d, key);
    StageState(d, tx, t);
    var last := Last(a, nodes, ChainOf(d.held.view.chains, key), d.held.view.dead);
    PuttingStarts(d, a, tx, last, null, |nodes|, values, t);
    PushAll(d, a, tx, values, last, |nodes|, t, Authoring.Push(t, d.clientID, a.name, values));
  }

  /** The loop of Array.Insert: the item to the left is looked up in the store again. */
  method InsertAll(d: Doc, a: SharedType, tx: Transaction, values: seq<Any>, left: Item?, right: Item?, ghost q: nat, ghost t: Tx, ghost goal: Tx)
    requires Putting(d, a, tx, left, right, q, values, t, goal)
    modifies d`held, d.store`clients, tx`pendingItems, a`start, a`starts, d.held.says.Keys`left, d.held.says.Keys`right
    ensures d.Valid() && Stage(d, tx, goal) && fresh(d.held.says.Keys - old(d.held.says.Keys))
  {
    hide Putting, Stage, Coherent, Embodied, Inv, Placed;
    var prev := left;
    ghost var p: nat, now := q, t;
    assert values[0..] == values;
    for i := 0 to |values|
      invariant Putting(d, a, tx, prev, right, p, values[i..], now, goal)
      invariant fresh(d.held.says.Keys - old(d.held.says.Keys))
    {
      var item;
      item, now := PutNext(d, a, tx, prev, right, values[i..], p, now, goal);
      assert values[i..][1..] == values[i + 1..];
      p := p + 1;
      prev := Previous(d, item);
    }
    assert values[|values|..] == [];
    PuttingDone(d, a, tx, prev, right, p, now, goal);
  }

  /** Array.Insert: the document and the transaction become what Insert makes of them. */
  method Insert(d: Doc, a: SharedType, tx: Transaction, index: nat, values: seq<Any>, ghost t: Tx)
    requires d.Valid() && IsArray(d, a) && Stage(d, tx, t)
    modifies d`held, d.store`clients, tx`pendingItems, a`start, a`starts, d.held.says.Keys`left, d.held.says.Keys`right
    ensures d.Valid() && Stage(d, tx, Authoring.Insert(t, d.clientID, a.name, index, values))
    ensures fresh(d.held.says.Keys - old(d.held.says.Keys))
  {
    hide Coherent, Embodied, Inv, Placed, Stage, Putting;
    if values == [] { return; }
    ghost var key := ArrayKey(a.name);
    ghost var nodes, chain, dead := ListAt(d.held.lists, key), ChainOf(d.held.view.chains, key), d.held.view.dead;
    ghost var p := Slot(chain, dead, index);
    ArrayList(d, a);
    ListLength(d, key);
    StageState(d, tx, t);
    var left := FindItemAtIndex(a, index, nodes, chain, dead);
    var right := a.start;
    if left != null {
      NodeIs(a, nodes, chain, dead, p - 1);
      right := left.right;
    }
    PuttingStarts(d, a, tx, left, right, p, values, t);
    InsertAll(d, a, tx, values, left, right, p, t, Authoring.Insert(t, d.clientID, a.name, index, values));
  }

  lemma IdsMore(items: seq<Item>, item: Item)
    ensures IdsIn(items + [item]) == IdsIn(items) + [item.id]
  {
  }

  lemma IdSeqMore(cells: seq<Cell>, c: Cell)
    ensures IdSeq(cells + [c]) == IdSeq(cells) + [c.id] && IdsOf(cells + [c]) == IdsOf(cells) + {c.id}
  {
  }

  /** What was recorded since are items of the document. */
  ghost predicate Added(recorded: seq<Item>, before: seq<Item>, known: set<Item>) {
    forall i :: i in recorded ==> i in before || i in known
  }

  lemma AddedMore(recorded: seq<Item>, before: seq<Item>, known: set<Item>, item: Item)
    requires Added(recorded, before, known) && item in known
    ensures Added(recorded + [item], before, known)
  {
  }

  lemma AddedNone(recorded: seq<Item>, known: set<Item>)
    ensures Added(recorded, recorded, known)
  {
  }

  /** The flag of one more item of a list. */
  method MarkOne(tx: Transaction, item: Item, ghost items: set<Item>, ghost dead: set<Id>)
    requires FlagsAre(items, dead) && item in items && forall i :: i in items && i.id == item.id ==> i == item
    modifies item`deleted, tx`pendingDeletes
    ensures FlagsAre(items, dead + {item.id}) && tx.pendingDeletes == old(tx.pendingDeletes) + [item]
  {
    item.deleted := true;
    tx.AddDeletedItem(item);
  }

  /** The walk of Array.Delete. */
  method DeleteNodes(a: SharedType, tx: Transaction, index: nat, length: nat, ghost h: Holding, ghost nodes: seq<Item>, ghost chain: seq<Cell>)
    requires IsList(a, nodes, chain, h.view.dead) && FlagsAre(h.says.Keys, h.view.dead) && DistinctIds(chain)
    requires forall n :: n in nodes ==> n in h.says
    requires forall i, j :: i in h.says && j in h.says && i.id == j.id ==> i == j
    modifies h.says.Keys`deleted, tx`pendingDeletes
    ensures var doomed := DoomedTo(chain, h.view.dead, index, length, |chain|);
            FlagsAre(h.says.Keys, h.view.dead + IdsOf(doomed)) && IdsIn(tx.pendingDeletes) == IdsIn(old(tx.pendingDeletes)) + IdSeq(doomed)
    ensures Added(tx.pendingDeletes, old(tx.pendingDeletes), h.says.Keys)
  {
    hide DoomedTo, Linked, IdsOf, IdSeq, Visible, Added;
    ghost var dead, before, marked := h.view.dead, IdsIn(tx.pendingDeletes), [];
    var pos, item := 0, a.start;
    ghost var k := 0;
    DoomedNone(chain, dead, index, length);
    assert Added(tx.pendingDeletes, tx.pendingDeletes, h.says.Keys) by { AddedNone(tx.pendingDeletes, h.says.Keys); }
    while item != null
      invariant k <= |nodes| == |chain| && item == NodeAt(nodes, k) && Linked(nodes)
      invariant forall i :: 0 <= i < |nodes| ==> nodes[i].id == chain[i].id
      invariant pos == |Visible(chain[..k], dead)| && marked == DoomedTo(chain, dead, index, length, k)
      invariant FlagsAre(h.says.Keys, dead + IdsOf(marked)) && IdsIn(tx.pendingDeletes) == before + IdSeq(marked)
      invariant Added(tx.pendingDeletes, old(tx.pendingDeletes), h.says.Keys)
      decreases |nodes| - k
    {
      NextNode(nodes, k);
      Unmarked(chain, dead, index, length, k);
      DoomedNext(chain, dead, index, length, k);
      if !item.deleted {
        if pos >= index + length {
          break;
        }
        if pos >= index {
          IdSeqMore(marked, chain[k]);
          IdsMore(tx.pendingDeletes, item);
          AddedMore(tx.pendingDeletes, old(tx.pendingDeletes), h.says.Keys, item);
          MarkOne(tx, item, h.says.Keys, dead + IdsOf(marked));
          assert dead + IdsOf(marked) + {item.id} == dead + (IdsOf(marked) + {item.id});
          marked := marked + [chain[k]];
        }
        pos := pos + 1;
      }
      item := item.right;
      k := k + 1;
    }
    DoomedAll(chain, dead, index, length, k);
  }

  lemma DoomedNone(chain: seq<Cell>, dead: set<Id>, index: nat, length: nat)
    ensures DoomedTo(chain, dead, index, length, 0) == [] && Visible(chain[..0], dead) == []
    ensures IdSeq([]) == [] && IdsOf([]) == {}
  {
  }

  lemma NextNode(nodes: seq<Item>, k: nat)
    requires Linked(nodes) && k < |nodes|
    ensures nodes[k].right == NodeAt(nodes, k + 1) && nodes[k] in nodes
  {
    assert Joined(nodes, k);
  }

  /** What was marked so far is not the item that is next. */
  lemma Unmarked(chain: seq<Cell>, dead: set<Id>, index: nat, length: nat, k: nat)
    requires DistinctIds(chain) && k < |chain|
    ensures chain[k].id !in IdsOf(DoomedTo(chain, dead, index, length, k))
  {
    hide DoomedTo;
    DoomedBefore(chain, dead, index, length, k);
    assert forall c :: c in chain[..k] ==> c.id != chain[k].id;
  }

  lemma NothingDeleted(t: Tx, name: Name, index: nat)
    ensures Authoring.Delete(t, name, index, 0) == t
  {
    assert IdsOf([]) == {};
  }

  /** The nodes of a list are items of the document, and no two items have the same ID. */
  lemma ListNodes(d: Doc, key: Key)
    requires d.Valid()
    ensures forall n :: n in ListAt(d.held.lists, key) ==> n in d.held.says
    ensures forall i, j :: i in d.held.says && j in d.held.says && i.id == j.id ==> i == j
    ensures DistinctIds(ChainOf(d.held.view.chains, key)) && FlagsAre(d.held.says.Keys, d.held.view.dead)
  {
    hide Find, StoreIs, SaysTrue, ParentsAre, ListsLinked, LooseApart, HeadsAre, Placed;
    assert ChainOk(d.held.view.store, ChainOf(d.held.view.chains, key), key);
  }

  /** Marking items of a list deleted keeps any document well formed. */
  lemma MarkKeepsInv(s: DocState, key: Key, cells: seq<Cell>)
    requires Inv(s) && forall c :: c in cells ==> c in ChainOf(s.chains, key)
    ensures Inv(s.(dead := s.dead + IdsOf(cells)))
  {
    hide Find;
    forall c | c in cells ensures IsStart(s.store, c.id) {
      assert ChainOk(s.store, s.chains[key], key) && InStore(s.store, c);
      FindIsUnique(ItemsOf(s.store, c.id.client), c.id.client, c.id, c);
    }
  }

  lemma MarkKeepsPlaced(s: DocState, dead: set<Id>)
    requires Placed(s)
    ensures Placed(s.(dead := dead))
  {
  }

  /** The holding of a document after these items of a list were marked. */
  ghost method HoldMarks(d: Doc, key: Key, cells: seq<Cell>)
    requires Coherent(d.held, d.store.clients, d.ds) && Inv(d.held.view) && Placed(d.held.view)
    requires SaysTrue(d.held.says) && ParentsAre(d.held.says.Keys, d.share) && ListsLinked(d.held.lists, d.held.says.Keys)
    requires LooseApart(d.held.says.Keys) && HeadsAre(d.share, d.held.lists)
    requires FlagsAre(d.held.says.Keys, d.held.view.dead + IdsOf(cells)) && forall c :: c in cells ==> c in ChainOf(d.held.view.chains, key)
    modifies d`held
    ensures d.Valid() && d.held == old(d.held).(view := old(d.held.view).(dead := old(d.held.view.dead) + IdsOf(cells)))
  {
    hide StoreIs, ItemsAre, ListsAre, SaysTrue, FlagsAre, ListsLinked, LooseApart, HeadsAre, ParentsAre, Inv, Placed, IdsOf;
    MarkKeepsInv(d.held.view, key, cells);
    MarkKeepsPlaced(d.held.view, d.held.view.dead + IdsOf(cells));
    d.held := d.held.(view := d.held.view.(dead := d.held.view.dead + IdsOf(cells)));
  }

  /** The marking of Array.Delete. */
  method DeleteListed(d: Doc, a: SharedType, tx: Transaction, index: nat, length: nat)
    requires d.Valid() && IsArray(d, a)
    modifies d`held, tx`pendingDeletes, d.held.says.Keys`deleted
    ensures var doomed := Doomed(old(d.held.view), a.name, index, length);
            && d.Valid() && d.held == old(d.held).(view := old(d.held.view).(dead := old(d.held.view.dead) + IdsOf(doomed)))
            && IdsIn(tx.pendingDeletes) == IdsIn(old(tx.pendingDeletes)) + IdSeq(doomed)
    ensures Added(tx.pendingDeletes, old(tx.pendingDeletes), d.held.says.Keys)
  {
    hide StoreIs, ItemsAre, ListsAre, SaysTrue, FlagsAre, ListsLinked, LooseApart, HeadsAre, ParentsAre, Inv, Placed, Added;
    hide IdsOf, IdSeq, IdsIn, Visible, IsList, DoomedTo;
    ghost var h, key := d.held, ArrayKey(a.name);
    ghost var nodes, chain := ListAt(h.lists, key), ChainOf(h.view.chains, key);
    ghost var doomed := Doomed(h.view, a.name, index, length);
    DoomedIs(h.view, a.name, index, length);
    DoomedBefore(chain, h.view.dead, index, length, |chain|);
    ArrayList(d, a);
    ListNodes(d, key);
    DeleteNodes(a, tx, index, length, h, nodes, chain);
    HoldMarks(d, key, doomed);
  }

  lemma DoomedIs(s: DocState, name: Name, index: nat, length: nat)
    ensures var chain := ChainOf(s.chains, ArrayKey(name));
            Doomed(s, name, index, length) == DoomedTo(chain, s.dead, index, length, |chain|) && chain[..|chain|] == chain
  {
    var chain := ChainOf(s.chains, ArrayKey(name));
    assert chain[..|chain|] == chain;
  }

  /** Array.Delete: the document and the transaction become what Delete makes of them. */
  method Delete(d: Doc, a: SharedType, tx: Transaction, index: nat, length: nat, ghost t: Tx)
    requires d.Valid() && IsArray(d, a) && Stage(d, tx, t)
    modifies d`held, tx`pendingDeletes, d.held.says.Keys`deleted
    ensures d.Valid() && Stage(d, tx, Authoring.Delete(t, a.name, index, length)) && d.held.says == old(d.held.says)
    ensures Added(tx.pendingDeletes, old(tx.pendingDeletes), d.held.says.Keys)
  {
    hide Coherent, Embodied, Inv, Placed, IdsOf, IdSeq, IdsIn, Doomed, Says, Added;
    AddedNone(tx.pendingDeletes, d.held.says.Keys);
    if length == 0 {
      NothingDeleted(t, a.name, index);
      return;
    }
    ghost var items := Says(tx.pendingItems);
    DeleteListed(d, a, tx, index, length);
    assert Says(tx.pendingItems) == items;
  }
}
