/** delete.go on the objects: splitAtClock, insertIntoStore and applyDeleteRange. */
module RangeDeleter {
  import opened Wrappers
  import opened Ids
  import opened Cells
  import opened Integration
  import opened Deletion
  import opened Exactness
  import opened Items
  import opened Linking
  import opened Docs
  import opened Integrator

  // What a split does to a holding.

  /** The index of an item in a sequence, or the length of the sequence. */
  ghost function PositionOf(list: seq<Item>, it: Item): (i: nat)
    ensures i <= |list| && (i < |list| ==> list[i] == it) && (i == |list| ==> it !in list)
  {
    if list == [] || list[0] == it then 0 else 1 + PositionOf(list[1..], it)
  }

  /** A list after an item was split: the new item follows the old one. */
  ghost function After(list: seq<Item>, it: Item, right: Item): seq<Item> {
    var i := PositionOf(list, it);
    if i < |list| then InsertAt(list, i + 1, right) else list
  }

  ghost function AfterAll(lists: ItemLists, it: Item, right: Item): (t: ItemLists)
    ensures t.Keys == lists.Keys && forall k :: k in t ==> t[k] == After(lists[k], it, right)
  {
    map k | k in lists :: After(lists[k], it, right)
  }

  ghost function SplitSays(says: Saying, it: Item, right: Item, at: Id): Saying
    requires it in says && Divides(says[it], at)
  {
    says[it := LeftPart(says[it], at)][right := RightPart(says[it], at)]
  }

  /** The item is the only one that the clock divides. */
  ghost predicate Single(says: Saying, it: Item, right: Item, at: Id) {
    && it in says && right !in says && Divides(says[it], at)
    && forall i :: i in says && Divides(says[i], at) ==> i == it
  }

  lemma SplitSpells(says: Saying, list: seq<Item>, cells: seq<Cell>, it: Item, right: Item, at: Id)
    requires Single(says, it, right, at) && Spell(says, list, cells) && Distinct(list)
    ensures Spell(SplitSays(says, it, right, at), After(list, it, right), SplitSeq(cells, at))
  {
    hide LeftPart, RightPart, Divides;
    var j := PositionOf(list, it);
    var t := SplitSays(says, it, right, at);
    if j < |list| {
      assert forall i :: 0 <= i < |list| && i != j ==> list[i] != it;
      SplitSeqIs(cells, at, j);
      var parted := cells[j := LeftPart(cells[j], at)];
      assert Spell(t, list, parted);
      assert Spell(t, InsertAt(list, j + 1, right), InsertAt(parted, j + 1, t[right]));
    } else {
      SplitSeqNone(cells, at);
    }
  }

  lemma SpellDistinct(says: Saying, list: seq<Item>, cells: seq<Cell>)
    requires Spell(says, list, cells) && DistinctIds(cells)
    ensures Distinct(list)
  {
  }

  /** getItem of the split clock found the item, so no other is divided. */
  lemma IsSingle(h: Holding, it: Item, right: Item, at: Id)
    requires ItemsAre(h.says, h.view.store) && StoreSorted(h.view.store) && it in h.says && right !in h.says
    requires Lookup(h.view.store, at) == Some(h.says[it]) && Divides(h.says[it], at)
    ensures Single(h.says, it, right, at)
  {
    hide Find;
    forall i | i in h.says && Divides(h.says[i], at) ensures i == it {
      FindIsUnique(ItemsOf(h.view.store, at.client), at.client, at, h.says[i]);
    }
  }

  ghost function SplitHolding(h: Holding, it: Item, right: Item, at: Id): Holding
    requires it in h.says && Divides(h.says[it], at)
  {
    Holding(SplitSays(h.says, it, right, at), AfterAll(h.lists, it, right), SplitAt(h.view, at))
  }

  lemma SplitStoreIs(clients: map<nat, seq<Item>>, cells: Store, says: Saying, it: Item, right: Item, at: Id)
    requires StoreIs(clients, cells, says) && Single(says, it, right, at) && StoreSorted(cells) && at.client in clients
    ensures StoreIs(clients[at.client := After(clients[at.client], it, right)],
                    cells[at.client := SplitSeq(cells[at.client], at)], SplitSays(says, it, right, at))
  {
    hide SplitSeq, LeftPart, RightPart;
    var t := SplitSays(says, it, right, at);
    forall k | k in clients && k != at.client ensures Spell(t, clients[k], cells[k]) {
      assert Spell(says, clients[k], cells[k]) && Sorted(cells[k], k);
    }
    assert Spell(says, clients[at.client], cells[at.client]) && Sorted(cells[at.client], at.client);
    SpellDistinct(says, clients[at.client], cells[at.client]);
    SplitSpells(says, clients[at.client], cells[at.client], it, right, at);
  }

  lemma SplitItemsAre(h: Holding, it: Item, right: Item, at: Id)
    requires ItemsAre(h.says, h.view.store) && Single(h.says, it, right, at) && StoreSorted(h.view.store)
    requires right.id == at && Lookup(h.view.store, at) == Some(h.says[it]) && Sized(h.says[it])
    ensures ItemsAre(SplitSays(h.says, it, right, at), SplitAt(h.view, at).store)
  {
    hide Find, LeftPart, RightPart, SplitAt, StoreSorted, Sized;
    PartsFit(h.says[it], at);
    SplitLookup(h.view, at, at);
    var t := SplitSays(h.says, it, right, at);
    forall i | i in t ensures t[i].id == i.id && Lookup(SplitAt(h.view, at).store, i.id) == Some(t[i]) {
      SplitLookup(h.view, at, i.id);
    }
    forall i, j | i in t && j in t && i.id == j.id ensures i == j {
    }
  }

  lemma SplitListsAre(h: Holding, it: Item, right: Item, at: Id)
    requires ListsAre(h.lists, h.view.chains, h.says) && Single(h.says, it, right, at) && Inv(h.view)
    ensures ListsAre(AfterAll(h.lists, it, right), SplitChains(h.view.chains, at), SplitSays(h.says, it, right, at))
  {
    hide SplitSeq, LeftPart, RightPart, Find, After;
    forall k | k in h.lists
      ensures Spell(SplitSays(h.says, it, right, at), After(h.lists[k], it, right), SplitSeq(h.view.chains[k], at))
    {
      assert ChainOk(h.view.store, h.view.chains[k], k);
      SpellDistinct(h.says, h.lists[k], h.view.chains[k]);
      SplitSpells(h.says, h.lists[k], h.view.chains[k], it, right, at);
    }
  }

  lemma SplitCoherent(h: Holding, clients: map<nat, seq<Item>>, ds: DeleteSet, it: Item, right: Item, at: Id)
    requires Coherent(h, clients, ds) && Inv(h.view) && it in h.says && right !in h.says && right.id == at
    requires Lookup(h.view.store, at) == Some(h.says[it]) && Divides(h.says[it], at)
    ensures Coherent(SplitHolding(h, it, right, at), clients[at.client := After(Slice(clients, at.client), it, right)], ds)
  {
    hide Find, SplitSeq, LeftPart, RightPart, StoreIs, ItemsAre, ListsAre, After, Single;
    assert Sized(h.says[it]) && StoreSorted(h.view.store) && at.client in h.view.store;
    assert at.client in clients by { StoreKeys(clients, h.view.store, h.says); }
    IsSingle(h, it, right, at);
    SplitStoreIs(clients, h.view.store, h.says, it, right, at);
    SplitItemsAre(h, it, right, at);
    SplitListsAre(h, it, right, at);
  }

  lemma StoreKeys(clients: map<nat, seq<Item>>, cells: Store, says: Saying)
    requires StoreIs(clients, cells, says)
    ensures clients.Keys == cells.Keys
  {
  }

  lemma SplitKeepsPlaced(s: DocState, at: Id)
    requires Inv(s) && Placed(s)
    ensures Placed(SplitAt(s, at))
  {
    hide Find, LeftPart, RightPart, SplitSeq;
    var e, t := Lookup(s.store, at), SplitAt(s, at);
    if e.Some? && Divides(e.value, at) {
      var items := ItemsOf(s.store, at.client);
      assert Sorted(items, at.client);
      PartsFit(e.value, at);
      forall d | InStore(s.store, d) && Covers(d, at) ensures d == e.value {
        FindIsUnique(items, at.client, at, d);
      }
      SplitMembers(items, at, e.value);
      forall c | InStore(t.store, c) && c.home.Some? && !IsEntry(c) ensures c in ChainOf(t.chains, KeyOf(c)) {
        var chain := ChainOf(s.chains, KeyOf(c));
        assert ChainOk(s.store, chain, KeyOf(c));
        SplitMembers(chain, at, e.value);
      }
    }
  }

  // What a split does to the objects.

  /** The new item may be linked after the old one: it is in one list at most, and lists and loose items do not mix. */
  ghost predicate MayLink(h: Holding, it: Item, key: Key)
    reads it`parent, h.says.Keys`parent
  {
    && it in h.says
    && (forall k, n :: k in h.lists && n in h.lists[k] ==> n in h.says && n.parent != null)
    && (forall k, n :: k in h.lists && k != key && n in h.lists[k] ==> n !in ListAt(h.lists, key))
    && (it.parent != null ==> it in ListAt(h.lists, key))
  }

  ghost function Next(it: Item): set<Item>
    reads it`right
  {
    if it.right == null then {} else {it.right}
  }

  /** Put a new item to the right of another: the four pointers of a split. */
  method LinkRight(it: Item, right: Item)
    requires it != right && it.right != right && it.right != it
    modifies it`right, right`left, right`right, Next(it)`left
    ensures right.left == it && right.right == old(it.right) && it.right == right
    ensures old(it.right) != null ==> old(it.right).left == right
  {
    right.left := it;
    right.right := it.right;
    if it.right != null {
      it.right.left := right;
    }
    it.right := right;
  }

  /** The list of the item, if it is in one, makes room for the new item. */
  method LinkInto(it: Item, right: Item, ghost nodes: seq<Item>, ghost p: nat)
    requires it != right && it.right != right && it.right != it
    requires nodes != [] ==> Linked(nodes) && right !in nodes && 0 < p <= |nodes| && nodes[p - 1] == it
    modifies it`right, right`left, right`right, Next(it)`left
    ensures right.left == it && right.right == old(it.right) && it.right == right
    ensures old(it.right) != null ==> old(it.right).left == right
    ensures nodes != [] ==> Linked(InsertAt(nodes, p, right))
  {
    if nodes != [] { assert Joined(nodes, p - 1); }
    LinkRight(it, right);
    if nodes != [] {
      forall i | 0 <= i < |nodes| ensures Spread(nodes, i, p, right) {
        assert old(Joined(nodes, i)) && nodes[i] in nodes;
      }
      LinkedAfterInsert(nodes, p, right);
    }
  }

  /** The list that holds the item, or nothing if it is in none. */
  ghost function ListWith(lists: ItemLists, key: Key, it: Item): seq<Item> {
    if it in ListAt(lists, key) then ListAt(lists, key) else []
  }

  /** The right neighbour of an item is next in its list, or loose like the item. */
  lemma NextIs(h: Holding, it: Item, right: Item, key: Key)
    requires ListsLinked(h.lists, h.says.Keys) && LooseApart(h.says.Keys) && MayLink(h, it, key)
    requires right !in h.says && right.parent == it.parent
    ensures it.right != null ==> it.right in h.says && it.right != it && (it.right.parent == null <==> it.parent == null)
    ensures forall k, n :: k in h.lists && n in h.lists[k] && it !in h.lists[k] ==> n != it && n != it.right
    ensures var nodes := ListWith(h.lists, key, it);
            nodes != [] ==> key in h.lists && Linked(nodes) && right !in nodes && it in nodes
  {
    var nodes := ListWith(h.lists, key, it);
    if nodes != [] {
      var j := PositionOf(nodes, it);
      assert key in h.lists && Linked(h.lists[key]) && Joined(nodes, j);
      if j + 1 < |nodes| { assert nodes[j] != nodes[j + 1] && nodes[j + 1] in nodes; }
    } else {
      assert it.parent == null ==> IsLoose(h.says.Keys, it);
    }
  }

  /** After the split every list is linked, the split one with the new item. */
  method LinkLists(it: Item, right: Item, ghost lists: ItemLists, ghost nodes: seq<Item>)
    requires it != right && it.right != right && it.right != it
    requires nodes != [] ==> Linked(nodes) && right !in nodes && it in nodes
    requires forall k :: k in lists ==> Linked(lists[k]) && right !in lists[k] && (it in lists[k] ==> lists[k] == nodes)
    requires forall k, n :: k in lists && n in lists[k] && it !in lists[k] ==> n != it && n != it.right
    modifies it`right, right`left, right`right, Next(it)`left
    ensures forall k :: k in lists ==> Linked(After(lists[k], it, right))
    ensures right.left == it && right.right == old(it.right) && it.right == right
    ensures old(it.right) != null ==> old(it.right).left == right
  {
    ghost var p := if nodes == [] then 0 else PositionOf(nodes, it) + 1;
    LinkInto(it, right, nodes, p);
    forall k | k in lists ensures Linked(After(lists[k], it, right)) {
      var list := lists[k];
      assert old(Linked(list));
      if it !in list {
        forall i | 0 <= i < |list| ensures Joined(list, i) {
          assert old(Joined(list, i)) && list[i] in list;
        }
      }
    }
  }

  /** And the items without a parent stay apart. */
  method LinkAfter(it: Item, right: Item, ghost h: Holding, ghost key: Key)
    requires ListsLinked(h.lists, h.says.Keys) && LooseApart(h.says.Keys) && MayLink(h, it, key)
    requires right !in h.says && right.parent == it.parent
    modifies it`right, right`left, right`right, h.says.Keys`left
    ensures ListsLinked(AfterAll(h.lists, it, right), h.says.Keys + {right})
    ensures LooseApart(h.says.Keys + {right})
  {
    hide Linked, Spell;
    ghost var items := h.says.Keys;
    NextIs(h, it, right, key);
    LinkLists(it, right, h.lists, ListWith(h.lists, key, it));
    forall i | i in items + {right} && i.parent == null ensures IsLoose(items + {right}, i) {
      assert i != right ==> old(IsLoose(items, i));
    }
  }

  /** insertIntoStore: shift the slice and put the item at its place in clock order. */
  method InsertIntoStore(store: StructStore, newItem: Item) returns (ghost pos: nat)
    modifies store`clients
    ensures var items := old(store.Of(newItem.id.client));
            && pos <= |items| && store.clients == old(store.clients)[newItem.id.client := InsertAt(items, pos, newItem)]
            && (forall i :: 0 <= i < pos ==> items[i].id.clock < newItem.id.clock)
            && (pos < |items| ==> items[pos].id.clock >= newItem.id.clock)
  {
    var items := store.Of(newItem.id.client);
    var p := 0;
    while p < |items| && items[p].id.clock < newItem.id.clock
      invariant p <= |items|
      invariant forall i :: 0 <= i < p ==> items[i].id.clock < newItem.id.clock
    {
      p := p + 1;
    }
    items := items[..p] + [newItem] + items[p..];
    store.clients := store.clients[newItem.id.client := items];
    pos := p;
  }

  /** The place in clock order of the new part is just after the other part. */
  lemma PlaceOfPart(says: Saying, list: seq<Item>, cells: seq<Cell>, it: Item, at: Id, pos: nat)
    requires Spell(says, list, cells) && Sorted(cells, at.client) && it in list && Divides(says[it], at) && Sized(says[it])
    requires forall i :: i in says ==> says[i].id == i.id
    requires pos <= |list| && (forall i :: 0 <= i < pos ==> list[i].id.clock < at.clock)
    requires pos < |list| ==> list[pos].id.clock >= at.clock
    ensures pos == PositionOf(list, it) + 1
  {
    var j := PositionOf(list, it);
    assert cells[j] == says[it] && cells[j].id.clock < at.clock < End(cells[j]);
    assert forall i :: 0 <= i < |list| ==> list[i].id == cells[i].id;
    assert forall i :: 0 <= i <= j ==> list[i].id.clock < at.clock;
    assert forall i :: j < i < |list| ==> list[i].id.clock > at.clock;
    assert j + 1 < |list| ==> list[j + 1].id.clock > at.clock;
  }

  /** Truncate the item to its left part and make the right part, not linked yet. */
  method Halve(it: Item, at: Id) returns (right: Item)
    requires Divides(it.AsCell(), at) && (it.parent == null ==> it.parentName.None?)
    modifies it`content, it`length
    ensures fresh(right) && right.id == at && right.parent == it.parent && !right.deleted && right.left == null && right.right == null
    ensures right.parent == null ==> right.parentName.None?
    ensures it.AsCell() == LeftPart(old(it.AsCell()), at) && right.AsCell() == RightPart(old(it.AsCell()), at)
  {
    var offset := at.clock - it.id.clock;
    var text := it.content.text;
    it.content, it.length := Str(text[..offset]), offset;
    right := new Item(at, Some(Id(at.client, at.clock - 1)), None, None, None, it.parent, Str(text[offset..]), |text[offset..]|);
  }

  lemma AfterKeepsHeads(share: Share, lists: ItemLists, it: Item, right: Item)
    requires HeadsAre(share, lists)
    ensures HeadsAre(share, AfterAll(lists, it, right))
  {
    forall k: Key | FitsKind(share, k) ensures share[k.name].First(k.sub) == HeadOf(ListAt(AfterAll(lists, it, right), k)) {
      assert share[k.name].First(k.sub) == HeadOf(ListAt(lists, k));
    }
  }

  /** An item with a parent that is no map entry is in the list of its key. */
  lemma ItemListed(h: Holding, it: Item)
    requires ListsAre(h.lists, h.view.chains, h.says) && ItemsAre(h.says, h.view.store) && Placed(h.view) && Inv(h.view)
    requires it in h.says && h.says[it].home.Some? && !IsEntry(h.says[it])
    ensures it in ListAt(h.lists, KeyOf(h.says[it]))
  {
    hide Find, Inv;
    var k := KeyOf(h.says[it]);
    var nodes, cells := ListAt(h.lists, k), ChainOf(h.view.chains, k);
    assert InStore(h.view.store, h.says[it]);
    var i :| 0 <= i < |cells| && cells[i] == h.says[it];
    assert nodes[i] in nodes && h.says[nodes[i]] == h.says[it];
  }

  /** The item that was found may be split: its list, if it has a parent, is that of its key. */
  lemma Splittable(h: Holding, share: Share, it: Item, key: Key)
    requires ListsAre(h.lists, h.view.chains, h.says) && ItemsAre(h.says, h.view.store) && Placed(h.view) && Inv(h.view)
    requires SaysTrue(h.says) && ParentsAre(h.says.Keys, share) && it in h.says && !IsEntry(h.says[it])
    requires it.parent != null ==> h.says[it].home.Some? && key == KeyOf(h.says[it])
    ensures MayLink(h, it, key)
  {
    hide Find, Inv;
    forall k, n | k in h.lists && n in h.lists[k] ensures n in h.says && n.parent != null {
      NodeKey(h, k, n);
    }
    ListsDisjoint(h, key);
    if it.parent != null { ItemListed(h, it); }
  }

  /** The objects after a split, given what became of their links. */
  lemma SplitEmbodied(h: Holding, share: Share, it: Item, right: Item, at: Id)
    requires it in h.says && right !in h.says && Divides(h.says[it], at) && at !in h.view.dead && right.id == at && !right.deleted
    requires it.AsCell() == LeftPart(h.says[it], at) && right.AsCell() == RightPart(h.says[it], at)
    requires forall i :: i in h.says && i != it ==> i.AsCell() == h.says[i]
    requires FlagsAre(h.says.Keys, h.view.dead) && ParentsAre(h.says.Keys, share) && HasParent(right, share)
    requires ListsLinked(AfterAll(h.lists, it, right), h.says.Keys + {right}) && LooseApart(h.says.Keys + {right})
    requires HeadsAre(share, h.lists)
    ensures Embodied(SplitHolding(h, it, right, at), share)
  {
    hide LeftPart, RightPart, AfterAll, ListsLinked, LooseApart, HeadsAre, SplitAt, HasParent;
    assert SplitSays(h.says, it, right, at).Keys == h.says.Keys + {right};
    AfterKeepsHeads(share, h.lists, it, right);
    SplitKeepsDead(h.view, at);
  }

  lemma SplitKeepsDead(s: DocState, at: Id)
    ensures SplitAt(s, at).dead == s.dead && SplitAt(s, at).ds == s.ds
  {
  }

  lemma DividedText(c: Cell, at: Id)
    requires Divides(c, at)
    ensures !IsEntry(c) && c.content.Str?
  {
  }

  /** The two halves of an item and their links, in place. */
  method SplitInPlace(d: Doc, it: Item, at: Id) returns (right: Item)
    requires d.Valid() && it in d.held.says && Divides(d.held.says[it], at) && at !in d.held.view.dead
    modifies it`content, it`length, d.held.says.Keys`left, d.held.says.Keys`right
    ensures fresh(right) && right.id == at
    ensures Embodied(SplitHolding(d.held, it, right, at), d.share)
  {
    hide StoreIs, ItemsAre, ListsAre, ListsLinked, LooseApart, HeadsAre, Inv, Placed, LeftPart, RightPart, MayLink, SplitHolding;
    hide Find, AfterAll, Divides;
    ghost var h, c := d.held, d.held.says[it];
    assert HasParent(it, d.share) && it.AsCell() == c;
    DividedText(c, at);
    ghost var key := if it.parent == null then Key([], None) else KeyOf(c);
    Splittable(h, d.share, it, key);
    right := Halve(it, at);
    LinkAfter(it, right, h, key);
    SplitEmbodied(h, d.share, it, right, at);
  }

  /** The stored item of an ID is in the slice of its client. */
  lemma InSlice(says: Saying, list: seq<Item>, cells: seq<Cell>, it: Item)
    requires Spell(says, list, cells) && it in says && says[it] in cells
    requires forall i, j :: i in says && j in says && i.id == j.id ==> i == j
    requires forall i :: i in says ==> says[i].id == i.id
    ensures it in list
  {
    var i :| 0 <= i < |cells| && cells[i] == says[it];
    assert list[i] in list && says[list[i]].id == says[it].id;
  }

  /** The insertion in clock order puts the new part right after the old one. */
  lemma InsertedAfter(h: Holding, clients: map<nat, seq<Item>>, it: Item, at: Id, right: Item, pos: nat)
    requires StoreIs(clients, h.view.store, h.says) && ItemsAre(h.says, h.view.store) && StoreSorted(h.view.store)
    requires it in h.says && Lookup(h.view.store, at) == Some(h.says[it]) && Divides(h.says[it], at)
    requires var items := Slice(clients, at.client);
             pos <= |items| && (forall i :: 0 <= i < pos ==> items[i].id.clock < at.clock)
             && (pos < |items| ==> items[pos].id.clock >= at.clock)
    ensures at.client in clients && InsertAt(clients[at.client], pos, right) == After(clients[at.client], it, right)
  {
    hide Find, Divides, InsertAt, Spell;
    assert at.client in clients;
    var list, cells := clients[at.client], h.view.store[at.client];
    assert Sorted(cells, at.client) && Spell(h.says, list, cells);
    InSlice(h.says, list, cells, it);
    PlaceOfPart(h.says, list, cells, it, at, pos);
  }

  /** The clock a split divides at is the start of no item, so it is not marked. */
  lemma NotMarked(s: DocState, at: Id)
    requires Inv(s) && Lookup(s.store, at).Some? && Divides(Lookup(s.store, at).value, at)
    ensures at !in s.dead
  {
    hide Find;
  }

  /** The item that splitAtClock divides: nil if no item covers the clock, or none has to be or can be divided. */
  method FindSplit(d: Doc, at: Id) returns (it: Item?)
    requires d.Valid()
    ensures it == null ==> SplitAt(d.held.view, at) == d.held.view
    ensures it != null ==> it in d.held.says && Lookup(d.held.view.store, at) == Some(d.held.says[it]) && Divides(d.held.says[it], at)
  {
    hide Find, ItemsAre, StoreIs, ListsAre, FlagsAre, ListsLinked, LooseApart, HeadsAre, ParentsAre, Placed;
    it := FindItem(d.store, at, d.held);
    if it == null || it.id.clock == at.clock || !it.content.Str? {
      return null;
    }
    var offset := at.clock - it.id.clock;
    if offset >= |it.content.text| {
      return null;
    }
  }

  /** Register the new part in the store. */
  method StoreRight(d: Doc, it: Item, at: Id, right: Item)
    requires Coherent(d.held, d.store.clients, d.ds) && Inv(d.held.view) && Placed(d.held.view)
    requires it in d.held.says && Lookup(d.held.view.store, at) == Some(d.held.says[it]) && Divides(d.held.says[it], at)
    requires right !in d.held.says && right.id == at && Embodied(SplitHolding(d.held, it, right, at), d.share)
    modifies d`held, d.store`clients
    ensures d.Valid() && d.held == SplitHolding(old(d.held), it, right, at)
  {
    hide Find, StoreIs, ItemsAre, ListsAre, Inv, Placed, SplitSeq, Embodied, After, AfterAll, LeftPart, RightPart, SplitAt;
    ghost var h, clients := d.held, d.store.clients;
    InvSorted(h.view);
    SplitCoherent(h, clients, d.ds, it, right, at);
    SplitKeepsInv(h.view, at);
    SplitKeepsPlaced(h.view, at);
    ghost var pos := InsertIntoStore(d.store, right);
    InsertedAfter(h, clients, it, at, right, pos);
    d.held := SplitHolding(h, it, right, at);
  }

  /** splitAtClock: the document becomes what SplitAt makes of its state. */
  method SplitAtClock(d: Doc, client: nat, clock: nat)
    requires d.Valid()
    modifies d`held, d.store`clients, d.held.says.Keys
    ensures d.Valid() && d.held.view == SplitAt(old(d.held.view), Id(client, clock))
    ensures old(d.held.says.Keys) <= d.held.says.Keys && fresh(d.held.says.Keys - old(d.held.says.Keys))
  {
    hide Find, StoreIs, ItemsAre, ListsAre, FlagsAre, ListsLinked, LooseApart, HeadsAre, ParentsAre, Inv, Placed, SplitSeq, Embodied, Coherent;
    var it := FindSplit(d, Id(client, clock));
    if it == null { return; }
    NotMarked(d.held.view, Id(client, clock));
    var right := SplitInPlace(d, it, Id(client, clock));
    StoreRight(d, it, Id(client, clock), right);
  }

  /** The first n items of a client, as far as they start in the range, are marked in addition. */
  ghost predicate MarkedTo(says: Saying, items: seq<Item>, n: nat, dead: set<Id>, clock: nat)
    requires n <= |items|
    reads says.Keys`deleted
  {
    forall i :: i in says ==> (i.deleted <==> i.id in dead || (i in items[..n] && clock <= i.id.clock))
  }

  /** The items before the end of the range are the first ones of the slice. */
  lemma FirstOnes(says: Saying, items: seq<Item>, cells: seq<Cell>, n: nat, client: nat, end: nat)
    requires Spell(says, items, cells) && Sorted(cells, client) && n <= |items|
    requires forall i :: i in says ==> says[i].id == i.id
    requires forall i :: 0 <= i < n ==> items[i].id.clock < end
    requires n < |items| ==> items[n].id.clock >= end
    ensures forall k :: 0 <= k < |items| ==> cells[k].id == items[k].id && (k < n <==> cells[k].id.clock < end)
  {
    assert n < |items| ==> says[items[n]] == cells[n];
    forall k | 0 <= k < |items| ensures cells[k].id == items[k].id && (k < n <==> cells[k].id.clock < end) {
      assert says[items[k]] == cells[k];
    }
  }

  /** They are those whose cells MarkRange marks. */
  lemma MarkedIs(h: Holding, items: seq<Item>, n: nat, client: nat, r: Range, i: Item)
    requires Spell(h.says, items, ItemsOf(h.view.store, client)) && ItemsAre(h.says, h.view.store) && n <= |items| && i in h.says
    requires var cells := ItemsOf(h.view.store, client);
             forall k :: 0 <= k < |items| ==> cells[k].id == items[k].id && (k < n <==> cells[k].id.clock < r.clock + r.len)
    ensures i.id in MarkRange(h.view, client, r).dead <==> i.id in h.view.dead || (i in items[..n] && r.clock <= i.id.clock)
  {
    hide Find;
    var cells := ItemsOf(h.view.store, client);
    if i in items[..n] && r.clock <= i.id.clock {
      var k :| 0 <= k < n && items[k] == i;
      assert cells[k] in cells && InRange(r, cells[k].id.clock);
    }
    if i.id in MarkRange(h.view, client, r).dead && i.id !in h.view.dead {
      var c :| c in cells && InRange(r, c.id.clock) && c.id == i.id;
      var k :| 0 <= k < |cells| && cells[k] == c;
      assert items[k] in h.says && items[k] == i && items[k] == items[..n][k];
    }
  }

  lemma MarkedAll(h: Holding, items: seq<Item>, n: nat, client: nat, r: Range)
    requires Spell(h.says, items, ItemsOf(h.view.store, client)) && ItemsAre(h.says, h.view.store) && StoreSorted(h.view.store)
    requires n <= |items| && MarkedTo(h.says, items, n, h.view.dead, r.clock)
    requires forall i :: 0 <= i < n ==> items[i].id.clock < r.clock + r.len
    requires n < |items| ==> items[n].id.clock >= r.clock + r.len
    ensures FlagsAre(h.says.Keys, MarkRange(h.view, client, r).dead)
  {
    hide Find, MarkRange, Sorted, Spell;
    assert Sorted(ItemsOf(h.view.store, client), client) by { NoneSorted(client); }
    FirstOnes(h.says, items, ItemsOf(h.view.store, client), n, client, r.clock + r.len);
    forall i | i in h.says ensures i.deleted <==> i.id in MarkRange(h.view, client, r).dead {
      MarkedIs(h, items, n, client, r, i);
    }
  }

  lemma NoneSorted(client: nat)
    ensures Sorted([], client)
  {
  }

  /** The marking loop of applyDeleteRange, over the items of a client in clock order. */
  method MarkItems(items: seq<Item>, clock: nat, endClock: nat, ghost h: Holding) returns (ghost n: nat)
    requires FlagsAre(h.says.Keys, h.view.dead) && Distinct(items) && forall i :: i in items ==> i in h.says
    modifies h.says.Keys`deleted
    ensures n <= |items| && MarkedTo(h.says, items, n, h.view.dead, clock)
    ensures forall i :: 0 <= i < n ==> items[i].id.clock < endClock
    ensures n < |items| ==> items[n].id.clock >= endClock
  {
    var k := 0;
    while k < |items|
      invariant k <= |items| && MarkedTo(h.says, items, k, h.view.dead, clock)
      invariant forall i :: 0 <= i < k ==> items[i].id.clock < endClock
    {
      var it := items[k];
      if it.id.clock >= endClock { break; }
      assert it in h.says && items[..k + 1] == items[..k] + [it];
      if it.id.clock >= clock && !it.deleted {
        it.deleted := true;
      }
      k := k + 1;
    }
    n := k;
  }

  lemma SliceSpells(h: Holding, clients: map<nat, seq<Item>>, client: nat)
    requires StoreIs(clients, h.view.store, h.says) && StoreSorted(h.view.store)
    ensures Spell(h.says, Slice(clients, client), ItemsOf(h.view.store, client)) && Distinct(Slice(clients, client))
    ensures forall i :: i in Slice(clients, client) ==> i in h.says
  {
    assert Sorted(ItemsOf(h.view.store, client), client);
    SpellDistinct(h.says, Slice(clients, client), ItemsOf(h.view.store, client));
  }

  /** Mark what starts in the range. */
  method MarkStored(d: Doc, client: nat, clock: nat, length: nat)
    requires d.Valid()
    modifies d`held, d.held.says.Keys`deleted
    ensures d.Valid() && d.held.view == MarkRange(old(d.held.view), client, Range(clock, length))
    ensures d.held.says == old(d.held.says)
  {
    hide Find, StoreIs, ItemsAre, ListsAre, FlagsAre, ListsLinked, LooseApart, HeadsAre, ParentsAre;
    hide Inv, Placed, MarkedTo, SaysTrue, Spell, Distinct, StoreSorted, MarkRange;
    ghost var h := d.held;
    var items := d.store.Of(client);
    InvSorted(h.view);
    SliceSpells(h, d.store.clients, client);
    ghost var n := MarkItems(items, clock, clock + length, h);
    MarkedAll(h, items, n, client, Range(clock, length));
    MarkUnit(h.view, client, Range(clock, length), Id(client, clock));
    MarkKeepsPlaced(h.view, client, Range(clock, length));
    MarkKeepsStore(h.view, client, Range(clock, length));
    d.held := h.(view := MarkRange(h.view, client, Range(clock, length)));
  }

  lemma MarkKeepsPlaced(s: DocState, client: nat, r: Range)
    requires Placed(s)
    ensures Placed(MarkRange(s, client, r))
  {
  }

  /** applyDeleteRange: the document becomes what ApplyRange makes of its state. */
  method ApplyDeleteRange(d: Doc, client: nat, clock: nat, length: nat)
    requires d.Valid()
    modifies d`held, d.store`clients, d.held.says.Keys
    ensures d.Valid() && d.held.view == ApplyRange(old(d.held.view), client, Range(clock, length))
    ensures old(d.held.says.Keys) <= d.held.says.Keys && fresh(d.held.says.Keys - old(d.held.says.Keys))
  {
    hide SplitAt, MarkRange, Coherent, Embodied, Inv, Placed;
    SplitAtClock(d, client, clock);
    SplitAtClock(d, client, clock + length);
    MarkStored(d, client, clock, length);
  }
}
