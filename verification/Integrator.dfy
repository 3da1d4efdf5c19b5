/** integrate.go on the objects: integrateItem does to a document what Receive does to its state. */
module Integrator {
  import opened Wrappers
  import opened Values
  import opened Ids
  import opened Cells
  import opened Integration
  import opened Items
  import opened Linking
  import opened Docs

  /** getItem on the store of a document. */
  method FindItem(store: StructStore, id: Id, ghost h: Holding) returns (found: Item?)
    requires StoreIs(store.clients, h.view.store, h.says) && SaysTrue(h.says) && StoreSorted(h.view.store)
    ensures found == null <==> Lookup(h.view.store, id).None?
    ensures found != null ==> found in h.says && Lookup(h.view.store, id) == Some(h.says[found])
  {
    hide Find;
    ghost var cells := ItemsOf(h.view.store, id.client);
    SpellShows(h.says, store.Of(id.client), cells);
    found := store.GetItem(id, cells);
  }

  /** deleteSet.isDeleted: a loop over the ranges of the client. */
  method IsDeleted(ds: DeleteSet, id: Id) returns (yes: bool)
    ensures yes <==> InDeleteSet(ds, id)
  {
    if id.client !in ds { return false; }
    var ranges := ds[id.client];
    for i := 0 to |ranges|
      invariant forall j :: 0 <= j < i ==> !InRange(ranges[j], id.clock)
    {
      if InRange(ranges[i], id.clock) { return true; }
    }
    return false;
  }

  /** A type of the name an item carries must be of the kind that the item would create. */
  predicate Typed(share: Share, item: Item)
    reads item
  {
    item.parentName.Some? && item.parentName.value in share ==> share[item.parentName.value].kind == KindFor(item.AsCell())
  }

  /** At most one type is new: that of this name, of this kind. */
  ghost predicate Extends(before: Share, after: Share, name: Option<Name>, kind: TypeKind) {
    after == before ||
    (name.Some? && name.value !in before && name.value in after && after[name.value].kind == kind
     && after == before[name.value := after[name.value]])
  }

  /** The type of this name, created for the item if the name is new. */
  method NamedType(d: Doc, name: Name, kind: TypeKind) returns (t: SharedType)
    requires ParentsAre(d.held.says.Keys, d.share) && HeadsAre(d.share, d.held.lists)
    requires name in d.share ==> d.share[name].kind == kind
    modifies d`share
    ensures ParentsAre(d.held.says.Keys, d.share) && HeadsAre(d.share, d.held.lists)
    ensures name in d.share && d.share[name] == t && t.kind == kind && t.name == name
    ensures fresh(d.share.Values - old(d.share.Values)) && Extends(old(d.share), d.share, Some(name), kind)
  {
    if name in d.share {
      t := d.share[name];
    } else {
      t := new SharedType(name, kind);
      d.share := d.share[name := t];
    }
  }

  /** The parent of an item: the type it names, or the parent of its left origin. */
  method FindParent(d: Doc, item: Item) returns (parent: SharedType?)
    requires d.Valid() && item.parent == null && Typed(d.share, item)
    modifies d`share
    ensures d.Valid()
    ensures parent == null ==> item.parentName.None? && Resolve(d.held.view.store, item.AsCell()).None?
    ensures parent != null ==>
              parent.name in d.share && d.share[parent.name] == parent && Resolve(d.held.view.store, item.AsCell()) == Some(parent.name)
    ensures parent != null ==> parent in d.share.Values
    ensures parent != null && item.parentName.Some? ==> parent.kind == KindFor(item.AsCell())
    ensures d.held == old(d.held) && fresh(d.share.Values - old(d.share.Values))
    ensures Extends(old(d.share), d.share, item.parentName, KindFor(item.AsCell()))
  {
    hide Find, HeadsAre, ListsAre, FlagsAre, ItemsAre, ListsLinked, LooseApart, Placed, StoreIs;
    parent := null;
    if item.parentName.Some? {
      parent := NamedType(d, item.parentName.value, KindFor(item.AsCell()));
    } else if item.originLeft.Some? {
      var leftNeighbor := FindItem(d.store, item.originLeft.value, d.held);
      if leftNeighbor != null && leftNeighbor.parent != null {
        parent := leftNeighbor.parent;
      }
    }
  }

  /** The flag of a new item: deleted by its content, or covered by the delete set already. */
  method MarkIfDeleted(ds: DeleteSet, item: Item)
    requires item.deleted == item.content.Gone?
    modifies item`deleted
    ensures item.deleted == BornDead(ds, item.AsCell())
  {
    hide InDeleteSet;
    var isDeleted := IsDeleted(ds, item.id);
    if isDeleted { item.deleted := true; }
  }

  /** The state of a document between addItem and the linking. */
  function Stored(s: DocState, c: Cell, deleted: bool): DocState {
    s.(store := Append(s.store, c), dead := if deleted then s.dead + {c.id} else s.dead)
  }

  /** A new item, its parent and its flag set, enters the store. */
  method Enter(d: Doc, item: Item)
    requires d.Valid() && item !in d.held.says && Lookup(d.held.view.store, item.id).None? && item.length >= 1
    requires item.left == null && item.right == null && HasParent(item, d.share)
    modifies d.store`clients, d`held
    ensures Coherent(d.held, d.store.clients, d.ds) && Embodied(d.held, d.share)
    ensures d.held == old(Holding(d.held.says[item := item.AsCell()], d.held.lists, Stored(d.held.view, item.AsCell(), item.deleted)))
  {
    hide Find, StoreIs, ItemsAre, ListsAre, SaysTrue, FlagsAre, ParentsAre, ListsLinked, LooseApart, HeadsAre;
    hide ChainOk, StoreSorted, Placed, Append, HasParent;
    ghost var h, c := d.held, item.AsCell();
    CoherentGrows(h, d.store.clients, d.ds, item, c);
    EmbodiedGrows(h, d.share, item);
    d.store.AddItem(item);
    d.held := Holding(h.says[item := c], h.lists, Stored(h.view, c, item.deleted));
  }

  lemma ListIs(d: Doc, k: Key)
    requires ListsAre(d.held.lists, d.held.view.chains, d.held.says) && SaysTrue(d.held.says) && ListsLinked(d.held.lists, d.held.says.Keys)
    ensures Spell(d.held.says, Nodes(d, k), Chain(d, k)) && Shows(Nodes(d, k), Chain(d, k)) && Linked(Nodes(d, k))
  {
    SpellShows(d.held.says, Nodes(d, k), Chain(d, k));
  }

  /** The list of a document under a key, as nodes and as cells. */
  ghost function Nodes(d: Doc, k: Key): seq<Item>
    reads d`held
  {
    ListAt(d.held.lists, k)
  }

  ghost function Chain(d: Doc, k: Key): seq<Cell>
    reads d`held
  {
    ChainOf(d.held.view.chains, k)
  }

  /** A node of a list is the stored item of every ID that it covers. */
  lemma NodeIsStored(h: Holding, k: Key, i: nat, id: Id)
    requires ListsAre(h.lists, h.view.chains, h.says) && Inv(h.view)
    requires var nodes, chain := ListAt(h.lists, k), ChainOf(h.view.chains, k);
             i < |nodes| && i < |chain| && Covers(chain[i], id)
    ensures var n := ListAt(h.lists, k)[i]; n in h.says && Lookup(h.view.store, id) == Some(h.says[n])
  {
    var c := ChainOf(h.view.chains, k)[i];
    assert c in ChainOf(h.view.chains, k);
    FindIsUnique(ItemsOf(h.view.store, id.client), id.client, id, c);
  }

  /** getItem finds the node of the list that covers the ID, wherever it is. */
  lemma FindsNode(h: Holding, k: Key, id: Id, found: Item)
    requires ListsAre(h.lists, h.view.chains, h.says) && ItemsAre(h.says, h.view.store) && Inv(h.view)
    requires found in h.says && Lookup(h.view.store, id) == Some(h.says[found]) && h.says[found] in ChainOf(h.view.chains, k)
    ensures var i := IndexOf(ChainOf(h.view.chains, k), id); i < |ListAt(h.lists, k)| && ListAt(h.lists, k)[i] == found
  {
    hide Find, Inv;
    var i := IndexOf(ChainOf(h.view.chains, k), id);
    assert Covers(h.says[found], id);
    NodeIsStored(h, k, i, id);
  }

  /** What getItem returns for an origin: nil without one, or if it is not stored. */
  ghost predicate IsOrigin(h: Holding, origin: Option<Id>, found: Item?) {
    if origin.None? then found == null
    else if found == null then Lookup(h.view.store, origin.value).None?
    else found in h.says && Lookup(h.view.store, origin.value) == Some(h.says[found])
  }

  method FindOrigin(d: Doc, origin: Option<Id>) returns (found: Item?)
    requires StoreIs(d.store.clients, d.held.view.store, d.held.says) && SaysTrue(d.held.says) && StoreSorted(d.held.view.store)
    ensures IsOrigin(d.held, origin, found)
  {
    hide Find, StoreIs, SaysTrue, Sorted;
    found := null;
    if origin.Some? {
      found := FindItem(d.store, origin.value, d.held);
    }
  }

  /** The left origin, if it is in the list, is the node just before the start of the scan. */
  lemma LeftOriginIs(h: Holding, key: Key, origin: Option<Id>, from: Item?)
    requires ListsAre(h.lists, h.view.chains, h.says) && ItemsAre(h.says, h.view.store) && Inv(h.view)
    requires IsOrigin(h, origin, from) && (origin.Some? ==> from != null && h.says[from] in ChainOf(h.view.chains, key))
    ensures var nodes, start := ListAt(h.lists, key), Start(ChainOf(h.view.chains, key), origin);
            start <= |nodes| && from == NodeBefore(nodes, start)
  {
    hide Find, Inv;
    if origin.Some? { FindsNode(h, key, origin.value, from); }
  }

  lemma RightOriginIs(h: Holding, key: Key, item: Item, right: Item?)
    requires ListsAre(h.lists, h.view.chains, h.says) && ItemsAre(h.says, h.view.store) && Inv(h.view) && SaysTrue(h.says)
    requires IsOrigin(h, item.originRight, right)
    ensures forall n :: n in ListAt(h.lists, key) ==> (n == right <==> IsRightOrigin(item, n))
  {
    hide Find, Inv;
    var nodes := ListAt(h.lists, key);
    forall n | n in nodes ensures n == right <==> IsRightOrigin(item, n) {
      var i :| 0 <= i < |nodes| && nodes[i] == n;
      if IsRightOrigin(item, n) { NodeIsStored(h, key, i, item.originRight.value); }
    }
  }

  lemma InvSorted(s: DocState)
    requires Inv(s)
    ensures StoreSorted(s.store)
  {
  }

  lemma HeadIs(share: Share, lists: ItemLists, key: Key, parent: SharedType, sub: Option<Name>)
    requires HeadsAre(share, lists) && FitsKind(share, key) && share[key.name] == parent
    requires parent.kind == MapType ==> key.sub == sub
    ensures parent.First(sub) == HeadOf(ListAt(lists, key))
  {
  }

  /** The scan of integrateItem, from the stored left origin and up to the stored right origin. */
  method FindPlace(d: Doc, item: Item, ghost key: Key) returns (left: Item?, o: Item?, ghost p: nat)
    requires Coherent(d.held, d.store.clients, d.ds) && Embodied(d.held, d.share) && Inv(d.held.view) && item.parent != null
    requires FitsKind(d.share, key) && d.share[key.name] == item.parent
    requires item.parent.kind == MapType ==> key.sub == item.parentSub
    requires item.originLeft.Some? ==>
               var l := Lookup(d.held.view.store, item.originLeft.value); l.Some? && l.value in Chain(d, key)
    ensures p == Place(Chain(d, key), item.AsCell()) && p <= |Nodes(d, key)| == |Chain(d, key)|
    ensures left == NodeBefore(Nodes(d, key), Place(Chain(d, key), item.AsCell()))
    ensures o == NodeAt(Nodes(d, key), Place(Chain(d, key), item.AsCell()))
  {
    hide Find, Inv, FlagsAre, ParentsAre, StoreIs, ItemsAre, ListsAre, SaysTrue, ListsLinked, LooseApart, HeadsAre;
    hide Linked, Shows, Covers, FitsKind, Start, StoreSorted;
    InvSorted(d.held.view);
    var from := FindOrigin(d, item.originLeft);
    var right := FindOrigin(d, item.originRight);
    LeftOriginIs(d.held, key, item.originLeft, from);
    RightOriginIs(d.held, key, item, right);
    HeadIs(d.share, d.held.lists, key, item.parent, item.parentSub);
    ListIs(d, key);
    left, o, p := ScanRight(item, from, item.parent.First(item.parentSub), right, Nodes(d, key), Chain(d, key));
  }

  /** Different lists share no node. */
  lemma ListsDisjoint(h: Holding, key: Key)
    requires ListsAre(h.lists, h.view.chains, h.says) && Inv(h.view)
    ensures forall k, n :: k in h.lists && k != key && n in h.lists[k] ==> n !in ListAt(h.lists, key)
  {
    forall k, n | k in h.lists && k != key && n in h.lists[k] ensures n !in ListAt(h.lists, key) {
      NodeKey(h, k, n);
      if n in ListAt(h.lists, key) { NodeKey(h, key, n); }
    }
  }

  lemma NodeKey(h: Holding, k: Key, n: Item)
    requires ListsAre(h.lists, h.view.chains, h.says) && Inv(h.view) && n in ListAt(h.lists, k)
    ensures n in h.says && h.says[n].home.Some? && KeyOf(h.says[n]) == k
  {
    var nodes, cells := ListAt(h.lists, k), ChainOf(h.view.chains, k);
    var i :| 0 <= i < |nodes| && nodes[i] == n;
    assert cells[i] in cells;
  }

  /** A holding after an item went into the list of a key, at a position. */
  ghost function Spliced(h: Holding, key: Key, p: nat, item: Item): Holding
    requires p <= |ListAt(h.lists, key)| && p <= |ChainOf(h.view.chains, key)| && item in h.says
  {
    h.(lists := h.lists[key := InsertAt(ListAt(h.lists, key), p, item)],
       view := h.view.(chains := h.view.chains[key := InsertAt(ChainOf(h.view.chains, key), p, h.says[item])]))
  }

  lemma SplicedCoherent(h: Holding, clients: map<nat, seq<Item>>, ds: DeleteSet, key: Key, p: nat, item: Item)
    requires Coherent(h, clients, ds) && item in h.says
    requires p <= |ListAt(h.lists, key)| && p <= |ChainOf(h.view.chains, key)|
    ensures Coherent(Spliced(h, key, p, item), clients, ds)
  {
    hide StoreIs, ItemsAre;
    var nodes, cells := ListAt(h.lists, key), ChainOf(h.view.chains, key);
    assert Spell(h.says, nodes, cells);
    assert Spell(h.says, InsertAt(nodes, p, item), InsertAt(cells, p, h.says[item]));
  }

  /** Joining an item to one list leaves every other list linked, and the items without a parent apart. */
  method JoinAmong(item: Item, left: Item?, o: Item?, ghost h: Holding, ghost key: Key, ghost p: nat)
    requires ListsLinked(h.lists, h.says.Keys) && LooseApart(h.says.Keys) && item in h.says && item.parent != null
    requires forall k :: k in h.lists ==> item !in h.lists[k]
    requires forall k, n :: k in h.lists && k != key && n in h.lists[k] ==> n !in ListAt(h.lists, key)
    requires forall n :: n in ListAt(h.lists, key) ==> n.parent != null
    requires p <= |ListAt(h.lists, key)| && left == NodeBefore(ListAt(h.lists, key), p) && o == NodeAt(ListAt(h.lists, key), p)
    modifies item`left, item`right, ListAt(h.lists, key)`left, ListAt(h.lists, key)`right
    ensures ListsLinked(h.lists[key := InsertAt(ListAt(h.lists, key), p, item)], h.says.Keys) && LooseApart(h.says.Keys)
  {
    ghost var nodes := ListAt(h.lists, key);
    Join(item, left, o, nodes, p);
    forall k | k in h.lists && k != key ensures Linked(h.lists[k]) {
      assert old(Linked(h.lists[k]));
      forall i | 0 <= i < |h.lists[k]| ensures Joined(h.lists[k], i) {
        var n := h.lists[k][i];
        assert n in h.lists[k] && n !in nodes && n != item;
        assert n.left == old(n.left) && n.right == old(n.right);
        assert old(Joined(h.lists[k], i));
      }
    }
    forall i | i in h.says && i.parent == null ensures IsLoose(h.says.Keys, i) {
      assert old(IsLoose(h.says.Keys, i)) && i !in nodes;
    }
  }

  /** The heads after an item went into the list of its key: only the head of that list may differ. */
  lemma HeadsAfter(share: Share, lists: ItemLists, key: Key, longer: seq<Item>, parent: SharedType)
    requires FitsKind(share, key) && share[key.name] == parent && parent.First(key.sub) == HeadOf(longer)
    requires forall k :: k in lists ==> FitsKind(share, k)
    requires forall k: Key :: FitsKind(share, k) && k != key ==> share[k.name].First(k.sub) == HeadOf(ListAt(lists, k))
    ensures HeadsAre(share, lists[key := longer])
  {
  }

  lemma NodesHaveParents(h: Holding, share: Share, key: Key)
    requires ListsAre(h.lists, h.view.chains, h.says) && Inv(h.view) && SaysTrue(h.says) && ParentsAre(h.says.Keys, share)
    ensures forall n :: n in ListAt(h.lists, key) ==> n in h.says && n.parent != null
  {
    forall n | n in ListAt(h.lists, key) ensures n in h.says && n.parent != null {
      NodeKey(h, key, n);
    }
  }

  /** The relinking makes the heads those of the new lists. */
  method RelinkHeads(share: Share, parent: SharedType, item: Item, left: Item?, o: Item?, ghost h: Holding, ghost key: Key, ghost p: nat)
    requires ListsLinked(h.lists, h.says.Keys) && LooseApart(h.says.Keys) && HeadsAre(share, h.lists)
    requires item in h.says && item.parent == parent && forall n :: n in share ==> share[n].name == n
    requires forall k :: k in h.lists ==> item !in h.lists[k]
    requires forall k, n :: k in h.lists && k != key && n in h.lists[k] ==> n !in ListAt(h.lists, key)
    requires forall n :: n in ListAt(h.lists, key) ==> n.parent != null
    requires FitsKind(share, key) && share[key.name] == parent && (parent.kind == MapType ==> key.sub == item.parentSub)
    requires p <= |ListAt(h.lists, key)| && left == NodeBefore(ListAt(h.lists, key), p) && o == NodeAt(ListAt(h.lists, key), p)
    modifies parent`start, parent`starts, item`left, item`right, ListAt(h.lists, key)`left, ListAt(h.lists, key)`right
    ensures var lists := h.lists[key := InsertAt(ListAt(h.lists, key), p, item)];
            ListsLinked(lists, h.says.Keys) && LooseApart(h.says.Keys) && HeadsAre(share, lists)
  {
    hide ListsLinked, LooseApart;
    HeadIs(share, h.lists, key, parent, item.parentSub);
    JoinAmong(item, left, o, h, key, p);
    if left == null {
      parent.SetFirst(item, item.parentSub);
    }
    forall k: Key | FitsKind(share, k) && k != key
      ensures share[k.name].First(k.sub) == HeadOf(ListAt(h.lists, k))
    {
      assert old(share[k.name].First(k.sub)) == HeadOf(ListAt(h.lists, k)) && share[k.name].name == k.name;
    }
    HeadsAfter(share, h.lists, key, InsertAt(ListAt(h.lists, key), p, item), parent);
  }

  /** Put a stored item into its list, at the place that was found: the links and the head. */
  method LinkItem(d: Doc, parent: SharedType, item: Item, left: Item?, o: Item?, ghost key: Key, ghost p: nat)
    requires Coherent(d.held, d.store.clients, d.ds) && Embodied(d.held, d.share) && Inv(d.held.view)
    requires item in d.held.says && item.parent == parent
    requires forall k :: k in d.held.lists ==> item !in d.held.lists[k]
    requires FitsKind(d.share, key) && d.share[key.name] == parent && (parent.kind == MapType ==> key.sub == item.parentSub)
    requires p <= |Nodes(d, key)| == |Chain(d, key)| && left == NodeBefore(Nodes(d, key), p) && o == NodeAt(Nodes(d, key), p)
    modifies parent`start, parent`starts, d.held.says.Keys`left, d.held.says.Keys`right, d`held
    ensures Coherent(d.held, d.store.clients, d.ds) && Embodied(d.held, d.share)
    ensures d.held == Spliced(old(d.held), key, p, item)
  {
    hide Inv, StoreIs, ItemsAre, ListsAre, SaysTrue, FlagsAre, ListsLinked, LooseApart, HeadsAre, HeadOf, NodeAt, NodeBefore, HasParent;
    ghost var h := d.held;
    ListsDisjoint(h, key);
    NodesHaveParents(h, d.share, key);
    SplicedCoherent(h, d.store.clients, d.ds, key, p, item);
    RelinkHeads(d.share, parent, item, left, o, h, key, p);
    d.held := Spliced(h, key, p, item);
  }

  /** The left origin of an item with a resolved parent is in the list that the item goes to. */
  lemma OriginPlaced(s: DocState, x: Cell)
    requires Placed(s) && Fits(s, x) && Resolve(s.store, x).Some? && x.left.Some?
    ensures var c, l := x.(home := Resolve(s.store, x)), Lookup(s.store, x.left.value);
            l.Some? && l.value in ChainOf(s.chains, KeyOf(c))
  {
    assert InStore(s.store, Lookup(s.store, x.left.value).value);
  }

  /** It still is when the item has entered the store. */
  lemma OriginAfterEntry(s: DocState, c: Cell, x: Cell)
    requires Placed(s) && Fits(s, x) && c == x.(home := Resolve(s.store, x)) && c.home.Some? && x.left.Some?
    ensures var l := Lookup(Append(s.store, c), x.left.value); l.Some? && l.value in ChainOf(s.chains, KeyOf(c))
  {
    OriginPlaced(s, x);
    LookupAfterAppend(s.store, c, x.left.value);
  }

  lemma EnteredInv(s: DocState, c: Cell, deleted: bool)
    requires Inv(s) && Sized(c) && StateOf(s.store, c.id.client) <= c.id.clock
    ensures Inv(Stored(s, c, deleted))
  {
    hide Find;
    AppendKeepsStore(s.store, c);
    forall id | id in Stored(s, c, deleted).dead ensures IsStart(Append(s.store, c), id) {
      LookupAfterAppend(s.store, c, id);
    }
  }

  /** The key of an item whose parent was found fits the kind of that parent. */
  lemma KeyFits(d: Doc, item: Item, parent: SharedType)
    requires d.Valid() && item.parent == parent && Fits(d.held.view, item.AsCell().(home := item.parentName))
    requires parent.name in d.share && d.share[parent.name] == parent
    requires Resolve(d.held.view.store, item.AsCell().(home := item.parentName)) == Some(parent.name)
    requires item.parentName.Some? ==> parent.kind == KindFor(item.AsCell())
    ensures FitsKind(d.share, KeyOf(item.AsCell())) && KeyOf(item.AsCell()).name == parent.name
    ensures parent.kind == MapType ==> KeyOf(item.AsCell()).sub == item.parentSub
  {
    hide Find, Inv, StoreIs, ItemsAre, FlagsAre, ParentsAre, SaysTrue, ListsLinked, LooseApart;
    var x := item.AsCell().(home := item.parentName);
    if x.left.Some? {
      OriginPlaced(d.held.view, x);
      assert KeyOf(item.AsCell()) in d.held.lists;
    }
  }

  /** An item as the decoder delivers it, which the document may integrate. */
  ghost predicate Arrives(d: Doc, item: Item)
    reads d`held, d`share, item, d.share.Values
  {
    && item !in d.held.says && item.parent == null && item.deleted == item.content.Gone?
    && item.left == null && item.right == null
    && Fits(d.held.view, item.AsCell()) && Typed(d.share, item)
  }

  /** Resolve the parent of a new item, set its flag, and store it. */
  method AdmitItem(d: Doc, item: Item) returns (parent: SharedType?)
    requires d.Valid() && Arrives(d, item) && Lookup(d.held.view.store, item.id).None?
    modifies d`share, d`held, d.store`clients, item`parent, item`deleted
    ensures Coherent(d.held, d.store.clients, d.ds) && Embodied(d.held, d.share) && item.parent == parent
    ensures item.AsCell() == old(item.AsCell()).(home := Resolve(old(d.held.view.store), old(item.AsCell())))
    ensures d.held == Holding(old(d.held.says)[item := item.AsCell()], old(d.held.lists),
                              Stored(old(d.held.view), item.AsCell(), BornDead(old(d.held.view.ds), item.AsCell())))
    ensures fresh(d.share.Values - old(d.share.Values))
    ensures Extends(old(d.share), d.share, item.parentName, old(KindFor(item.AsCell())))
    ensures parent == null <==> item.AsCell().home.None?
    ensures parent != null ==> parent in d.share.Values
    ensures parent != null ==>
      var key := KeyOf(item.AsCell());
      FitsKind(d.share, key) && d.share[key.name] == parent && (parent.kind == MapType ==> key.sub == item.parentSub)
  {
    hide Find, StoreIs, ItemsAre, ListsAre, SaysTrue, FlagsAre, ListsLinked, LooseApart, HeadsAre, ParentsAre;
    hide Inv, Placed, Append, BornDead, Resolve, KeyOf, FitsKind, Extends;
    // The item is no candidate for its own parent, so the parent may be looked up before addItem.
    parent := FindParent(d, item);
    item.parent := parent;
    if parent != null { KeyFits(d, item, parent); }
    MarkIfDeleted(d.ds, item);
    Enter(d, item);
  }

  /** Put a stored item into its list: the scan and the links. */
  method PlaceItem(d: Doc, parent: SharedType, item: Item, ghost key: Key)
    requires Coherent(d.held, d.store.clients, d.ds) && Embodied(d.held, d.share) && Inv(d.held.view)
    requires item in d.held.says && item.parent == parent
    requires forall k :: k in d.held.lists ==> item !in d.held.lists[k]
    requires FitsKind(d.share, key) && d.share[key.name] == parent && (parent.kind == MapType ==> key.sub == item.parentSub)
    requires item.originLeft.Some? ==>
               var l := Lookup(d.held.view.store, item.originLeft.value); l.Some? && l.value in Chain(d, key)
    modifies parent`start, parent`starts, d.held.says.Keys`left, d.held.says.Keys`right, d`held
    ensures Coherent(d.held, d.store.clients, d.ds) && Embodied(d.held, d.share)
    ensures d.held.says == old(d.held.says)
    ensures d.held.view == old(d.held.view).(chains :=
              old(d.held.view.chains)[key := Integrate(ChainOf(old(d.held.view.chains), key), old(item.AsCell()))])
  {
    hide Find, StoreIs, ItemsAre, ListsAre, FlagsAre, ListsLinked, LooseApart, HeadsAre, ParentsAre, Inv, FitsKind, Place, NodeAt, NodeBefore;
    var left, o; ghost var p;
    left, o, p := FindPlace(d, item, key);
    LinkItem(d, parent, item, left, o, key, p);
  }

  /** integrateItem for an ID that the store does not know yet. */
  method IntegrateNew(d: Doc, item: Item)
    requires d.Valid() && Arrives(d, item) && Lookup(d.held.view.store, item.id).None?
    modifies d`share, d`held, d.store`clients, item`parent, item`deleted, item`left, item`right
    modifies d.share.Values`start, d.share.Values`starts, d.held.says.Keys`left, d.held.says.Keys`right
    ensures Coherent(d.held, d.store.clients, d.ds) && Embodied(d.held, d.share)
    ensures d.held.view == Receive(old(d.held.view), old(item.AsCell()))
    ensures d.held.says.Keys == old(d.held.says.Keys) + {item}
    ensures fresh(d.share.Values - old(d.share.Values))
    ensures Extends(old(d.share), d.share, item.parentName, old(KindFor(item.AsCell())))
  {
    hide Find, StoreIs, ItemsAre, ListsAre, FlagsAre, ListsLinked, LooseApart, HeadsAre, ParentsAre, SaysTrue;
    hide Inv, Placed, Append, BornDead, Resolve, KeyOf, FitsKind, Place, IsEntry, Extends;
    ghost var s, x := d.held.view, item.AsCell();
    NotListed(d, item);
    var parent := AdmitItem(d, item);
    if parent != null {
      EnteredInv(s, item.AsCell(), BornDead(s.ds, item.AsCell()));
      if x.left.Some? { OriginAfterEntry(s, item.AsCell(), x); }
      PlaceItem(d, parent, item, KeyOf(item.AsCell()));
    }
  }

  /** integrateItem: the document becomes what Receive makes of its state. */
  method IntegrateItem(d: Doc, item: Item)
    requires d.Valid() && Arrives(d, item)
    modifies d`share, d`held, d.store`clients, item`parent, item`deleted, item`left, item`right
    modifies d.share.Values`start, d.share.Values`starts, d.held.says.Keys`left, d.held.says.Keys`right
    ensures d.Valid() && d.held.view == Receive(old(d.held.view), old(item.AsCell()))
    ensures d.held.says.Keys == old(d.held.says.Keys) || d.held.says.Keys == old(d.held.says.Keys) + {item}
    ensures fresh(d.share.Values - old(d.share.Values))
    ensures Extends(old(d.share), d.share, item.parentName, old(KindFor(item.AsCell())))
    ensures forall n :: n in d.share && n !in old(d.share) ==>
              && (d.share[n].kind == MapType <==> item.content.Val? && item.parentSub.Some?)
              && (d.share[n].kind == ArrayType <==> item.content.Val? && item.parentSub.None?)
  {
    hide Find, StoreIs, ItemsAre, ListsAre, FlagsAre, ListsLinked, LooseApart, HeadsAre, ParentsAre, SaysTrue, Inv, Placed, Fits;
    InvSorted(d.held.view);
    ReceiveKeepsInv(d.held.view, item.AsCell());
    ReceiveKeepsPlaced(d.held.view, item.AsCell());
    var known := FindItem(d.store, item.id, d.held);
    if known == null {
      IntegrateNew(d, item);
    }
  }

  lemma NotListed(d: Doc, item: Item)
    requires ListsAre(d.held.lists, d.held.view.chains, d.held.says) && item !in d.held.says
    ensures forall k :: k in d.held.lists ==> item !in d.held.lists[k]
  {
  }
}
