/**
 * doc.go: a document owns the store, the shared types and the accumulated delete set. Its
 * ghost field says which items it holds and what each says, which nodes form each list,
 * and the `DocState` that all of it amounts to.
 */
module Docs {
  import opened Wrappers
  import opened Values
  import opened Ids
  import opened Cells
  import opened Integration
  import opened Items
  import opened Linking

  type Saying = map<Item, Cell>
  type ItemLists = map<Key, seq<Item>>
  type Share = map<Name, SharedType>

  /** The types of a document are of the kinds given for their names. */
  ghost predicate KnownKinds(share: Share, kinds: map<Name, TypeKind>) {
    forall n :: n in share ==> n in kinds && share[n].kind == kinds[n]
  }

  /** What a document holds: its items with what they say, the nodes of each list, and the state this shows. */
  datatype Holding = Holding(says: Saying, lists: ItemLists, view: DocState)

  // What the holding says about itself.

  /** These items, in this order, say what these cells say. */
  ghost predicate Spell(says: Saying, list: seq<Item>, cells: seq<Cell>) {
    |list| == |cells| && forall i :: 0 <= i < |list| ==> list[i] in says && says[list[i]] == cells[i]
  }

  ghost predicate StoreIs(clients: map<nat, seq<Item>>, cells: Store, says: Saying) {
    && cells.Keys == clients.Keys
    && forall c :: c in clients ==> Spell(says, clients[c], cells[c])
  }

  /** Every item is the stored one of its ID. */
  ghost predicate ItemsAre(says: Saying, cells: Store) {
    && (forall i :: i in says ==> says[i].id == i.id && Lookup(cells, i.id) == Some(says[i]))
    && (forall i, j :: i in says && j in says && i.id == j.id ==> i == j)
  }

  ghost predicate ListsAre(lists: ItemLists, chains: Chains, says: Saying) {
    && lists.Keys == chains.Keys
    && forall k :: k in lists ==> Spell(says, lists[k], chains[k])
  }

  // What ties the objects to it.

  ghost predicate SaysTrue(says: Saying)
    reads says.Keys`parent, says.Keys`content, says.Keys`length
  {
    forall i :: i in says ==> i.AsCell() == says[i]
  }

  ghost predicate FlagsAre(items: set<Item>, dead: set<Id>)
    reads items`deleted
  {
    forall i :: i in items ==> (i.deleted <==> i.id in dead)
  }

  /** The parent of the item is one of the shared types, or the item names none. */
  predicate HasParent(item: Item, share: Share)
    reads item`parent
  {
    if item.parent == null then item.parentName.None? else item.parent.name in share && share[item.parent.name] == item.parent
  }

  ghost predicate ParentsAre(items: set<Item>, share: Share)
    reads items`parent
  {
    && (forall n :: n in share ==> share[n].name == n)
    && (forall i :: i in items ==> HasParent(i, share))
  }

  ghost predicate ListsLinked(lists: ItemLists, items: set<Item>)
    reads items`left, items`right
  {
    forall k :: k in lists ==> (forall i :: i in lists[k] ==> i in items) && Linked(lists[k])
  }

  /** Items without a parent are linked, if at all, to others without a parent. */
  predicate IsLoose(items: set<Item>, i: Item)
    reads i`parent, i`left, i`right, items`parent
  {
    && (i.left != null ==> i.left in items && i.left.parent == null)
    && (i.right != null ==> i.right in items && i.right.parent == null && i.right != i)
  }

  ghost predicate LooseApart(items: set<Item>)
    reads items`parent, items`left, items`right
  {
    forall i :: i in items && i.parent == null ==> IsLoose(items, i)
  }

  predicate FitsKind(share: Share, k: Key) {
    k.name in share && (share[k.name].kind == MapType <==> k.sub.Some?)
  }

  ghost function ListAt(lists: ItemLists, k: Key): seq<Item> {
    if k in lists then lists[k] else []
  }

  /** The types point to the heads of their lists. */
  ghost predicate HeadsAre(share: Share, lists: ItemLists)
    reads share.Values`start, share.Values`starts
  {
    && (forall k :: k in lists ==> FitsKind(share, k))
    && (forall k: Key :: FitsKind(share, k) ==> share[k.name].First(k.sub) == HeadOf(ListAt(lists, k)))
  }

  /** The holding agrees with itself and with the store and the delete set. */
  ghost predicate Coherent(h: Holding, clients: map<nat, seq<Item>>, ds: DeleteSet) {
    && StoreIs(clients, h.view.store, h.says) && ItemsAre(h.says, h.view.store)
    && ListsAre(h.lists, h.view.chains, h.says) && h.view.ds == ds
  }

  /** The objects are as the holding says. */
  ghost predicate Embodied(h: Holding, share: Share)
    reads h.says.Keys, share.Values
  {
    && SaysTrue(h.says) && FlagsAre(h.says.Keys, h.view.dead) && ParentsAre(h.says.Keys, share)
    && ListsLinked(h.lists, h.says.Keys) && LooseApart(h.says.Keys) && HeadsAre(share, h.lists)
  }

  class Doc {
    const clientID: nat
    const store: StructStore
    var share: Share
    var ds: DeleteSet
    ghost var held: Holding

    constructor (clientID: nat)
      ensures this.clientID == clientID && fresh(store) && Valid() && held == Holding(map[], map[], EMPTY) && share == map[]
    {
      this.clientID := clientID;
      store := new StructStore();
      share, ds := map[], map[];
      held := Holding(map[], map[], EMPTY);
    }

    ghost predicate Valid()
      reads this, store, share.Values, held.says.Keys
    {
      Coherent(held, store.clients, ds) && Embodied(held, share) && Inv(held.view) && Placed(held.view)
    }
  }

  lemma SpellShows(says: Saying, list: seq<Item>, cells: seq<Cell>)
    requires SaysTrue(says) && Spell(says, list, cells)
    ensures Shows(list, cells)
  {
  }

  lemma SpellGrows(says: Saying, list: seq<Item>, cells: seq<Cell>, item: Item, c: Cell)
    requires Spell(says, list, cells) && item !in says
    ensures Spell(says[item := c], list, cells)
  {
  }

  lemma StoreGrows(clients: map<nat, seq<Item>>, cells: Store, says: Saying, item: Item, c: Cell)
    requires StoreIs(clients, cells, says) && item !in says && c.id == item.id
    ensures StoreIs(clients[item.id.client := Slice(clients, item.id.client) + [item]], Append(cells, c), says[item := c])
  {
    forall k | k in clients ensures Spell(says[item := c], clients[k], cells[k]) {
      SpellGrows(says, clients[k], cells[k], item, c);
    }
  }

  lemma ItemsGrow(says: Saying, cells: Store, item: Item, c: Cell)
    requires ItemsAre(says, cells) && item !in says && c.id == item.id && c.len >= 1 && Lookup(cells, item.id).None?
    ensures ItemsAre(says[item := c], Append(cells, c))
  {
    hide Find;
    forall i | i in says[item := c] ensures Lookup(Append(cells, c), i.id) == Some(says[item := c][i]) {
      LookupAfterAppend(cells, c, i.id);
    }
  }

  lemma ListsGrow(lists: ItemLists, chains: Chains, says: Saying, item: Item, c: Cell)
    requires ListsAre(lists, chains, says) && item !in says
    ensures ListsAre(lists, chains, says[item := c])
  {
    forall k | k in lists ensures Spell(says[item := c], lists[k], chains[k]) {
      SpellGrows(says, lists[k], chains[k], item, c);
    }
  }

  /** A new item of an unknown ID at the end of the slice of its client. */
  lemma CoherentGrows(h: Holding, clients: map<nat, seq<Item>>, ds: DeleteSet, item: Item, c: Cell)
    requires Coherent(h, clients, ds) && item !in h.says && c.id == item.id && c.len >= 1 && Lookup(h.view.store, item.id).None?
    ensures forall dead :: Coherent(Holding(h.says[item := c], h.lists, h.view.(store := Append(h.view.store, c), dead := dead)),
                     clients[item.id.client := Slice(clients, item.id.client) + [item]], ds)
  {
    hide Find, StoreIs, ItemsAre, ListsAre;
    StoreGrows(clients, h.view.store, h.says, item, c);
    ItemsGrow(h.says, h.view.store, item, c);
    ListsGrow(h.lists, h.view.chains, h.says, item, c);
  }

  lemma FlagsGrow(says: Saying, cells: Store, dead: set<Id>, item: Item)
    requires ItemsAre(says, cells) && Lookup(cells, item.id).None? && item.id !in dead && FlagsAre(says.Keys, dead)
    ensures FlagsAre(says.Keys + {item}, if item.deleted then dead + {item.id} else dead)
  {
    hide Find;
  }

  lemma LinksGrow(lists: ItemLists, items: set<Item>, item: Item)
    requires ListsLinked(lists, items) && LooseApart(items) && item.left == null && item.right == null
    ensures ListsLinked(lists, items + {item}) && LooseApart(items + {item})
  {
    hide Linked;
  }

  /** A new item that is not linked yet. */
  lemma EmbodiedGrows(h: Holding, share: Share, item: Item)
    requires Embodied(h, share) && item !in h.says && ItemsAre(h.says, h.view.store) && Lookup(h.view.store, item.id).None?
    requires item.left == null && item.right == null && HasParent(item, share) && item.id !in h.view.dead
    ensures Embodied(Holding(h.says[item := item.AsCell()], h.lists,
                             h.view.(dead := if item.deleted then h.view.dead + {item.id} else h.view.dead)), share)
  {
    hide HeadsAre, ItemsAre, FlagsAre, ListsLinked, LooseApart, Find, HasParent;
    assert h.says[item := item.AsCell()].Keys == h.says.Keys + {item};
    FlagsGrow(h.says, h.view.store, h.view.dead, item);
    LinksGrow(h.lists, h.says.Keys, item);
  }
}
