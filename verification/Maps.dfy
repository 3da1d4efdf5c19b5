/** map.go: the current item of each key of a map. */
module Maps {
  import opened Wrappers
  import opened Values
  import opened Ids
  import opened Cells
  import opened Integration
  import opened Authoring
  import opened Items
  import opened Linking
  import opened Docs
  import opened Integrator
  import opened Arrays

  /** A map of the document. */
  ghost predicate IsMap(d: Doc, m: SharedType)
    reads d`share
  {
    m.kind == MapType && m.name in d.share && d.share[m.name] == m
  }

  /** The current item of a key is the head of its list. */
  lemma Current(d: Doc, m: SharedType, key: Name)
    requires d.Valid() && IsMap(d, m)
    ensures var nodes, chain := ListAt(d.held.lists, EntryKey(m.name, key)), ChainOf(d.held.view.chains, EntryKey(m.name, key));
            && (key in m.starts <==> chain != []) && |nodes| == |chain|
            && (key in m.starts ==> m.starts[key] == nodes[0] && nodes[0] in d.held.says && nodes[0].AsCell() == chain[0]
                                    && (nodes[0].deleted <==> chain[0].id in d.held.view.dead))
  {
    hide Find, Inv, StoreIs, ParentsAre, LooseApart, ListsLinked, Placed;
    var k := EntryKey(m.name, key);
    assert FitsKind(d.share, k);
    assert m.First(Some(key)) == HeadOf(ListAt(d.held.lists, k));
    assert Spell(d.held.says, ListAt(d.held.lists, k), ChainOf(d.held.view.chains, k));
  }

  /** Map.Get */
  method Get(d: Doc, m: SharedType, key: Name) returns (r: Option<Content>)
    requires d.Valid() && IsMap(d, m)
    ensures r == Authoring.Get(d.held.view, m.name, key)
  {
    Current(d, m, key);
    if key !in m.starts || m.starts[key].deleted { return None; }
    return Some(m.starts[key].content);
  }

  /** Map.Keys: each key that has a value, once, in whatever order the map iteration gives. */
  method Keys(d: Doc, m: SharedType) returns (keys: seq<Name>)
    requires d.Valid() && IsMap(d, m)
    ensures forall k :: k in keys <==> Authoring.Get(d.held.view, m.name, k).Some?
    ensures forall i, j :: 0 <= i < j < |keys| ==> keys[i] != keys[j]
  {
    keys := [];
    var todo := m.starts.Keys;
    while todo != {}
      invariant todo <= m.starts.Keys
      invariant forall k :: k in keys <==> k in m.starts && k !in todo && !m.starts[k].deleted
      invariant forall i, j :: 0 <= i < j < |keys| ==> keys[i] != keys[j]
      decreases |todo|
    {
      var k :| k in todo;
      if !m.starts[k].deleted {
        keys := keys + [k];
      }
      todo := todo - {k};
    }
    forall k ensures k in keys <==> Authoring.Get(d.held.view, m.name, k).Some? {
      Current(d, m, k);
    }
  }

  /** Mark the current item of a key. */
  method MarkHead(d: Doc, m: SharedType, key: Name, item: Item)
    requires d.Valid() && IsMap(d, m) && key in m.starts && m.starts[key] == item
    modifies item`deleted, d`held
    ensures ChainOf(old(d.held.view.chains), EntryKey(m.name, key)) != []
    ensures d.Valid() && d.held == old(d.held).(view := old(d.held.view).(dead :=
              old(d.held.view.dead) + {ChainOf(old(d.held.view.chains), EntryKey(m.name, key))[0].id}))
  {
    hide Find, StoreIs, ItemsAre, ListsAre, SaysTrue, ListsLinked, LooseApart, HeadsAre, ParentsAre, Inv, Placed;
    ghost var k := EntryKey(m.name, key);
    Current(d, m, key);
    ListNodes(d, k);
    ghost var c := ChainOf(d.held.view.chains, k)[0];
    item.deleted := true;
    assert IdsOf([c]) == {c.id};
    HoldMarks(d, k, [c]);
  }

  /** Map.Delete: the document and the transaction become what Remove makes of them. */
  method Delete(d: Doc, m: SharedType, tx: Transaction, key: Name, ghost t: Tx)
    requires d.Valid() && IsMap(d, m) && Stage(d, tx, t)
    modifies d`held, tx`pendingDeletes, d.held.says.Keys`deleted
    ensures d.Valid() && Stage(d, tx, Authoring.Remove(t, m.name, key)) && d.held.says == old(d.held.says)
    ensures Added(tx.pendingDeletes, old(tx.pendingDeletes), d.held.says.Keys)
  {
    hide Coherent, Embodied, Inv, Placed, Says, Added;
    AddedNone(tx.pendingDeletes, d.held.says.Keys);
    Current(d, m, key);
    if key !in m.starts || m.starts[key].deleted { return; }
    ghost var items := Says(tx.pendingItems);
    var item := m.starts[key];
    MarkHead(d, m, key, item);
    IdsMore(tx.pendingDeletes, item);
    AddedMore(tx.pendingDeletes, tx.pendingDeletes, d.held.says.Keys, item);
    tx.AddDeletedItem(item);
    assert d.Valid() && Says(tx.pendingItems) == items;
  }

  /** A holding in which a new item is the whole list of a key. */
  ghost function Replaced(h: Holding, k: Key, item: Item): Holding
    requires item in h.says
  {
    h.(lists := h.lists[k := [item]], view := h.view.(chains := h.view.chains[k := [h.says[item]]]))
  }

  lemma ReplacedCoherent(h: Holding, clients: map<nat, seq<Item>>, ds: DeleteSet, k: Key, item: Item)
    requires Coherent(h, clients, ds) && item in h.says
    ensures Coherent(Replaced(h, k, item), clients, ds)
  {
    hide StoreIs, ItemsAre;
    assert Spell(h.says, [item], [h.says[item]]);
  }

  lemma OneLinked(lists: ItemLists, items: set<Item>, k: Key, item: Item)
    requires ListsLinked(lists, items) && item in items && item.left == null && item.right == null
    ensures ListsLinked(lists[k := [item]], items)
  {
    assert Linked([item]);
  }

  /** The start of a key. */
  method SetStart(share: Share, m: SharedType, key: Name, item: Item, ghost lists: ItemLists)
    requires HeadsAre(share, lists) && m.kind == MapType && m.name in share && share[m.name] == m
    requires forall n :: n in share ==> share[n].name == n
    modifies m`starts
    ensures HeadsAre(share, lists[EntryKey(m.name, key) := [item]])
  {
    m.starts := m.starts[key := item];
    forall l: Key | FitsKind(share, l) && l != EntryKey(m.name, key) ensures share[l.name].First(l.sub) == HeadOf(ListAt(lists, l)) {
      assert old(share[l.name].First(l.sub)) == HeadOf(ListAt(lists, l)) && share[l.name].name == l.name;
    }
    HeadsAfter(share, lists, EntryKey(m.name, key), [item], m);
  }

  /** The new item becomes the current one of its key. */
  method ReplaceHead(d: Doc, m: SharedType, key: Name, item: Item)
    requires Coherent(d.held, d.store.clients, d.ds) && Embodied(d.held, d.share) && IsMap(d, m)
    requires item in d.held.says && item.left == null && item.right == null
    modifies m`starts, d`held
    ensures Coherent(d.held, d.store.clients, d.ds) && Embodied(d.held, d.share)
    ensures d.held == Replaced(old(d.held), EntryKey(m.name, key), item)
  {
    hide StoreIs, ItemsAre, ListsAre, SaysTrue, FlagsAre, LooseApart, ListsLinked, HeadsAre;
    ghost var h, k := d.held, EntryKey(m.name, key);
    ReplacedCoherent(h, d.store.clients, d.ds, k, item);
    OneLinked(h.lists, h.says.Keys, k, item);
    SetStart(d.share, m, key, item, h.lists);
    d.held := Replaced(h, k, item);
  }

  /** The new item of an entry, not stored yet. */
  method NewEntry(d: Doc, m: SharedType, key: Name, v: Any) returns (item: Item)
    requires d.Valid() && IsMap(d, m)
    ensures fresh(item) && item.parent == m && !item.deleted && item.left == null && item.right == null
    ensures item.AsCell() == Entry(d.held.view, d.clientID, m.name, key, v)
  {
    hide Coherent, Embodied, Inv, Placed;
    var clock := NextClock(d);
    item := new Item(Id(d.clientID, clock), None, None, None, Some(key), m, Val(v), 1);
  }

  /** A new entry enters the store and replaces the list of its key. */
  method PutEntry(d: Doc, m: SharedType, key: Name, v: Any) returns (item: Item)
    requires d.Valid() && IsMap(d, m)
    modifies d`held, d.store`clients, m`starts
    ensures d.Valid() && d.held.view == WithEntry(old(d.held.view), d.clientID, m.name, key, v)
    ensures fresh(item) && item.AsCell() == Entry(old(d.held.view), d.clientID, m.name, key, v)
    ensures d.held.says.Keys == old(d.held.says.Keys) + {item}
  {
    hide Find, Inv, Placed, Coherent, Embodied, HasParent;
    ghost var s := d.held.view;
    item := NewEntry(d, m, key, v);
    EntryIsNew(s, d.clientID, m.name, key, v);
    MapParent(d, item, m);
    EntryKeepsInv(s, d.clientID, m.name, key, v);
    EntryKeepsPlaced(s, d.clientID, m.name, key, v);
    Enter(d, item);
    ReplaceHead(d, m, key, item);
  }

  lemma EntryIsNew(s: DocState, me: nat, name: Name, key: Name, v: Any)
    requires Inv(s)
    ensures Lookup(s.store, Entry(s, me, name, key, v).id).None?
  {
    var o := Lookup(s.store, NextId(s, me));
    if o.Some? { SortedBelow(ItemsOf(s.store, me), me, StateOf(s.store, me)); }
  }

  lemma MapParent(d: Doc, item: Item, m: SharedType)
    requires IsMap(d, m) && item.parent == m
    ensures HasParent(item, d.share)
  {
  }

  lemma SetIs(t: Tx, me: nat, name: Name, key: Name, v: Any)
    ensures var entries := ChainOf(t.state.chains, EntryKey(name, key));
            var s := if entries == [] then t.state else t.state.(dead := t.state.dead + {entries[0].id});
            Authoring.Set(t, me, name, key, v) == t.(state := WithEntry(s, me, name, key, v), items := t.items + [Entry(s, me, name, key, v)])
  {
  }

  /** Map.Set: the document and the transaction become what Set makes of them. */
  method Set(d: Doc, m: SharedType, tx: Transaction, key: Name, v: Any, ghost t: Tx)
    requires d.Valid() && IsMap(d, m) && Stage(d, tx, t)
    modifies d`held, d.store`clients, m`starts, tx`pendingItems, d.held.says.Keys`deleted
    ensures d.Valid() && Stage(d, tx, Authoring.Set(t, d.clientID, m.name, key, v))
    ensures fresh(d.held.says.Keys - old(d.held.says.Keys))
  {
    hide Coherent, Embodied, Inv, Placed, Says, IdsIn, WithEntry, Entry;
    ghost var before := Says(tx.pendingItems);
    Current(d, m, key);
    SetIs(t, d.clientID, m.name, key, v);
    if key in m.starts {
      MarkHead(d, m, key, m.starts[key]);
    }
    assert Says(tx.pendingItems) == before;
    var item := PutEntry(d, m, key, v);
    assert Says(tx.pendingItems) == before;
    Record(tx, item);
    assert d.Valid();
  }
}
