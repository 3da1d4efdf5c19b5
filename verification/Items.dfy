/**
 * The objects of the library: item.go's Item, the shared types, store.go's StructStore and
 * doc.go's Doc, with the pointers that the operations relink in place.
 */
module Items {
  import opened Wrappers
  import opened Values
  import opened Ids
  import opened Cells

  datatype TypeKind = TextType | ArrayType | MapType

  /** The kind of shared type that integrateItem creates for an item of an unknown name. */
  function KindFor(c: Cell): TypeKind {
    if c.content.Val? then (if c.sub.Some? then MapType else ArrayType) else TextType
  }

  class Item {
    const id: Id
    const originLeft: Option<Id>
    const originRight: Option<Id>
    const parentSub: Option<Name>
    const parentName: Option<Name>
    var left: Item?
    var right: Item?
    var parent: SharedType?
    var content: Content
    var length: nat
    var deleted: bool

    /** An item as the decoder or a local edit makes it: not linked. */
    constructor (id: Id, originLeft: Option<Id>, originRight: Option<Id>, parentName: Option<Name>,
                 parentSub: Option<Name>, parent: SharedType?, content: Content, length: nat)
      ensures this.id == id && this.originLeft == originLeft && this.originRight == originRight
      ensures this.parentName == parentName && this.parentSub == parentSub && this.parent == parent
      ensures this.content == content && this.length == length && deleted == content.Gone?
      ensures left == null && right == null
    {
      this.id, this.originLeft, this.originRight := id, originLeft, originRight;
      this.parentName, this.parentSub, this.parent := parentName, parentSub, parent;
      this.content, this.length, this.deleted := content, length, content.Gone?;
      this.left, this.right := null, null;
    }

    function Home(): Option<Name>
      reads this`parent
    {
      if parent != null then Some(parent.name) else parentName
    }

    /** What the item says, without its links and its deleted flag. */
    function AsCell(): Cell
      reads this`parent, this`content, this`length
    {
      Cell(id, length, originLeft, originRight, Home(), parentSub, content)
    }
  }

  /** Text, Array and Map: a type owns one list, a map one list per key. */
  class SharedType {
    const name: Name
    const kind: TypeKind
    var start: Item?
    var starts: map<Name, Item>

    constructor (name: Name, kind: TypeKind)
      ensures this.name == name && this.kind == kind && start == null && starts == map[]
    {
      this.name, this.kind, this.start, this.starts := name, kind, null, map[];
    }

    /** firstItem */
    function First(sub: Option<Name>): Item?
      reads this`start, this`starts
    {
      if kind != MapType then start
      else if sub.Some? && sub.value in starts then starts[sub.value]
      else null
    }

    /** setFirstItem */
    method SetFirst(item: Item, sub: Option<Name>)
      modifies this`start, this`starts
      ensures kind != MapType ==> start == item && starts == old(starts)
      ensures kind == MapType ==> start == old(start) && starts == if sub.Some? then old(starts)[sub.value := item] else old(starts)
    {
      if kind != MapType {
        start := item;
      } else if sub.Some? {
        starts := starts[sub.value := item];
      }
    }
  }

  function Slice(clients: map<nat, seq<Item>>, client: nat): seq<Item> {
    if client in clients then clients[client] else []
  }

  class StructStore {
    var clients: map<nat, seq<Item>>

    constructor ()
      ensures clients == map[]
    {
      clients := map[];
    }

    function Of(client: nat): seq<Item>
      reads this`clients
    {
      Slice(clients, client)
    }

    /** getState */
    function GetState(client: nat): nat
      reads this`clients, Of(client)`length
    {
      var items := Of(client);
      if items == [] then 0 else items[|items| - 1].id.clock + items[|items| - 1].length
    }

    /** addItem */
    method AddItem(item: Item)
      modifies this`clients
      ensures clients == old(clients)[item.id.client := old(Of(item.id.client)) + [item]]
    {
      clients := clients[item.id.client := Of(item.id.client) + [item]];
    }

    /** getItem: binary search for the last item that starts at or before the clock. */
    method GetItem(id: Id, ghost cells: seq<Cell>) returns (found: Item?)
      requires Shows(Of(id.client), cells) && Sorted(cells, id.client)
      ensures found == null <==> Find(cells, id).None?
      ensures found != null ==> found in Of(id.client) && Find(cells, id) == Some(found.AsCell())
    {
      hide Find;
      var items := Of(id.client);
      var lo, hi := 0, |items|;
      while lo < hi
        invariant 0 <= lo <= hi <= |items|
        invariant forall i :: 0 <= i < lo ==> cells[i].id.clock <= id.clock
        invariant forall i :: hi <= i < |items| ==> cells[i].id.clock > id.clock
      {
        var mid := (lo + hi) / 2;
        assert items[mid].AsCell() == cells[mid];
        if items[mid].id.clock > id.clock {
          hi := mid;
        } else {
          lo := mid + 1;
        }
      }
      found := null;
      SearchEnds(cells, id, lo);
      assert lo > 0 ==> items[lo - 1].AsCell() == cells[lo - 1];
      if lo > 0 && items[lo - 1].id.clock + items[lo - 1].length > id.clock {
        found := items[lo - 1];
      }
    }
  }

  /** doc.go: what a transaction collects for the update that it emits. */
  class Transaction {
    var pendingItems: seq<Item>
    var pendingDeletes: seq<Item>

    constructor ()
      ensures pendingItems == [] && pendingDeletes == []
    {
      pendingItems, pendingDeletes := [], [];
    }

    /** addItem */
    method AddItem(item: Item)
      modifies this`pendingItems
      ensures pendingItems == old(pendingItems) + [item]
    {
      pendingItems := pendingItems + [item];
    }

    /** addDeletedItem */
    method AddDeletedItem(item: Item)
      modifies this`pendingDeletes
      ensures pendingDeletes == old(pendingDeletes) + [item]
    {
      pendingDeletes := pendingDeletes + [item];
    }
  }

  /** What a list of items says. */
  ghost function Says(items: seq<Item>): (cells: seq<Cell>)
    reads items`parent, items`content, items`length
    ensures |cells| == |items| && forall i :: 0 <= i < |items| ==> cells[i] == items[i].AsCell()
  {
    if items == [] then [] else [items[0].AsCell()] + Says(items[1..])
  }

  lemma {:induction false} SaysMore(items: seq<Item>, item: Item)
    ensures Says(items + [item]) == Says(items) + [item.AsCell()]
  {
  }

  /** These items, in this order, say what these cells say. */
  ghost predicate Shows(items: seq<Item>, cells: seq<Cell>)
    reads items`parent, items`content, items`length
  {
    |items| == |cells| && forall i :: 0 <= i < |items| ==> items[i].AsCell() == cells[i]
  }

  /** The last item that starts at or before a clock covers it, or no item does. */
  lemma SearchEnds(cells: seq<Cell>, id: Id, n: nat)
    requires Sorted(cells, id.client) && n <= |cells|
    requires forall i :: 0 <= i < n ==> cells[i].id.clock <= id.clock
    requires forall i :: n <= i < |cells| ==> cells[i].id.clock > id.clock
    ensures Find(cells, id) == if n > 0 && End(cells[n - 1]) > id.clock then Some(cells[n - 1]) else None
  {
    if n > 0 && End(cells[n - 1]) > id.clock {
      FindIsUnique(cells, id.client, id, cells[n - 1]);
    }
  }
}
