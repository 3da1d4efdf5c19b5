/** id.go: the identifier of one unit of content, and its total order. */
module Ids {

  datatype Id = Id(client: nat, clock: nat)

  /** compareIDs: the client decides, and between two IDs of one client the clock. */
  function CompareIds(a: Id, b: Id): (r: int)
    ensures r == 0 <==> a == b
    ensures r > 0 <==> a.client > b.client || (a.client == b.client && a.clock > b.clock)
  {
    if a.client < b.client then -1
    else if a.client > b.client then 1
    else if a.clock < b.clock then -1
    else if a.clock > b.clock then 1
    else 0
  }
}
