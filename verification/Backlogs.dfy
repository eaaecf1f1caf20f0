/** The locked part of src/workqueue.c: a queue of embedded nodes and its count, on the list of src/list.c. */
module Backlogs {
  import opened Lists

  class Backlog {
    const list: List
    var count: int

    ghost predicate Valid()
      reads this, list, list.nodes
    {
      list.Valid() && count == |list.nodes|
    }

    constructor ()
      ensures Valid() && fresh(list) && list.nodes == []
    {
      list := new List();
      count := 0;
    }

    /** put_backlog, for an item that is not waiting already */
    method Put(node: Node)
      requires Valid() && node !in list.nodes
      modifies this, list, list.nodes, node
      ensures Valid() && list.nodes == old(list.nodes) + [node]
    {
      list.Append(node);
      count := count + 1;
    }

    /** get_backlog */
    method Get() returns (node: Node?)
      requires Valid()
      modifies this, list, list.nodes
      ensures Valid()
      ensures if old(list.nodes) == [] then node == null && list.nodes == [] else old(list.nodes) == [node] + list.nodes
    {
      var rc;
      rc, node := list.PopLeft();
      if rc == 0 {
        count := count - 1;
      }
    }
  }
}
