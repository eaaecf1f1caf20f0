/** src/list.c and src/queue.c: a doubly linked list threaded through the caller's nodes. */
module Lists {
  import opened Basics

  class Node {
    var next: Node?
    var prev: Node?

    constructor ()
    {
      next := null;
      prev := null;
    }
  }

  ghost predicate Distinct(s: seq<Node>) {
    forall i, j :: 0 <= i < j < |s| ==> s[i] != s[j]
  }

  /** Every node links its neighbours in s. */
  ghost predicate Threaded(s: seq<Node>)
    reads s
  {
    forall i {:trigger s[i].next} {:trigger s[i].prev} :: 0 <= i < |s| ==>
      && s[i].next == (if i + 1 < |s| then s[i + 1] else null)
      && s[i].prev == (if i > 0 then s[i - 1] else null)
  }

  /** Every node but the one at k links its neighbours, skipping the one at k. */
  ghost predicate Bypassed(s: seq<Node>, k: nat)
    requires k < |s|
    reads s
  {
    forall i {:trigger s[i].next} {:trigger s[i].prev} :: 0 <= i < |s| && i != k ==>
      && s[i].next == (var j := if i + 1 == k then k + 1 else i + 1; if j < |s| then s[j] else null)
      && s[i].prev == (var j := if i - 1 == k then k - 1 else i - 1; if j >= 0 then s[j] else null)
  }

  lemma BypassedIsThreaded(s: seq<Node>, k: nat)
    requires k < |s| && Distinct(s) && Bypassed(s, k)
    ensures Distinct(Without(s, k)) && Threaded(Without(s, k))
  {
  }

  class List {
    var head: Node?
    var tail: Node?
    /** The members from head to tail. */
    ghost var nodes: seq<Node>

    ghost predicate Valid()
      reads this, nodes
    {
      && Distinct(nodes) && Threaded(nodes)
      && head == (if nodes == [] then null else nodes[0])
      && tail == (if nodes == [] then null else nodes[|nodes| - 1])
    }

    /** list_init */
    constructor ()
      ensures Valid() && nodes == []
    {
      head := null;
      tail := null;
      nodes := [];
    }

    /** list_append and queue_enqueue */
    method Append(node: Node)
      requires Valid() && node !in nodes
      modifies this, nodes, node
      ensures Valid() && nodes == old(nodes) + [node]
    {
      node.prev := tail;
      node.next := null;
      if tail != null {
        tail.next := node;
      }
      tail := node;
      if head == null {
        head := node;
      }
      nodes := nodes + [node];
    }

    /** list_appendleft */
    method AppendLeft(node: Node)
      requires Valid() && node !in nodes
      modifies this, nodes, node
      ensures Valid() && nodes == [node] + old(nodes)
    {
      node.prev := null;
      node.next := head;
      if head != null {
        head.prev := node;
      }
      head := node;
      if tail == null {
        tail := node;
      }
      nodes := [node] + nodes;
    }

    /** list_pop */
    method Pop() returns (rc: int, node: Node?)
      requires Valid()
      modifies this, nodes
      ensures Valid()
      ensures old(nodes) == [] ==> rc == -1 && node == null && nodes == []
      ensures old(nodes) != [] ==> rc == 0 && old(nodes) == nodes + [node]
    {
      if tail == null {
        return -1, null;
      }
      node := tail;
      tail := tail.prev;
      if tail != null {
        tail.next := null;
      } else {
        head := null;
      }
      nodes := nodes[..|nodes| - 1];
      return 0, node;
    }

    /** list_popleft and queue_dequeue */
    method PopLeft() returns (rc: int, node: Node?)
      requires Valid()
      modifies this, nodes
      ensures Valid()
      ensures old(nodes) == [] ==> rc == -1 && node == null && nodes == []
      ensures old(nodes) != [] ==> rc == 0 && old(nodes) == [node] + nodes
    {
      if head == null {
        return -1, null;
      }
      node := head;
      head := head.next;
      if head != null {
        head.prev := null;
      } else {
        tail := null;
      }
      nodes := nodes[1..];
      return 0, node;
    }

    /** list_remove_node, for the member at k */
    method RemoveNode(node: Node, ghost k: nat)
      requires Valid() && k < |nodes| && nodes[k] == node
      modifies this, nodes
      ensures Valid() && nodes == Without(old(nodes), k)
    {
      ghost var s := nodes;
      Unlink(node, k);
      BypassedIsThreaded(s, k);
      nodes := Without(s, k);
    }

    /** The three cases of list_remove_node. */
    method Unlink(node: Node, ghost k: nat)
      requires Valid() && k < |nodes| && nodes[k] == node
      modifies `head, `tail, nodes
      ensures Distinct(nodes) && Bypassed(nodes, k)
      ensures var rest := Without(nodes, k);
        head == (if rest == [] then null else rest[0]) && tail == (if rest == [] then null else rest[|rest| - 1])
    {
      if node.prev == null {
        head := node.next;
        if head == null {
          tail := null;
        } else {
          head.prev := null;
        }
      } else if node.next == null {
        tail := node.prev;
        if tail == null {
          assert false; // node.prev is not null in this branch
        } else {
          tail.next := null;
        }
      } else {
        node.next.prev := node.prev;
        node.prev.next := node.next;
      }
    }

    /** list_find_node */
    method FindNode(node: Node) returns (p: Node?)
      requires Valid()
      ensures p == if node in nodes then node else null
    {
      p := head;
      ghost var k := 0;
      while p != null && p != node
        invariant 0 <= k <= |nodes|
        invariant p == if k < |nodes| then nodes[k] else null
        invariant node !in nodes[..k]
        decreases |nodes| - k
      {
        p := p.next;
        k := k + 1;
      }
    }
  }

  // ---------------------------------------------------------------------------
  // What the links look like from outside
  // ---------------------------------------------------------------------------

  /** Following next from n visits exactly s and ends in null. */
  ghost predicate NextChain(n: Node?, s: seq<Node>)
    reads s
  {
    if s == [] then n == null else n == s[0] && NextChain(n.next, s[1..])
  }

  /** Following prev from n visits exactly s and ends in null. */
  ghost predicate PrevChain(n: Node?, s: seq<Node>)
    reads s
  {
    if s == [] then n == null else n == s[0] && PrevChain(n.prev, s[1..])
  }

  function Reverse<T>(s: seq<T>): (r: seq<T>)
    ensures |r| == |s|
    ensures forall i {:trigger r[i]} :: 0 <= i < |s| ==> r[i] == s[|s| - 1 - i]
  {
    seq(|s|, i requires 0 <= i < |s| => s[|s| - 1 - i])
  }

  lemma {:induction false} NextChainSuffix(l: List, k: nat)
    requires l.Valid() && k <= |l.nodes|
    ensures NextChain(if k < |l.nodes| then l.nodes[k] else null, l.nodes[k..])
    decreases |l.nodes| - k
  {
    if k < |l.nodes| {
      NextChainSuffix(l, k + 1);
      assert l.nodes[k..][1..] == l.nodes[k + 1..];
    }
  }

  lemma {:induction false} PrevChainPrefix(l: List, k: nat)
    requires l.Valid() && k <= |l.nodes|
    ensures PrevChain(if k > 0 then l.nodes[k - 1] else null, Reverse(l.nodes[..k]))
    decreases k
  {
    if k > 0 {
      PrevChainPrefix(l, k - 1);
      assert Reverse(l.nodes[..k])[1..] == Reverse(l.nodes[..k - 1]);
    }
  }

  lemma {:induction false} NextChainUnique(n: Node?, s: seq<Node>, t: seq<Node>)
    requires NextChain(n, s) && NextChain(n, t)
    ensures s == t
    decreases |s|
  {
    if s != [] && t != [] {
      NextChainUnique(n.next, s[1..], t[1..]);
      assert s == [s[0]] + s[1..] && t == [t[0]] + t[1..];
    }
  }

  /** Forwards from head and backwards from tail are the same acyclic chain, and no other chain starts at head. */
  lemma ForwardsIsBackwards(l: List, s: seq<Node>)
    requires l.Valid()
    ensures NextChain(l.head, s) <==> s == l.nodes
    ensures PrevChain(l.tail, Reverse(l.nodes))
    ensures Distinct(l.nodes)
  {
    NextChainSuffix(l, 0);
    PrevChainPrefix(l, |l.nodes|);
    assert l.nodes[0..] == l.nodes && l.nodes[..|l.nodes|] == l.nodes;
    if NextChain(l.head, s) {
      NextChainUnique(l.head, s, l.nodes);
    }
  }
}
