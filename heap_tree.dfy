/**
 * Building a binary tree out of an array in heap layout: the element at
 * index i becomes a node whose children are the nodes of indices 2i+1 and
 * 2i+2, when those exist.
 */
module HeapTree {
  import opened Sequences

  /** The colour a node gets when none is given. */
  const DefaultColor := "skyblue"

  /** A binary tree node: a key, a display colour and two child links. */
  class Node {
    var left: Node?
    var right: Node?
    var val: int
    var color: string

    constructor(key: int, color: string)
      ensures left == null && right == null
      ensures val == key && this.color == color
    {
      left := null;
      right := null;
      val := key;
      this.color := color;
    }
  }

  /** The node at index `k` of the layout, or nothing past its end. */
  ghost function Child(ns: seq<Node>, k: int): Node?
    requires 0 <= k
  {
    if k < |ns| then ns[k] else null
  }

  /** The links of `ns` follow the heap layout i -> 2i+1, 2i+2. */
  ghost predicate HeapLinked(ns: seq<Node>)
    reads Objects(ns)
  {
    forall i | 0 <= i < |ns| :: ns[i].left == Child(ns, 2 * i + 1) && ns[i].right == Child(ns, 2 * i + 2)
  }

  /** The nodes of the tree for `heap`, one per element, linked in heap
      layout; the root is the node of index 0, and there is none for an
      empty array. */
  method HeapToTree(heap: seq<int>) returns (root: Node?, ghost nodes: seq<Node>)
    ensures |nodes| == |heap| && Distinct(nodes)
    ensures forall i | 0 <= i < |nodes| :: fresh(nodes[i])
    ensures forall i | 0 <= i < |nodes| :: nodes[i].val == heap[i] && nodes[i].color == DefaultColor
    ensures HeapLinked(nodes)
    ensures root == if heap == [] then null else nodes[0]
  {
    if heap == [] {
      return null, [];
    }
    var ns := MakeNodes(heap);
    LinkChildren(ns);
    root := ns[0];
    nodes := ns;
  }

  /** One fresh, unlinked node per element, holding it. */
  method MakeNodes(heap: seq<int>) returns (ns: seq<Node>)
    ensures |ns| == |heap| && Distinct(ns)
    ensures forall i | 0 <= i < |ns| :: fresh(ns[i])
    ensures forall i | 0 <= i < |ns| :: ns[i].val == heap[i] && ns[i].color == DefaultColor
    ensures forall i | 0 <= i < |ns| :: ns[i].left == null && ns[i].right == null
  {
    ns := [];
    for k := 0 to |heap|
      invariant |ns| == k && Distinct(ns)
      invariant forall i | 0 <= i < k :: fresh(ns[i])
      invariant forall i | 0 <= i < k :: ns[i].val == heap[i] && ns[i].color == DefaultColor
      invariant forall i | 0 <= i < k :: ns[i].left == null && ns[i].right == null
    {
      var n := new Node(heap[k], DefaultColor);
      ns := ns + [n];
    }
  }

  /** Sets the links of every node to its heap-layout children. */
  method LinkChildren(ns: seq<Node>)
    requires Distinct(ns)
    requires forall i | 0 <= i < |ns| :: ns[i].left == null && ns[i].right == null
    modifies Objects(ns)
    ensures HeapLinked(ns)
    ensures forall i | 0 <= i < |ns| :: ns[i].val == old(ns[i].val) && ns[i].color == old(ns[i].color)
  {
    for i := 0 to |ns|
      invariant forall j | 0 <= j < i :: ns[j].left == Child(ns, 2 * j + 1) && ns[j].right == Child(ns, 2 * j + 2)
      invariant forall j | i <= j < |ns| :: ns[j].left == null && ns[j].right == null
      invariant forall j | 0 <= j < |ns| :: ns[j].val == old(ns[j].val) && ns[j].color == old(ns[j].color)
    {
      var li, ri := 2 * i + 1, 2 * i + 2;
      if li < |ns| {
        ns[i].left := ns[li];
      }
      if ri < |ns| {
        ns[i].right := ns[ri];
      }
    }
  }

}
