/**
 * Collecting the nodes of a binary tree in breadth-first order with a
 * first-in first-out queue, and what that order is for a tree built from
 * an array in heap layout.
 *
 * The links of a tree live in the heap; a ghost `Shape` describes the tree
 * hanging from a node, and its finiteness is what makes the walk end.  A
 * shape may name one node in several places (shared subtrees): the walk
 * then visits it once per place.
 */
module BinaryTree {

  import opened Sequences
  import opened HeapTree

  /** The tree hanging from a link: nothing, or a node and its two subtrees. */
  datatype Shape = Leaf | Branch(node: Node, left: Shape, right: Shape)

  function Size(t: Shape): nat
  {
    match t
    case Leaf => 0
    case Branch(_, l, r) => 1 + Size(l) + Size(r)
  }

  ghost function ShapeNodes(t: Shape): set<Node>
  {
    match t
    case Leaf => {}
    case Branch(n, l, r) => {n} + ShapeNodes(l) + ShapeNodes(r)
  }

  /** `t` is the tree hanging from `n`, following the `left`/`right` links. */
  ghost predicate Describes(t: Shape, n: Node?)
    reads ShapeNodes(t)
  {
    match t
    case Leaf => n == null
    case Branch(m, l, r) => n == m && Describes(l, m.left) && Describes(r, m.right)
  }

  /** The nodes of `t`, each node before its subtrees. */
  function Preorder(t: Shape): seq<Node>
  {
    match t
    case Leaf => []
    case Branch(n, l, r) => [n] + Preorder(l) + Preorder(r)
  }

  // ---------------------------------------------------------------------
  // Breadth-first order on shapes
  // ---------------------------------------------------------------------

  function SizeSum(qs: seq<Shape>): nat
  {
    if qs == [] then 0 else Size(qs[0]) + SizeSum(qs[1..])
  }

  lemma {:induction false} SizeSumConcat(a: seq<Shape>, b: seq<Shape>)
    ensures SizeSum(a + b) == SizeSum(a) + SizeSum(b)
    decreases |a|
  {
    if a != [] {
      assert (a + b)[1..] == a[1..] + b;
      SizeSumConcat(a[1..], b);
    } else {
      assert a + b == b;
    }
  }

  /** The subtrees a visit of `t` enqueues: its non-empty children, left first. */
  function Kids(t: Shape): (ks: seq<Shape>)
    ensures forall k | 0 <= k < |ks| :: ks[k].Branch?
  {
    match t
    case Leaf => []
    case Branch(_, l, r) => OneKid(l) + OneKid(r)
  }

  lemma KidsSize(t: Shape)
    requires t.Branch?
    ensures SizeSum(Kids(t)) == Size(t) - 1
  {
    SizeSumConcat(OneKid(t.left), OneKid(t.right));
  }

  /** The nodes a first-in first-out walk visits when it starts from queue `qs`. */
  function Bfs(qs: seq<Shape>): seq<Node>
    decreases SizeSum(qs), |qs|
  {
    if qs == [] then []
    else
      match qs[0]
      case Leaf => Bfs(qs[1..])
      case Branch(n, _, _) =>
        KidsSize(qs[0]);
        SizeSumConcat(qs[1..], Kids(qs[0]));
        [n] + Bfs(qs[1..] + Kids(qs[0]))
  }

  /** All the nodes of the trees in `qs`, with their multiplicities. */
  function Forest(qs: seq<Shape>): multiset<Node>
  {
    if qs == [] then multiset{} else multiset(Preorder(qs[0])) + Forest(qs[1..])
  }

  lemma {:induction false} ForestConcat(a: seq<Shape>, b: seq<Shape>)
    ensures Forest(a + b) == Forest(a) + Forest(b)
    decreases |a|
  {
    if a != [] {
      assert (a + b)[1..] == a[1..] + b;
      ForestConcat(a[1..], b);
    } else {
      assert a + b == b;
    }
  }

  /** The walk visits every node of the queued trees, once per occurrence. */
  lemma {:induction false} BfsPermutes(qs: seq<Shape>)
    ensures multiset(Bfs(qs)) == Forest(qs)
    decreases SizeSum(qs), |qs|
  {
    if qs != [] {
      if qs[0].Leaf? {
        BfsPermutes(qs[1..]);
      } else {
        VisitShapes(qs);
        BfsPermutes(qs[1..] + Kids(qs[0]));
      }
    }
  }

  /** Visiting the front of the queue puts out its node and queues its kids. */
  lemma VisitShapes(qs: seq<Shape>)
    requires qs != [] && qs[0].Branch?
    ensures Bfs(qs) == [qs[0].node] + Bfs(qs[1..] + Kids(qs[0]))
    ensures SizeSum(qs[1..] + Kids(qs[0])) < SizeSum(qs)
    ensures Forest(qs) == multiset{qs[0].node} + Forest(qs[1..] + Kids(qs[0]))
  {
    KidsSize(qs[0]);
    SizeSumConcat(qs[1..], Kids(qs[0]));
    ForestConcat(qs[1..], Kids(qs[0]));
    KidsForest(qs[0]);
  }

  lemma KidsForest(t: Shape)
    requires t.Branch?
    ensures multiset(Preorder(t)) == multiset{t.node} + Forest(Kids(t))
  {
    var l, r := t.left, t.right;
    var lk, rk := OneKid(l), OneKid(r);
    assert Kids(t) == lk + rk;
    ForestConcat(lk, rk);
    assert Preorder(t) == [t.node] + Preorder(l) + Preorder(r);
  }

  /** The queue entry for a child subtree: none for an empty one. */
  function OneKid(t: Shape): (ks: seq<Shape>)
    ensures Forest(ks) == multiset(Preorder(t))
    ensures SizeSum(ks) == Size(t)
  {
    if t.Branch? then
      assert [t][1..] == [];
      [t]
    else []
  }

  lemma {:induction false} DistinctToCounts(s: seq<Node>)
    requires Distinct(s)
    ensures forall x | x in multiset(s) :: multiset(s)[x] == 1
    decreases |s|
  {
    if s != [] {
      var rest := s[1..];
      assert s == [s[0]] + rest;
      assert Distinct(rest) by {
        forall i, j | 0 <= i < j < |rest| ensures rest[i] != rest[j] {
          assert rest[i] == s[i + 1] && rest[j] == s[j + 1];
        }
      }
      assert s[0] !in rest by {
        forall k | 0 <= k < |rest| ensures rest[k] != s[0] {
          assert rest[k] == s[k + 1];
        }
      }
      DistinctToCounts(rest);
    }
  }

  lemma CountsToDistinct(s: seq<Node>)
    requires forall x | x in multiset(s) :: multiset(s)[x] <= 1
    ensures Distinct(s)
  {
    forall i, j | 0 <= i < j < |s|
      ensures s[i] != s[j]
    {
      var a, b := s[..j], s[j..];
      assert s == a + b;
      assert s[i] == a[i] && s[j] == b[0];
      assert multiset(s)[s[j]] == multiset(a)[s[j]] + multiset(b)[s[j]];
      assert s[j] in multiset(s);
    }
  }

  /** In a tree without shared subtrees, the walk from its root visits each
      of its nodes exactly once, and as many nodes as the tree has. */
  lemma BfsOnce(t: Shape)
    requires Distinct(Preorder(t))
    ensures Distinct(Bfs([t]))
    ensures |Bfs([t])| == Size(t)
    ensures forall n :: n in Bfs([t]) <==> n in Preorder(t)
  {
    BfsPermutes([t]);
    assert Forest([t]) == multiset(Preorder(t));
    DistinctToCounts(Preorder(t));
    CountsToDistinct(Bfs([t]));
    PreorderSize(t);
    assert |Bfs([t])| == |multiset(Bfs([t]))|;
    forall n
      ensures n in Bfs([t]) <==> n in Preorder(t)
    {
      assert n in Bfs([t]) <==> n in multiset(Bfs([t]));
      assert n in Preorder(t) <==> n in multiset(Preorder(t));
    }
  }

  lemma {:induction false} PreorderSize(t: Shape)
    ensures |Preorder(t)| == Size(t)
  {
    match t
    case Leaf =>
    case Branch(_, l, r) =>
      PreorderSize(l);
      PreorderSize(r);
  }

  // ---------------------------------------------------------------------
  // The enqueue order on the heap
  // ---------------------------------------------------------------------

  /** The non-null children of `n`, left first: what visiting it enqueues. */
  function Children(n: Node): (cs: seq<Node>)
    reads n
    ensures |cs| <= 2
  {
    (if n.left != null then [n.left] else []) + (if n.right != null then [n.right] else [])
  }

  /** Everything the visits of `out`, in order, enqueue. */
  function Enqueued(out: seq<Node>): seq<Node>
    reads set k | 0 <= k < |out| :: out[k]
  {
    if out == [] then [] else Enqueued(out[..|out| - 1]) + Children(out[|out| - 1])
  }

  /** How many nodes wait in the queue when the walk that puts out `out`
      takes its node of position `i`: the root and what the first `i` visits
      enqueued, less the `i` nodes taken before. */
  function QueueLength(out: seq<Node>, i: int): int
    requires 0 <= i <= |out|
    reads set k | 0 <= k < |out| :: out[k]
  {
    assert forall k | 0 <= k < i :: out[..i][k] == out[k];
    1 + |Enqueued(out[..i])| - i
  }

  /** The walk from `root` put out `out`: the root, then exactly what the
      visits enqueued, in that order; and the queue never ran dry early. */
  ghost predicate LevelOrder(root: Node, out: seq<Node>)
    reads set k | 0 <= k < |out| :: out[k]
  {
    out == [root] + Enqueued(out) &&
    forall i | 0 <= i < |out| :: QueueLength(out, i) > 0
  }

  lemma {:induction false} EnqueuedPrefix(out: seq<Node>, i: int)
    requires 0 <= i <= |out|
    ensures Enqueued(out[..i]) <= Enqueued(out)
    decreases |out| - i
  {
    if i < |out| {
      EnqueuedPrefix(out, i + 1);
      assert out[..i + 1][..i] == out[..i];
    } else {
      assert out[..i] == out;
    }
  }

  /** In level order the children of the node at position `i` stand together
      after it, left before right, at the position where everything enqueued
      before it ends. */
  lemma ChildrenFollow(root: Node, out: seq<Node>, i: int)
    requires LevelOrder(root, out) && 0 <= i < |out|
    ensures var s := 1 + |Enqueued(out[..i])|;
      i < s && s + |Children(out[i])| <= |out| &&
      (out[i].left != null ==> out[s] == out[i].left) &&
      (out[i].right != null ==> out[s + if out[i].left != null then 1 else 0] == out[i].right)
  {
    assert QueueLength(out, i) > 0;
    var e, before, cs := Enqueued(out), Enqueued(out[..i]), Children(out[i]);
    EnqueuedPrefix(out, i + 1);
    assert out[..i + 1] == out[..i] + [out[i]];
    EnqueuedSnoc(out[..i], out[i]);
    PrefixAt(before, cs, e);
    ShiftedSlots(root, out, e, |before|, cs);
    Slots(out, 1 + |before|, out[i]);
  }

  lemma ShiftedSlots(root: Node, out: seq<Node>, e: seq<Node>, p: nat, cs: seq<Node>)
    requires out == [root] + e && p + |cs| <= |e|
    requires forall m | 0 <= m < |cs| :: e[p + m] == cs[m]
    ensures forall m | 0 <= m < |cs| :: out[1 + p + m] == cs[m]
  {
    forall m | 0 <= m < |cs|
      ensures out[1 + p + m] == cs[m]
    {
      assert out[1 + p + m] == e[p + m];
    }
  }

  /** Where the children of `n` stand in `out` from position `s` on. */
  lemma Slots(out: seq<Node>, s: int, n: Node)
    requires 0 <= s && s + |Children(n)| <= |out|
    requires forall m | 0 <= m < |Children(n)| :: out[s + m] == Children(n)[m]
    ensures n.left != null ==> out[s] == n.left
    ensures n.right != null ==> out[s + if n.left != null then 1 else 0] == n.right
  {
    if n.left != null {
      assert Children(n)[0] == n.left;
    }
    if n.right != null {
      var r := if n.left != null then 1 else 0;
      assert Children(n)[r] == n.right;
    }
  }

  lemma PrefixAt<T>(a: seq<T>, b: seq<T>, c: seq<T>)
    requires a + b <= c
    ensures |a| + |b| <= |c|
    ensures forall m | 0 <= m < |b| :: c[|a| + m] == b[m]
  {
    forall m | 0 <= m < |b|
      ensures c[|a| + m] == b[m]
    {
      assert (a + b)[|a| + m] == b[m];
    }
  }

  /** Visits the tree from `root` level by level: a node is taken from the
      front of the queue, put out, and its children are queued, left first. */
  method CollectNodesBfs(root: Node?, ghost t: Shape) returns (out: seq<Node>)
    requires Describes(t, root)
    ensures out == Bfs([t])
    ensures root == null ==> out == []
    ensures root != null ==> out != [] && out[0] == root && LevelOrder(root, out)
  {
    if root == null {
      return [];
    }
    var q: seq<Node> := [root];
    ghost var qs := [t];
    out := [];
    WalkStarts(root, t);
    while q != []
      invariant Walking(root, t, qs, q, out)
      decreases SizeSum(qs)
    {
      ghost var before, waiting, shapes := out, q, qs;
      var n := q[0];
      q := q[1..];
      out := out + [n];
      ghost var lc: seq<Node> := if n.left != null then [n.left] else [];
      ghost var rc: seq<Node> := if n.right != null then [n.right] else [];
      if n.left != null {
        var c: Node := n.left;
        q := q + [c];
      }
      assert q == waiting[1..] + lc;
      if n.right != null {
        var c: Node := n.right;
        q := q + [c];
      }
      assert q == waiting[1..] + lc + rc;
      Assoc(waiting[1..], lc, rc);
      qs := qs[1..] + Kids(qs[0]);
      Visited(root, t, shapes, waiting, before, qs, q, out);
    }
    WalkEnds(root, t, qs, out);
  }

  /** The state of the walk from `root`, described by `t`: the queued nodes
      are described by the queued shapes, what is out followed by the walk
      from the queue is the whole walk, and the queue holds exactly what the
      visits so far enqueued and have not yet put out. */
  ghost predicate Walking(root: Node, t: Shape, qs: seq<Shape>, q: seq<Node>, out: seq<Node>)
    reads set k | 0 <= k < |out| :: out[k]
    reads set k | 0 <= k < |q| :: q[k]
    reads ShapeNodes(t)
    reads set k, n | 0 <= k < |qs| && n in ShapeNodes(qs[k]) :: n
  {
    |qs| == |q| &&
    (forall k | 0 <= k < |q| :: qs[k].Branch? && Describes(qs[k], q[k])) &&
    out + Bfs(qs) == Bfs([t]) &&
    out + q == [root] + Enqueued(out) &&
    forall i | 0 <= i < |out| :: QueueLength(out, i) > 0
  }

  /** The walk starts with the root queued and nothing out. */
  lemma WalkStarts(root: Node, t: Shape)
    requires Describes(t, root)
    ensures Walking(root, t, [t], [root], [])
  {
    assert [] + Bfs([t]) == Bfs([t]);
    assert [] + [root] == [root] + Enqueued([]);
  }

  /** Once the queue is empty, what is out is the whole walk, in level order. */
  lemma WalkEnds(root: Node, t: Shape, qs: seq<Shape>, out: seq<Node>)
    requires Walking(root, t, qs, [], out)
    ensures out == Bfs([t])
    ensures out != [] && out[0] == root && LevelOrder(root, out)
  {
    assert qs == [];
    assert out + [] == out;
  }

  /** One visit keeps the invariants of the walk and shrinks the shapes. */
  lemma Visited(root: Node, t: Shape, qs: seq<Shape>, q: seq<Node>, out: seq<Node>,
                qs': seq<Shape>, q': seq<Node>, out': seq<Node>)
    requires Walking(root, t, qs, q, out) && q != []
    requires q' == q[1..] + Children(q[0]) && out' == out + [q[0]] && qs' == qs[1..] + Kids(qs[0])
    ensures Walking(root, t, qs', q', out')
    ensures SizeSum(qs') < SizeSum(qs)
  {
    Requeue(qs, q);
    VisitedBfs(t, qs, out, qs', out');
    VisitedEnqueued(root, q, out, q', out');
  }

  lemma VisitedBfs(t: Shape, qs: seq<Shape>, out: seq<Node>, qs': seq<Shape>, out': seq<Node>)
    requires qs != [] && qs[0].Branch?
    requires out + Bfs(qs) == Bfs([t])
    requires out' == out + [qs[0].node] && qs' == qs[1..] + Kids(qs[0])
    ensures out' + Bfs(qs') == Bfs([t])
    ensures SizeSum(qs') < SizeSum(qs)
  {
    VisitShapes(qs);
    Assoc(out, [qs[0].node], Bfs(qs'));
  }

  lemma VisitedEnqueued(root: Node, q: seq<Node>, out: seq<Node>, q': seq<Node>, out': seq<Node>)
    requires q != []
    requires out + q == [root] + Enqueued(out)
    requires forall i | 0 <= i < |out| :: QueueLength(out, i) > 0
    requires q' == q[1..] + Children(q[0]) && out' == out + [q[0]]
    ensures out' + q' == [root] + Enqueued(out')
    ensures forall i | 0 <= i < |out'| :: QueueLength(out', i) > 0
  {
    var n := q[0];
    Assoc(out, [n], q');
    EnqueuedSnoc(out, n);
    assert out + q == out + [n] + q[1..] by {
      assert q == [n] + q[1..];
      Assoc(out, [n], q[1..]);
    }
    Assoc(out + [n], q[1..], Children(n));
    Assoc([root], Enqueued(out), Children(n));
    forall i | 0 <= i < |out'|
      ensures QueueLength(out', i) > 0
    {
      if i < |out| {
        assert out'[..i] == out[..i];
        assert QueueLength(out', i) == QueueLength(out, i);
      } else {
        assert out'[..i] == out;
        assert |out| + |q| == 1 + |Enqueued(out)|;
      }
    }
  }

  lemma Assoc<T>(a: seq<T>, b: seq<T>, c: seq<T>)
    ensures (a + b) + c == a + (b + c)
  {
  }

  /** The queue of shapes follows the queue of nodes through one visit. */
  lemma Requeue(qs: seq<Shape>, q: seq<Node>)
    requires |qs| == |q| > 0
    requires forall k | 0 <= k < |q| :: qs[k].Branch? && Describes(qs[k], q[k])
    ensures qs[0].node == q[0]
    ensures |qs[1..] + Kids(qs[0])| == |q[1..] + Children(q[0])|
    ensures forall k | 0 <= k < |q[1..] + Children(q[0])| ::
              (qs[1..] + Kids(qs[0]))[k].Branch? && Describes((qs[1..] + Kids(qs[0]))[k], (q[1..] + Children(q[0]))[k])
  {
    var ks, cs := Kids(qs[0]), Children(q[0]);
    KidsDescribe(qs[0], q[0]);
    var qs', q' := qs[1..] + ks, q[1..] + cs;
    forall k | 0 <= k < |q'|
      ensures qs'[k].Branch? && Describes(qs'[k], q'[k])
    {
      if k < |q| - 1 {
        assert qs'[k] == qs[k + 1] && q'[k] == q[k + 1];
      } else {
        assert qs'[k] == ks[k - (|q| - 1)] && q'[k] == cs[k - (|q| - 1)];
      }
    }
  }

  /** The kids of a described node are described by its children's shapes. */
  lemma KidsDescribe(t: Shape, n: Node)
    requires t.Branch? && Describes(t, n)
    ensures |Kids(t)| == |Children(n)|
    ensures forall k | 0 <= k < |Kids(t)| :: Kids(t)[k].Branch? && Describes(Kids(t)[k], Children(n)[k])
  {
    var l, r := t.left, t.right;
    assert Describes(l, n.left) && Describes(r, n.right);
    assert l.Branch? <==> n.left != null;
    assert r.Branch? <==> n.right != null;
    var lk, rk := OneKid(l), OneKid(r);
    var lc: seq<Node> := if n.left != null then [n.left] else [];
    var rc: seq<Node> := if n.right != null then [n.right] else [];
    assert Kids(t) == lk + rk && Children(n) == lc + rc;
    forall k | 0 <= k < |Kids(t)|
      ensures Kids(t)[k].Branch? && Describes(Kids(t)[k], Children(n)[k])
    {
      if k < |lk| {
        assert Kids(t)[k] == l && Children(n)[k] == n.left;
      } else {
        assert Kids(t)[k] == r && Children(n)[k] == n.right;
      }
    }
  }

  lemma EnqueuedSnoc(before: seq<Node>, n: Node)
    ensures Enqueued(before + [n]) == Enqueued(before) + Children(n)
  {
    assert (before + [n])[..|before|] == before;
  }

  // ---------------------------------------------------------------------
  // Trees in heap layout
  // ---------------------------------------------------------------------

  /** The shape of the heap-layout tree hanging from index `i` of `ns`. */
  function HeapShape(ns: seq<Node>, i: int): Shape
    requires 0 <= i
    decreases |ns| - i
  {
    if i >= |ns| then Leaf else Branch(ns[i], HeapShape(ns, 2 * i + 1), HeapShape(ns, 2 * i + 2))
  }

  /** With heap-layout links, HeapShape is the tree hanging from each node. */
  lemma {:induction false} HeapDescribes(ns: seq<Node>, i: int)
    requires HeapLinked(ns) && 0 <= i
    ensures Describes(HeapShape(ns, i), Child(ns, i))
    decreases |ns| - i
  {
    if i < |ns| {
      HeapDescribes(ns, 2 * i + 1);
      HeapDescribes(ns, 2 * i + 2);
    }
  }

  /** The queue of the walk over a heap-layout tree once the first `k`
      nodes are out: the subtrees of indices k up to 2k, within the array. */
  function HeapQueue(ns: seq<Node>, k: int): (qs: seq<Shape>)
    requires 0 <= k <= |ns|
  {
    var hi := if 2 * k + 1 < |ns| then 2 * k + 1 else |ns|;
    seq(hi - k, j requires 0 <= j < hi - k => HeapShape(ns, k + j))
  }

  lemma {:induction false} HeapQueueBfs(ns: seq<Node>, k: int)
    requires 0 <= k <= |ns|
    ensures Bfs(HeapQueue(ns, k)) == ns[k..]
    decreases |ns| - k
  {
    if k < |ns| {
      HeapQueueNext(ns, k);
      HeapQueueBfs(ns, k + 1);
      BfsStep(HeapQueue(ns, k), HeapQueue(ns, k + 1), ns[k], ns[k + 1..]);
      DropOne(ns, k);
    }
  }

  lemma DropOne<T>(s: seq<T>, k: int)
    requires 0 <= k < |s|
    ensures s[k..] == [s[k]] + s[k + 1..]
  {
  }

  lemma BfsStep(qs: seq<Shape>, next: seq<Shape>, n: Node, rest: seq<Node>)
    requires qs != [] && qs[0].Branch? && qs[0].node == n
    requires qs[1..] + Kids(qs[0]) == next && Bfs(next) == rest
    ensures Bfs(qs) == [n] + rest
  {
    VisitShapes(qs);
  }

  /** Visiting the front of the heap queue after `k` nodes gives the heap
      queue after `k + 1`. */
  lemma HeapQueueNext(ns: seq<Node>, k: int)
    requires 0 <= k < |ns|
    ensures HeapQueue(ns, k) != [] && HeapQueue(ns, k)[0].Branch? && HeapQueue(ns, k)[0].node == ns[k]
    ensures HeapQueue(ns, k)[1..] + Kids(HeapQueue(ns, k)[0]) == HeapQueue(ns, k + 1)
  {
    var qs, next := HeapQueue(ns, k), HeapQueue(ns, k + 1);
    var t := HeapShape(ns, k);
    assert qs[0] == t;
    var rest := qs[1..] + Kids(t);
    HeapQueueLength(ns, k);
    forall j | 0 <= j < |next|
      ensures rest[j] == next[j]
    {
      HeapQueueEntry(ns, k, j);
    }
  }

  lemma HeapQueueLength(ns: seq<Node>, k: int)
    requires 0 <= k < |ns|
    ensures |HeapQueue(ns, k)[1..] + Kids(HeapShape(ns, k))| == |HeapQueue(ns, k + 1)|
  {
    var n := |ns|;
    var qs, next := HeapQueue(ns, k), HeapQueue(ns, k + 1);
    var lk, rk := OneKid(HeapShape(ns, 2 * k + 1)), OneKid(HeapShape(ns, 2 * k + 2));
    var kids := Kids(HeapShape(ns, k));
    assert kids == lk + rk;
    assert |qs[1..] + kids| == |qs| - 1 + |lk| + |rk|;
    if 2 * k + 2 < n {
      assert |HeapQueue(ns, k)| == k + 1 && |HeapQueue(ns, k + 1)| == k + 2;
      assert |lk| == 1 && |rk| == 1;
    } else if 2 * k + 1 < n {
      assert |HeapQueue(ns, k)| == k + 1 && |HeapQueue(ns, k + 1)| == k + 1;
      assert |lk| == 1 && rk == [];
    } else {
      assert |HeapQueue(ns, k)| == n - k && |HeapQueue(ns, k + 1)| == n - k - 1;
      assert lk == [] && rk == [];
    }
  }

  /** Entry `j` of the queue after visiting index `k` is the shape of index
      `k + 1 + j`, as in the heap queue after `k + 1`. */
  lemma HeapQueueEntry(ns: seq<Node>, k: int, j: int)
    requires 0 <= k < |ns| && 0 <= j < |HeapQueue(ns, k + 1)|
    requires |HeapQueue(ns, k)[1..] + Kids(HeapShape(ns, k))| == |HeapQueue(ns, k + 1)|
    ensures (HeapQueue(ns, k)[1..] + Kids(HeapShape(ns, k)))[j] == HeapQueue(ns, k + 1)[j]
  {
    var qs, next := HeapQueue(ns, k), HeapQueue(ns, k + 1);
    var lk, rk := OneKid(HeapShape(ns, 2 * k + 1)), OneKid(HeapShape(ns, 2 * k + 2));
    var kids := lk + rk;
    assert Kids(HeapShape(ns, k)) == kids;
    var s := HeapShape(ns, k + 1 + j);
    assert next[j] == s;
    if j < |qs| - 1 {
      assert (qs[1..] + kids)[j] == qs[j + 1];
    } else {
      var i := j - (|qs| - 1);
      assert |qs| == k + 1 && 2 * k + 1 < |ns|;
      assert (qs[1..] + kids)[j] == kids[i];
      if i == 0 {
        assert lk == [s];
      } else {
        assert 2 * k + 2 < |ns|;
        assert |lk| == 1 && rk == [s];
      }
    }
  }

  /** Visiting a tree built in heap layout gives back the array's order. */
  lemma HeapRoundTrip(ns: seq<Node>)
    requires HeapLinked(ns) && ns != []
    ensures Describes(HeapShape(ns, 0), ns[0])
    ensures Bfs([HeapShape(ns, 0)]) == ns
  {
    HeapDescribes(ns, 0);
    assert HeapQueue(ns, 0) == [HeapShape(ns, 0)];
    HeapQueueBfs(ns, 0);
  }

  /** The shape of the whole heap-layout tree over `ns`. */
  ghost function TreeShape(ns: seq<Node>): Shape
  {
    if ns == [] then Leaf else HeapShape(ns, 0)
  }

  /** The walk over the whole heap-layout tree is the array of nodes. */
  lemma TreeWalk(ns: seq<Node>, root: Node?)
    requires HeapLinked(ns) && root == if ns == [] then null else ns[0]
    ensures Describes(TreeShape(ns), root)
    ensures Bfs([TreeShape(ns)]) == ns
  {
    if ns == [] {
      assert Bfs([Leaf]) == Bfs([]);
    } else {
      HeapRoundTrip(ns);
    }
  }

  /** Builds the tree for `heap` and collects its nodes breadth first: their
      keys are the array again. */
  method LevelOrderKeys(heap: seq<int>) returns (keys: seq<int>)
    ensures keys == heap
  {
    var root, nodes := HeapToTree(heap);
    TreeWalk(nodes, root);
    var out := CollectNodesBfs(root, TreeShape(nodes));
    keys := Keys(out);
  }

  /** The keys of `out`, in order. */
  function Keys(out: seq<Node>): (keys: seq<int>)
    reads Objects(out)
    ensures |keys| == |out| && forall j | 0 <= j < |out| :: keys[j] == out[j].val
  {
    if out == [] then [] else [out[0].val] + Keys(out[1..])
  }

}
