/**
 * A singly linked list of integers and its merge sort
 * (task_1_linked_list.py).
 *
 * Nodes are heap objects whose `next` fields the operations rewire. A
 * list is described by the ghost sequence of its nodes: `IsList(head, ns)`
 * says that `head` starts a null-terminated chain through exactly the
 * distinct nodes `ns`, in order. The values a list holds are `Values(ns)`.
 */
module LinkedList {
  import opened Sequences

  /** `Node(value, next)`. Nothing in the list code writes `value` after construction. */
  class Node {
    const value: int
    var next: Node?

    constructor (value: int)
      ensures this.value == value && next == null
    {
      this.value := value;
      next := null;
    }
  }

  /** No node is in both sequences. */
  ghost predicate Disjoint(xs: seq<Node>, ys: seq<Node>) {
    forall i, j | 0 <= i < |xs| && 0 <= j < |ys| :: xs[i] != ys[j]
  }

  /** What the `i`th node of a list links to: the next node, or null after the last. */
  ghost function Successor(ns: seq<Node>, i: int): Node?
    requires 0 <= i < |ns|
  {
    if i + 1 < |ns| then ns[i + 1] else null
  }

  /** `head` starts a null-terminated chain through exactly the distinct nodes `ns`, in order. */
  ghost predicate IsList(head: Node?, ns: seq<Node>)
    reads Objects(ns)
  {
    && (if ns == [] then head == null else head == ns[0])
    && (forall i | 0 <= i < |ns| :: ns[i].next == Successor(ns, i))
    && Distinct(ns)
  }

  /** The values met walking the nodes, as `to_list` collects them. */
  function Values(ns: seq<Node>): (vs: seq<int>)
    ensures |vs| == |ns| && forall i | 0 <= i < |ns| :: vs[i] == ns[i].value
  {
    seq(|ns|, i requires 0 <= i < |ns| => ns[i].value)
  }

  predicate Sorted(s: seq<int>) {
    forall i, j | 0 <= i < j < |s| :: s[i] <= s[j]
  }

  /**
   * The order `merge_sorted_lists` links the nodes of two lists in: while both
   * are non-empty it takes the head of `xs` when its value is no larger than
   * the head of `ys`, and otherwise the head of `ys`; then the rest of
   * whichever is left over.
   */
  ghost function Merge(xs: seq<Node>, ys: seq<Node>): seq<Node>
    decreases |xs| + |ys|
  {
    if xs == [] then ys
    else if ys == [] then xs
    else if xs[0].value <= ys[0].value then [xs[0]] + Merge(xs[1..], ys)
    else [ys[0]] + Merge(xs, ys[1..])
  }

  /** The merge holds the nodes of both inputs, each as often as the inputs together do. */
  lemma {:induction false} MergeElements(xs: seq<Node>, ys: seq<Node>)
    ensures multiset(Merge(xs, ys)) == multiset(xs) + multiset(ys)
    decreases |xs| + |ys|
  {
    if xs == [] || ys == [] {
    } else if xs[0].value <= ys[0].value {
      MergeElements(xs[1..], ys);
      MultisetCons(xs);
    } else {
      MergeElements(xs, ys[1..]);
      MultisetCons(ys);
    }
  }

  /** The merge holds the values of both inputs, each as often as the inputs together do. */
  lemma {:induction false} MergeValues(xs: seq<Node>, ys: seq<Node>)
    ensures multiset(Values(Merge(xs, ys))) == multiset(Values(xs)) + multiset(Values(ys))
    decreases |xs| + |ys|
  {
    if xs == [] || ys == [] {
    } else if xs[0].value <= ys[0].value {
      MergeValues(xs[1..], ys);
      ValueCons(xs);
      ValuesCons(xs[0], Merge(xs[1..], ys));
    } else {
      MergeValues(xs, ys[1..]);
      ValueCons(ys);
      ValuesCons(ys[0], Merge(xs, ys[1..]));
    }
  }

  lemma ValueCons(ns: seq<Node>)
    requires ns != []
    ensures multiset(Values(ns)) == multiset{ns[0].value} + multiset(Values(ns[1..]))
  {
    MultisetCons(Values(ns));
    assert Values(ns)[1..] == Values(ns[1..]);
  }

  lemma ValuesCons(n: Node, ns: seq<Node>)
    ensures Values([n] + ns) == [n.value] + Values(ns)
    ensures multiset(Values([n] + ns)) == multiset{n.value} + multiset(Values(ns))
  {
    assert Values([n] + ns) == [n.value] + Values(ns);
  }

  lemma ValuesSnoc(ns: seq<Node>, n: Node)
    ensures Values(ns + [n]) == Values(ns) + [n.value]
  {
  }

  lemma ValuesConcat(xs: seq<Node>, ys: seq<Node>)
    ensures Values(xs + ys) == Values(xs) + Values(ys)
  {
  }

  lemma MultisetCons<T>(s: seq<T>)
    requires s != []
    ensures multiset(s) == multiset{s[0]} + multiset(s[1..])
    ensures multiset(s[1..]) == multiset(s) - multiset{s[0]}
  {
    assert s == [s[0]] + s[1..];
  }

  /** Every node of the merge comes from one of the inputs. */
  lemma MergeMember(xs: seq<Node>, ys: seq<Node>, n: Node)
    requires n in Merge(xs, ys)
    ensures n in xs || n in ys
  {
    MergeElements(xs, ys);
    assert n in multiset(Merge(xs, ys));
  }

  /** Merging two sorted lists gives a sorted list. */
  lemma {:induction false} MergeSorted(xs: seq<Node>, ys: seq<Node>)
    requires Sorted(Values(xs)) && Sorted(Values(ys))
    ensures Sorted(Values(Merge(xs, ys)))
    decreases |xs| + |ys|
  {
    if xs == [] || ys == [] {
    } else {
      var h, rest;
      if xs[0].value <= ys[0].value {
        h, rest := xs[0], Merge(xs[1..], ys);
        assert Sorted(Values(xs[1..])) by {
          assert forall k | 0 <= k < |xs| - 1 :: Values(xs[1..])[k] == Values(xs)[k + 1];
        }
        MergeSorted(xs[1..], ys);
        forall n | n in rest
          ensures h.value <= n.value
        {
          MergeMember(xs[1..], ys, n);
          if n in xs[1..] {
            var k :| 0 <= k < |xs[1..]| && xs[1..][k] == n;
            assert Values(xs)[0] <= Values(xs)[k + 1];
          } else {
            var k :| 0 <= k < |ys| && ys[k] == n;
            assert Values(ys)[0] <= Values(ys)[k];
          }
        }
      } else {
        h, rest := ys[0], Merge(xs, ys[1..]);
        assert Sorted(Values(ys[1..])) by {
          assert forall k | 0 <= k < |ys| - 1 :: Values(ys[1..])[k] == Values(ys)[k + 1];
        }
        MergeSorted(xs, ys[1..]);
        forall n | n in rest
          ensures h.value <= n.value
        {
          MergeMember(xs, ys[1..], n);
          if n in ys[1..] {
            var k :| 0 <= k < |ys[1..]| && ys[1..][k] == n;
            assert Values(ys)[0] <= Values(ys)[k + 1];
          } else {
            var k :| 0 <= k < |xs| && xs[k] == n;
            assert Values(xs)[0] <= Values(xs)[k];
          }
        }
      }
      assert Merge(xs, ys) == [h] + rest;
      SortedCons(h, rest);
    }
  }

  /** A node no larger than every node of a sorted list can go in front of it. */
  lemma SortedCons(h: Node, rest: seq<Node>)
    requires Sorted(Values(rest))
    requires forall n | n in rest :: h.value <= n.value
    ensures Sorted(Values([h] + rest))
  {
    var s := Values([h] + rest);
    forall i, j | 0 <= i < j < |s|
      ensures s[i] <= s[j]
    {
      assert ([h] + rest)[j] == rest[j - 1];
      if i > 0 {
        assert ([h] + rest)[i] == rest[i - 1];
        assert Values(rest)[i - 1] <= Values(rest)[j - 1];
      }
    }
  }

  /** Merging two lists of distinct nodes that share none gives distinct nodes. */
  lemma {:induction false} MergeDistinct(xs: seq<Node>, ys: seq<Node>)
    requires Distinct(xs) && Distinct(ys) && Disjoint(xs, ys)
    ensures Distinct(Merge(xs, ys))
    decreases |xs| + |ys|
  {
    if xs == [] || ys == [] {
    } else if xs[0].value <= ys[0].value {
      MergeDistinct(xs[1..], ys);
      var rest := Merge(xs[1..], ys);
      if xs[0] in rest {
        MergeMember(xs[1..], ys, xs[0]);
      }
      DistinctCons(xs[0], rest);
    } else {
      MergeDistinct(xs, ys[1..]);
      var rest := Merge(xs, ys[1..]);
      if ys[0] in rest {
        MergeMember(xs, ys[1..], ys[0]);
      }
      DistinctCons(ys[0], rest);
    }
  }

  lemma DistinctCons(h: Node, rest: seq<Node>)
    requires Distinct(rest) && h !in rest
    ensures Distinct([h] + rest)
  {
    var s := [h] + rest;
    forall i, j | 0 <= i < j < |s|
      ensures s[i] != s[j]
    {
      assert s[j] == rest[j - 1];
    }
  }

  /**
   * The merge is stable: where a node of `ys` is placed before a node of
   * `xs`, its value is strictly smaller, so on equal values the node of `xs`
   * comes first.
   */
  lemma {:induction false} MergeStable(xs: seq<Node>, ys: seq<Node>)
    requires Sorted(Values(xs)) && Distinct(xs) && Disjoint(xs, ys)
    ensures forall i, j | 0 <= i < j < |Merge(xs, ys)| && Merge(xs, ys)[i] in ys && Merge(xs, ys)[j] in xs ::
      Merge(xs, ys)[i].value < Merge(xs, ys)[j].value
    decreases |xs| + |ys|
  {
    var m := Merge(xs, ys);
    if xs == [] || ys == [] {
    } else if xs[0].value <= ys[0].value {
      var rest := Merge(xs[1..], ys);
      assert Sorted(Values(xs[1..])) by {
        assert forall k | 0 <= k < |xs| - 1 :: Values(xs[1..])[k] == Values(xs)[k + 1];
      }
      MergeStable(xs[1..], ys);
      forall i, j | 0 <= i < j < |m| && m[i] in ys && m[j] in xs
        ensures m[i].value < m[j].value
      {
        assert m[i] == rest[i - 1] && m[j] == rest[j - 1];
        MergeMember(xs[1..], ys, m[j]);
        assert m[j] in xs[1..];
      }
    } else {
      var rest := Merge(xs, ys[1..]);
      MergeStable(xs, ys[1..]);
      forall i, j | 0 <= i < j < |m| && m[i] in ys && m[j] in xs
        ensures m[i].value < m[j].value
      {
        assert m[j] == rest[j - 1];
        if i == 0 {
          var k :| 0 <= k < |xs| && xs[k] == m[j];
          assert Values(xs)[0] <= Values(xs)[k];
        } else {
          assert m[i] == rest[i - 1];
          MergeMember(xs, ys[1..], m[i]);
          assert m[i] in ys[1..];
        }
      }
    }
  }

  /**
   * `split_middle`: a slow pointer walks one node for every two of a fast
   * pointer; the list is cut in front of the slow pointer. A list of `n >= 2`
   * nodes becomes its first `n / 2` and its last `n - n / 2` nodes; a single
   * node is returned as both halves, untouched; no list gives two nulls.
   */
  method SplitMiddle(head: Node?, ghost ns: seq<Node>) returns (left: Node?, right: Node?)
    requires IsList(head, ns)
    modifies Objects(ns)
    ensures |ns| == 0 ==> left == null && right == null
    ensures |ns| == 1 ==> left == head && right == head && IsList(head, ns)
    ensures |ns| >= 2 ==> IsList(left, ns[..|ns| / 2]) && IsList(right, ns[|ns| / 2..])
  {
    var slow: Node? := head;
    var fast: Node? := head;
    var prev: Node? := null;
    ghost var k := 0;
    while fast != null && fast.next != null
      invariant 0 <= 2 * k <= |ns|
      invariant IsList(head, ns)
      invariant slow == if k < |ns| then ns[k] else null
      invariant fast == if 2 * k < |ns| then ns[2 * k] else null
      invariant prev == if k == 0 then null else ns[k - 1]
      decreases |ns| - k
    {
      assert ns[2 * k].next == if 2 * k + 1 < |ns| then ns[2 * k + 1] else null;
      assert ns[2 * k + 1].next == if 2 * k + 2 < |ns| then ns[2 * k + 2] else null;
      assert ns[k].next == ns[k + 1];
      prev := slow;
      slow := slow.next;
      fast := fast.next.next;
      k := k + 1;
    }
    assert k == |ns| / 2;
    if prev != null {
      assert forall i | 0 <= i < |ns| && i != k - 1 :: ns[i] != prev;
      prev.next := null;
      CutHalves(ns, k);
    }
    left := head;
    right := slow;
  }

  /** A chain whose `k - 1`st node has been cut from the `k`th is two lists. */
  lemma CutHalves(ns: seq<Node>, k: nat)
    requires 0 < k < |ns| && Distinct(ns)
    requires forall i | 0 <= i < |ns| && i != k - 1 :: ns[i].next == Successor(ns, i)
    requires ns[k - 1].next == null
    ensures IsList(ns[0], ns[..k]) && IsList(ns[k], ns[k..])
  {
    var ls, rs := ns[..k], ns[k..];
    forall i | 0 <= i < |ls|
      ensures ls[i].next == if i + 1 < |ls| then ls[i + 1] else null
    {
      assert ls[i] == ns[i];
      if i != k - 1 {
        assert ls[i + 1] == ns[i + 1];
      }
    }
    forall i | 0 <= i < |rs|
      ensures rs[i].next == if i + 1 < |rs| then rs[i + 1] else null
    {
      assert rs[i] == ns[k + i];
      assert ns[k + i].next == if k + i + 1 < |ns| then ns[k + i + 1] else null;
      if i + 1 < |rs| {
        assert rs[i + 1] == ns[k + i + 1];
      }
    }
    assert Distinct(ls) && Distinct(rs) by {
      assert forall i | 0 <= i < |rs| :: rs[i] == ns[k + i];
    }
  }

  /** Every node of the inputs is in the merge. */
  lemma MergeContains(xs: seq<Node>, ys: seq<Node>, n: Node)
    requires n in xs || n in ys
    ensures n in Merge(xs, ys)
  {
    MergeElements(xs, ys);
    assert n in multiset(xs) + multiset(ys);
  }

  /** The first step of a merge of two non-empty lists. */
  lemma MergeStep(xs: seq<Node>, ys: seq<Node>, i: nat, j: nat)
    requires i < |xs| && j < |ys|
    ensures xs[i].value <= ys[j].value ==> Merge(xs[i..], ys[j..]) == [xs[i]] + Merge(xs[i + 1..], ys[j..])
    ensures ys[j].value < xs[i].value ==> Merge(xs[i..], ys[j..]) == [ys[j]] + Merge(xs[i..], ys[j + 1..])
  {
    assert xs[i..][0] == xs[i] && xs[i..][1..] == xs[i + 1..];
    assert ys[j..][0] == ys[j] && ys[j..][1..] == ys[j + 1..];
  }

  /**
   * In a distinct sequence of nodes `out` followed by a merge, the last node
   * of `out` occurs nowhere else: not earlier in `out` and in neither input
   * of the merge.
   */
  lemma MergeApart(out: seq<Node>, xs: seq<Node>, ys: seq<Node>)
    requires |out| >= 1 && Distinct(out + Merge(xs, ys))
    ensures out[|out| - 1] !in xs && out[|out| - 1] !in ys && out[|out| - 1] !in Merge(xs, ys)
    ensures forall k | 0 <= k < |out| - 1 :: out[k] != out[|out| - 1]
  {
    var r := Merge(xs, ys);
    var t := out[|out| - 1];
    assert (out + r)[|out| - 1] == t;
    forall k | 0 <= k < |r|
      ensures r[k] != t
    {
      assert (out + r)[|out| + k] == r[k];
    }
    if t in xs || t in ys {
      MergeContains(xs, ys, t);
    }
    forall k | 0 <= k < |out| - 1
      ensures out[k] != t
    {
      assert (out + r)[k] == out[k];
    }
  }

  /** A list is empty exactly when its head is null, and has one node exactly when that node links to null. */
  lemma ListShape(head: Node?, ns: seq<Node>)
    requires IsList(head, ns)
    ensures head == null <==> |ns| == 0
    ensures head != null ==> (head.next == null <==> |ns| == 1)
  {
    if ns != [] {
      assert ns[0].next == Successor(ns, 0);
    }
  }

  /** The nodes after the head of a non-empty list form a list. */
  lemma ListRest(head: Node?, ns: seq<Node>, i: nat)
    requires i < |ns| && IsList(head, ns[i..])
    ensures head == ns[i] && head.next == Successor(ns, i) && IsList(head.next, ns[i + 1..])
  {
    var s, rest := ns[i..], ns[i + 1..];
    assert s[0] == ns[i] && s[0].next == Successor(s, 0);
    forall k | 0 <= k < |rest|
      ensures rest[k].next == Successor(rest, k)
    {
      assert rest[k] == s[k + 1];
      assert s[k + 1].next == Successor(s, k + 1);
    }
    assert Distinct(rest) by {
      assert forall k | 0 <= k < |rest| :: rest[k] == s[k + 1];
    }
  }

  /** A chain stays a chain when its last node is linked to one more node. */
  lemma LinksExtend(out: seq<Node>, x: Node)
    requires |out| >= 1
    requires forall k | 0 <= k < |out| - 1 :: out[k].next == Successor(out, k)
    requires out[|out| - 1].next == x
    ensures forall k | 0 <= k < |out| :: (out + [x])[k].next == Successor(out + [x], k)
  {
    forall k | 0 <= k < |out|
      ensures (out + [x])[k].next == Successor(out + [x], k)
    {
      assert (out + [x])[k] == out[k];
      if k < |out| - 1 {
        assert out[k].next == Successor(out, k);
      }
    }
  }

  /**
   * A chain `out` whose last node links to the list `rest`, with no node
   * repeated, is a list from the node after `out[0]`.
   */
  lemma Joined(out: seq<Node>, rest: seq<Node>, r: Node?)
    requires |out| >= 1
    requires forall k | 0 <= k < |out| - 1 :: out[k].next == Successor(out, k)
    requires out[|out| - 1].next == r && IsList(r, rest)
    requires Distinct(out[1..] + rest)
    ensures IsList(out[0].next, out[1..] + rest)
  {
    var s := out[1..] + rest;
    forall k | 0 <= k < |s|
      ensures s[k].next == Successor(s, k)
    {
      if k + 1 < |out| - 1 {
        assert s[k] == out[k + 1] && s[k + 1] == out[k + 2];
        assert out[k + 1].next == Successor(out, k + 1);
      } else if k + 1 == |out| - 1 {
        assert s[k] == out[|out| - 1];
        if rest != [] {
          assert s[k + 1] == rest[0];
        }
      } else {
        assert s[k] == rest[k - |out| + 1];
        assert rest[k - |out| + 1].next == Successor(rest, k - |out| + 1);
        if k + 1 < |s| {
          assert s[k + 1] == rest[k - |out| + 2];
        }
      }
    }
    if |out| > 1 {
      assert out[0].next == Successor(out, 0);
    }
  }

  /**
   * The state of the loop of `merge_sorted_lists`: `out` is the chain built
   * so far, from the dummy node `out[0]` to `tail`; `p` and `q` are the
   * rests `xs[i..]` and `ys[j..]` of the two lists, still intact; and the
   * chain followed by the merge of the rests is the dummy followed by the
   * merge `m` of the two whole lists.
   */
  ghost predicate Merging(xs: seq<Node>, ys: seq<Node>, m: seq<Node>, out: seq<Node>,
                          i: int, j: int, p: Node?, q: Node?, tail: Node)
    reads Objects(xs), Objects(ys), Objects(out)
  {
    && 0 <= i <= |xs| && 0 <= j <= |ys|
    && IsList(p, xs[i..]) && IsList(q, ys[j..])
    && |out| >= 1 && tail == out[|out| - 1]
    && Distinct([out[0]] + m)
    && out + Merge(xs[i..], ys[j..]) == [out[0]] + m
    && (forall k | 0 <= k < |out| - 1 :: out[k].next == Successor(out, k))
  }

  /** One round of the loop of `merge_sorted_lists`: link the smaller head (the one of `p` on a tie) after `tail`. */
  method TakeSmaller(tail: Node, p: Node, q: Node, ghost xs: seq<Node>, ghost ys: seq<Node>, ghost m: seq<Node>,
                     ghost out: seq<Node>, ghost i: int, ghost j: int)
    returns (tail': Node, p': Node?, q': Node?, ghost out': seq<Node>, ghost i': int, ghost j': int)
    requires Merging(xs, ys, m, out, i, j, p, q, tail)
    modifies tail
    ensures Merging(xs, ys, m, out', i', j', p', q', tail') && out'[0] == out[0]
    ensures tail' in Objects(xs) || tail' in Objects(ys)
    ensures (i', j') == if p.value <= q.value then (i + 1, j) else (i, j + 1)
  {
    ghost var r := Merge(xs[i..], ys[j..]);
    MergeStep(xs, ys, i, j);
    MergeApart(out, xs[i..], ys[j..]);
    p', q', i', j' := p, q, i, j;
    if p.value <= q.value {
      ListRest(p, xs, i);
      tail.next := p;
      p' := p.next;
      out' := out + [xs[i]];
      i' := i + 1;
      assert out + r == out' + Merge(xs[i'..], ys[j..]);
    } else {
      ListRest(q, ys, j);
      tail.next := q;
      q' := q.next;
      out' := out + [ys[j]];
      j' := j + 1;
      assert out + r == out' + Merge(xs[i..], ys[j'..]);
    }
    LinksExtend(out, out'[|out'| - 1]);
    tail' := tail.next;
  }

  /** Before the loop: an empty chain behind a dummy node that is in neither list. */
  lemma MergingStart(xs: seq<Node>, ys: seq<Node>, a: Node?, b: Node?, dummy: Node)
    requires IsList(a, xs) && IsList(b, ys) && Disjoint(xs, ys) && dummy !in xs && dummy !in ys
    ensures Merging(xs, ys, Merge(xs, ys), [dummy], 0, 0, a, b, dummy)
  {
    var m := Merge(xs, ys);
    MergeDistinct(xs, ys);
    forall k | 0 <= k < |m|
      ensures m[k] != dummy
    {
      MergeMember(xs, ys, m[k]);
    }
    DistinctCons(dummy, m);
    assert xs[0..] == xs && ys[0..] == ys;
  }

  /** When one of the rests is empty, the chain followed by the other rest is the merge. */
  lemma MergingDone(xs: seq<Node>, ys: seq<Node>, m: seq<Node>, out: seq<Node>,
                    i: int, j: int, p: Node?, q: Node?, tail: Node)
    requires Merging(xs, ys, m, out, i, j, p, q, tail) && (p == null || q == null)
    ensures var rest := if p != null then xs[i..] else ys[j..];
      && out[1..] + rest == m && (p != null ==> IsList(p, rest)) && (p == null ==> IsList(q, rest))
      && tail !in rest && (forall k | 0 <= k < |out| - 1 :: out[k] != tail)
      && Distinct(out[1..] + rest)
  {
    var rest := if p != null then xs[i..] else ys[j..];
    assert Merge(xs[i..], ys[j..]) == rest;
    MergeApart(out, xs[i..], ys[j..]);
    assert (out + rest)[1..] == out[1..] + rest;
    assert ([out[0]] + m)[1..] == m;
    forall a, b | 0 <= a < b < |m|
      ensures m[a] != m[b]
    {
      assert ([out[0]] + m)[a + 1] == m[a] && ([out[0]] + m)[b + 1] == m[b];
    }
  }

  /** After the loop of `merge_sorted_lists`: link whichever rest is left after `tail`. */
  method LinkRest(tail: Node, p: Node?, q: Node?, ghost xs: seq<Node>, ghost ys: seq<Node>, ghost m: seq<Node>,
                  ghost out: seq<Node>, ghost i: int, ghost j: int)
    requires Merging(xs, ys, m, out, i, j, p, q, tail) && (p == null || q == null)
    modifies tail
    ensures IsList(out[0].next, m)
  {
    ghost var rest := if p != null then xs[i..] else ys[j..];
    MergingDone(xs, ys, m, out, i, j, p, q, tail);
    tail.next := if p != null then p else q;
    Joined(out, rest, tail.next);
  }

  /**
   * `merge_sorted_lists`: relinks the nodes of two lists behind a fresh dummy
   * node into the order `Merge` describes and returns the node after the
   * dummy. Only `next` fields of the two lists' nodes change.
   */
  method MergeSortedLists(a: Node?, b: Node?, ghost xs: seq<Node>, ghost ys: seq<Node>) returns (h: Node?)
    requires IsList(a, xs) && IsList(b, ys) && Disjoint(xs, ys)
    modifies Objects(xs), Objects(ys)
    ensures IsList(h, Merge(xs, ys))
  {
    ghost var m := Merge(xs, ys);
    var dummy := new Node(0);
    var tail := dummy;
    var p, q := a, b;
    ghost var out: seq<Node> := [dummy];
    ghost var i, j := 0, 0;
    MergingStart(xs, ys, a, b, dummy);
    while p != null && q != null
      invariant Merging(xs, ys, m, out, i, j, p, q, tail) && out[0] == dummy
      invariant tail == dummy || tail in Objects(xs) || tail in Objects(ys)
      decreases |xs| - i + |ys| - j
    {
      tail, p, q, out, i, j := TakeSmaller(tail, p, q, xs, ys, m, out, i, j);
    }
    LinkRest(tail, p, q, xs, ys, m, out, i, j);
    h := dummy.next;
  }

  /** The two halves of a list of distinct nodes share no node and together make up the list. */
  lemma HalvesApart(ns: seq<Node>, k: nat)
    requires k <= |ns| && Distinct(ns)
    ensures Disjoint(ns[..k], ns[k..]) && ns == ns[..k] + ns[k..]
    ensures multiset(ns) == multiset(ns[..k]) + multiset(ns[k..])
  {
    forall a, b | 0 <= a < k && 0 <= b < |ns| - k
      ensures ns[..k][a] != ns[k..][b]
    {
      assert ns[..k][a] == ns[a] && ns[k..][b] == ns[k + b];
    }
  }

  /** Nodes of two sequences with the same elements as two disjoint ones are disjoint. */
  lemma DisjointSame(xs: seq<Node>, ys: seq<Node>, xs': seq<Node>, ys': seq<Node>)
    requires Disjoint(xs, ys) && multiset(xs') == multiset(xs) && multiset(ys') == multiset(ys)
    ensures Disjoint(xs', ys')
    ensures forall n | n in xs' :: n !in ys
  {
    forall n | n in xs'
      ensures n in xs && n !in ys
    {
      assert n in multiset(xs');
      var a :| 0 <= a < |xs| && xs[a] == n;
      forall b | 0 <= b < |ys|
        ensures ys[b] != n
      {
        assert xs[a] != ys[b];
      }
    }
    forall a, b | 0 <= a < |xs'| && 0 <= b < |ys'|
      ensures xs'[a] != ys'[b]
    {
      assert xs'[a] in xs' && ys'[b] in multiset(ys');
    }
  }

  lemma SameObjects(xs: seq<Node>, ys: seq<Node>)
    requires multiset(xs) == multiset(ys)
    ensures Objects(xs) == Objects(ys)
  {
    forall n | n in xs
      ensures n in ys
    {
      assert n in multiset(ys);
    }
    forall n | n in ys
      ensures n in xs
    {
      assert n in multiset(xs);
    }
  }

  /**
   * `merge_sort`: a list of at most one node is returned as it is; a longer
   * one is split in the middle, both halves are sorted and the results are
   * merged. The result holds the same nodes, in ascending order of value.
   */
  method MergeSort(head: Node?, ghost ns: seq<Node>) returns (h: Node?, ghost hs: seq<Node>)
    requires IsList(head, ns)
    modifies Objects(ns)
    ensures IsList(h, hs) && multiset(hs) == multiset(ns) && Sorted(Values(hs))
    ensures multiset(Values(hs)) == multiset(Values(ns))
    ensures |ns| <= 1 ==> h == head && hs == ns
    decreases |ns|
  {
    ListShape(head, ns);
    if head == null || head.next == null {
      return head, ns;
    }
    var left, right := SplitMiddle(head, ns);
    ghost var k := |ns| / 2;
    ghost var ls, rs := ns[..k], ns[k..];
    HalvesApart(ns, k);
    assert Objects(ls) !! Objects(rs) && Objects(ls) <= Objects(ns) && Objects(rs) <= Objects(ns);
    var l, lhs := MergeSort(left, ls);
    SameObjects(lhs, ls);
    assert Objects(lhs) !! Objects(rs);
    var r, rhs := MergeSort(right, rs);
    SameObjects(rhs, rs);
    DisjointSame(ls, rs, lhs, rhs);
    h := MergeSortedLists(l, r, lhs, rhs);
    hs := Merge(lhs, rhs);
    MergeElements(lhs, rhs);
    MergeValues(lhs, rhs);
    MergeSorted(lhs, rhs);
    ValuesConcat(ls, rs);
  }

  /** A fresh last node linked after a list makes a longer list. */
  lemma ListSnoc(head: Node?, ns: seq<Node>, x: Node)
    requires ns != [] && head == ns[0] && Distinct(ns) && x !in ns
    requires forall k | 0 <= k < |ns| - 1 :: ns[k].next == Successor(ns, k)
    requires ns[|ns| - 1].next == x && x.next == null
    ensures IsList(head, ns + [x])
  {
    var s := ns + [x];
    forall k | 0 <= k < |s|
      ensures s[k].next == Successor(s, k)
    {
      if k < |ns| - 1 {
        assert s[k] == ns[k] && ns[k].next == Successor(ns, k);
      }
    }
    forall a, b | 0 <= a < b < |s|
      ensures s[a] != s[b]
    {
      if b == |ns| {
        assert s[a] == ns[a];
      }
    }
  }

  /** What the `i`th node of a list links to once it has been turned around: the node before it, or null for the first. */
  ghost function Predecessor(ns: seq<Node>, i: int): Node?
    requires 0 <= i < |ns|
  {
    if i == 0 then null else ns[i - 1]
  }

  /** The first `k` nodes of the list `ns` link backwards and the others still link forwards. */
  ghost predicate TurnedUpTo(ns: seq<Node>, k: int)
    reads Objects(ns)
  {
    forall t | 0 <= t < |ns| :: ns[t].next == if t < k then Predecessor(ns, t) else Successor(ns, t)
  }

  /** Once every node links backwards, the nodes form the reversed list from the old last node. */
  lemma TurnedList(ns: seq<Node>)
    requires Distinct(ns) && TurnedUpTo(ns, |ns|)
    ensures IsList(if ns == [] then null else ns[|ns| - 1], Reversed(ns))
  {
    var r := Reversed(ns);
    forall t | 0 <= t < |r|
      ensures r[t].next == Successor(r, t)
    {
      assert r[t] == ns[|ns| - 1 - t];
      assert ns[|ns| - 1 - t].next == Predecessor(ns, |ns| - 1 - t);
      if t + 1 < |r| {
        assert r[t + 1] == ns[|ns| - 2 - t];
      }
    }
    forall a, b | 0 <= a < b < |r|
      ensures r[a] != r[b]
    {
      assert r[a] == ns[|ns| - 1 - a] && r[b] == ns[|ns| - 1 - b];
    }
  }

  /** The values of the reversed nodes are the reversed values. */
  lemma ValuesReversed(ns: seq<Node>)
    ensures Values(Reversed(ns)) == Reversed(Values(ns))
  {
  }

  /** Two sorted sequences with the same elements are equal: a sorted permutation is unique. */
  lemma {:induction false} SortedUnique(s: seq<int>, t: seq<int>)
    requires Sorted(s) && Sorted(t) && multiset(s) == multiset(t)
    ensures s == t
    decreases |s|
  {
    if s != [] {
      assert t != [] by {
        assert |t| == |multiset(t)| == |multiset(s)| == |s|;
      }
      assert s[0] == t[0] by {
        assert s[0] in multiset(t) && t[0] in multiset(s);
        var a :| 0 <= a < |t| && t[a] == s[0];
        var b :| 0 <= b < |s| && s[b] == t[0];
        assert t[0] <= t[a] && s[0] <= s[b];
      }
      assert multiset(s[1..]) == multiset(t[1..]) by {
        MultisetCons(s);
        MultisetCons(t);
      }
      SortedUnique(s[1..], t[1..]);
      assert s == [s[0]] + s[1..] && t == [t[0]] + t[1..];
    }
  }

  /**
   * The loop of `reverse`: walks the list once, pointing each node back at
   * the one before it, and returns the old last node.
   */
  method ReverseNodes(head: Node?, ghost ns: seq<Node>) returns (prev: Node?)
    requires IsList(head, ns)
    modifies Objects(ns)
    ensures IsList(prev, Reversed(ns))
  {
    prev := null;
    var cur := head;
    ghost var k := 0;
    while cur != null
      invariant 0 <= k <= |ns| && Distinct(ns)
      invariant prev == (if k == 0 then null else ns[k - 1])
      invariant cur == (if k < |ns| then ns[k] else null)
      invariant TurnedUpTo(ns, k)
      decreases |ns| - k
    {
      assert forall t | 0 <= t < |ns| && t != k :: ns[t] != cur;
      assert cur.next == Successor(ns, k);
      var nxt := cur.next;
      cur.next := prev;
      prev := cur;
      cur := nxt;
      k := k + 1;
    }
    TurnedList(ns);
  }

  /** The walk of `append`: follows `next` from the head of a non-empty list to its last node. */
  method LastNode(head: Node?, ghost ns: seq<Node>) returns (last: Node)
    requires IsList(head, ns) && ns != []
    ensures last == ns[|ns| - 1] && last.next == null
  {
    last := head;
    ghost var k := 0;
    while last.next != null
      invariant 0 <= k < |ns| && last == ns[k]
      decreases |ns| - k
    {
      assert ns[k].next == Successor(ns, k);
      last := last.next;
      k := k + 1;
    }
    assert ns[k].next == Successor(ns, k);
  }

  /**
   * `SinglyLinkedList`: the list object holds the head of its chain; the
   * ghost field `nodes` is the chain, front to back.
   */
  class SinglyLinkedList {
    var head: Node?
    ghost var nodes: seq<Node>

    ghost predicate Valid()
      reads this, Objects(nodes)
    {
      IsList(head, nodes)
    }

    /** The values in the list, front to back. */
    ghost function Contents(): seq<int>
      reads this
    {
      Values(nodes)
    }

    /** Builds the list by appending the given values one after the other to an empty list. */
    constructor (values: seq<int>)
      ensures Valid() && Contents() == values
      ensures forall t | 0 <= t < |nodes| :: fresh(nodes[t])
    {
      head := null;
      nodes := [];
      new;
      var i := 0;
      while i < |values|
        invariant 0 <= i <= |values|
        invariant Valid() && Contents() == values[..i]
        invariant forall t | 0 <= t < |nodes| :: fresh(nodes[t])
      {
        ghost var before := nodes;
        Append(values[i]);
        assert forall t | 0 <= t < |before| :: nodes[t] == before[t];
        assert values[..i + 1] == values[..i] + [values[i]];
        i := i + 1;
      }
    }

    /** `append`: walks to the last node and links a new node holding `value` after it. */
    method Append(value: int)
      requires Valid()
      modifies this, Objects(nodes)
      ensures Valid() && Contents() == old(Contents()) + [value]
      ensures |nodes| == |old(nodes)| + 1 && nodes == old(nodes) + [nodes[|nodes| - 1]]
      ensures fresh(nodes[|nodes| - 1])
    {
      var newNode := new Node(value);
      ValuesSnoc(nodes, newNode);
      if head == null {
        head := newNode;
        nodes := [newNode];
        return;
      }
      var cur := LastNode(head, nodes);
      cur.next := newNode;
      ListSnoc(head, nodes, newNode);
      nodes := nodes + [newNode];
    }

    /** `to_list`: the values met walking from the head to the end. */
    method ToList() returns (out: seq<int>)
      requires Valid()
      ensures out == Contents()
    {
      out := [];
      var cur := head;
      ghost var k := 0;
      while cur != null
        invariant 0 <= k <= |nodes| && cur == if k < |nodes| then nodes[k] else null
        invariant out == Values(nodes[..k])
        decreases |nodes| - k
      {
        assert nodes[k].next == Successor(nodes, k);
        assert nodes[..k + 1] == nodes[..k] + [nodes[k]];
        ValuesConcat(nodes[..k], [nodes[k]]);
        out := out + [cur.value];
        cur := cur.next;
        k := k + 1;
      }
      assert nodes[..k] == nodes;
    }

    /** `reverse`: turns every `next` pointer around and makes the old last node the head. */
    method Reverse()
      requires Valid()
      modifies this, Objects(nodes)
      ensures Valid() && nodes == Reversed(old(nodes))
      ensures Contents() == Reversed(old(Contents()))
    {
      head := ReverseNodes(head, nodes);
      nodes := Reversed(nodes);
      ValuesReversed(old(nodes));
    }

    /** `sort`: merge sorts the chain and keeps its new head. */
    method Sort()
      requires Valid()
      modifies this, Objects(nodes)
      ensures Valid() && multiset(nodes) == multiset(old(nodes))
      ensures Sorted(Contents()) && multiset(Contents()) == multiset(old(Contents()))
    {
      var h;
      ghost var hs;
      h, hs := MergeSort(head, nodes);
      head := h;
      nodes := hs;
    }
  }
}
