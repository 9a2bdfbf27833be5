/**
  The balanced search tree of assigned ranges, rewritten in place
  (tools/abi_artifact_parity.py:424-561). `Shows` ties a heap node to the value
  it stands for; every method is proved equal to the pure operation of the same
  name in `AvlModel`, including which node ends up where.
 */
module IntervalTree {
  import opened ByteAtoms
  import A = AvlModel

  class Node {
    var start: int
    var end: int
    var value: Meta
    var left: Node?
    var right: Node?
    var height: nat

    constructor (start: int, end: int, value: Meta)
      ensures Shows(this, A.Branch(A.Leaf, this, Interval(start, end, value), A.Leaf, 1))
    {
      this.start, this.end, this.value := start, end, value;
      left, right, height := null, null, 1;
    }
  }

  type Tree = A.Tree<Node>

  /** The nodes reachable from `root` hold exactly the fields `t` records. */
  ghost predicate Shows(root: Node?, t: Tree)
    reads A.Nodes(t)
    decreases t
  {
    match t
    case Leaf => root == null
    case Branch(left, node, item, right, height) =>
      && root == node
      && node.start == item.start && node.end == item.end && node.value == item.value
      && node.height == height
      && Shows(node.left, left) && Shows(node.right, right)
  }

  function IntervalHeight(node: Node?): nat
    reads node
  {
    if node == null then 0 else node.height
  }

  /** Needed to frame `Shows` over calls, which may allocate. */
  lemma {:induction false} NodesAllocated(t: Tree)
    ensures forall n :: n in A.Nodes(t) ==> allocated(n)
  {
    if t.Branch? {
      NodesAllocated(t.left);
      NodesAllocated(t.right);
    }
  }

  method UpdateIntervalHeight(node: Node, ghost t: Tree)
    requires A.Apart(t) && Shows(node, t)
    modifies node`height
    ensures Shows(node, A.Fix(t))
  {
    var l, r := IntervalHeight(node.left), IntervalHeight(node.right);
    node.height := 1 + (if l < r then r else l);
  }

  method RotateIntervalLeft(node: Node, ghost t: Tree) returns (replacement: Node)
    requires A.Apart(t) && Shows(node, t) && t.right.Branch?
    modifies node, t.right.node
    ensures Shows(replacement, A.RotateLeft(t))
  {
    NodesAllocated(t.right.right);
    assert node !in A.Nodes(t.right.right);
    replacement := node.right;
    node.right := replacement.left;
    replacement.left := node;
    ghost var lower := t.(right := t.right.left);
    UpdateIntervalHeight(node, lower);
    UpdateIntervalHeight(replacement, t.right.(left := A.Fix(lower)));
  }

  method RotateIntervalRight(node: Node, ghost t: Tree) returns (replacement: Node)
    requires A.Apart(t) && Shows(node, t) && t.left.Branch?
    modifies node, t.left.node
    ensures Shows(replacement, A.RotateRight(t))
  {
    NodesAllocated(t.left.left);
    assert node !in A.Nodes(t.left.left);
    replacement := node.left;
    node.left := replacement.right;
    replacement.right := node;
    ghost var lower := t.(left := t.left.right);
    UpdateIntervalHeight(node, lower);
    UpdateIntervalHeight(replacement, t.left.(right := A.Fix(lower)));
  }

  lemma HeightShown(node: Node?, t: Tree)
    requires Shows(node, t)
    ensures IntervalHeight(node) == A.Height(t)
  {
  }

  /** The branch of the balancing step for a left side two levels too tall. */
  method LowerLeft(node: Node, ghost t: Tree) returns (r: Node)
    requires A.Apart(t) && Shows(node, t)
    requires A.Height(t.left) - A.Height(t.right) > 1
    modifies A.Nodes(t)
    ensures Shows(r, A.Balance(t))
  {
    NodesAllocated(t);
    HeightShown(node.left.left, t.left.left);
    HeightShown(node.left.right, t.left.right);
    ghost var u := t;
    if IntervalHeight(node.left.left) < IntervalHeight(node.left.right) {
      A.RotateNodes(t.left);
      assert t.left.right.node in A.Nodes(t.left);
      var left := RotateIntervalLeft(node.left, t.left);
      node.left := left;
      u := t.(left := A.RotateLeft(t.left));
    }
    r := RotateIntervalRight(node, u);
  }

  /** The branch of the balancing step for a right side two levels too tall. */
  method LowerRight(node: Node, ghost t: Tree) returns (r: Node)
    requires A.Apart(t) && Shows(node, t)
    requires A.Height(t.right) - A.Height(t.left) > 1
    modifies A.Nodes(t)
    ensures Shows(r, A.Balance(t))
  {
    NodesAllocated(t);
    HeightShown(node.right.left, t.right.left);
    HeightShown(node.right.right, t.right.right);
    ghost var u := t;
    if IntervalHeight(node.right.right) < IntervalHeight(node.right.left) {
      A.RotateNodes(t.right);
      assert t.right.left.node in A.Nodes(t.right);
      var right := RotateIntervalRight(node.right, t.right);
      node.right := right;
      u := t.(right := A.RotateRight(t.right));
    }
    r := RotateIntervalLeft(node, u);
  }

  method BalanceInterval(node: Node, ghost t: Tree) returns (r: Node)
    requires A.Apart(t) && Shows(node, t)
    modifies A.Nodes(t)
    ensures Shows(r, A.Balance(t))
  {
    UpdateIntervalHeight(node, t);
    HeightShown(node.left, t.left);
    HeightShown(node.right, t.right);
    var balance := IntervalHeight(node.left) - IntervalHeight(node.right);
    if balance > 1 {
      r := LowerLeft(node, A.Fix(t));
    } else if balance < -1 {
      r := LowerRight(node, A.Fix(t));
    } else {
      r := node;
    }
  }

  /**
    The source asserts that no interval starts where the new one does. `depth` bounds
    the recursion: every nested call has one level less to go.
   */
  method InsertInterval(root: Node?, interval: Node, ghost t: Tree, ghost item: Interval, ghost depth: nat)
    returns (r: Node)
    requires A.Avl(t) && A.Height(t) <= depth
    requires A.Apart(t) && Shows(root, t) && interval !in A.Nodes(t)
    requires Shows(interval, A.Branch(A.Leaf, interval, item, A.Leaf, 1))
    requires !A.Has(t, item.start)
    modifies A.Nodes(t), interval
    ensures Shows(r, A.Insert(t, interval, item))
    decreases depth
  {
    if root == null {
      return interval;
    }
    NodesAllocated(t);
    A.InsertBelow(t, interval, item);
    ghost var u;
    if interval.start < root.start {
      var left := InsertInterval(root.left, interval, t.left, item, depth - 1);
      root.left := left;
      u := t.(left := A.Insert(t.left, interval, item));
    } else if interval.start > root.start {
      var right := InsertInterval(root.right, interval, t.right, item, depth - 1);
      root.right := right;
      u := t.(right := A.Insert(t.right, interval, item));
    } else {
      assert false;
    }
    r := BalanceInterval(root, u);
  }

  /** The source asserts that an interval with this start exists. */
  method RemoveInterval(root: Node?, start: int, ghost t: Tree, ghost depth: nat) returns (r: Node?)
    requires A.Avl(t) && A.Height(t) <= depth
    requires A.Apart(t) && Shows(root, t)
    requires A.Sorted(A.Items(t)) && A.Has(t, start)
    modifies A.Nodes(t)
    ensures Shows(r, A.Remove(t, start))
    decreases depth, 1
  {
    A.SortedParts(t);
    NodesAllocated(t);
    ghost var u;
    if start < root.start {
      A.RemoveNodes(t.left, start);
      var left := RemoveInterval(root.left, start, t.left, depth - 1);
      root.left := left;
      u := t.(left := A.Remove(t.left, start));
    } else if start > root.start {
      A.RemoveNodes(t.right, start);
      var right := RemoveInterval(root.right, start, t.right, depth - 1);
      root.right := right;
      u := t.(right := A.Remove(t.right, start));
    } else if root.left == null {
      return root.right;
    } else if root.right == null {
      return root.left;
    } else {
      TakeSuccessor(root, t, depth);
      A.HasLeftmost(t.right);
      u := t.(item := A.Leftmost(t.right), right := A.Remove(t.right, A.Leftmost(t.right).start));
      A.RemoveNodes(t.right, A.Leftmost(t.right).start);
    }
    r := BalanceInterval(root, u);
  }

  /** The walk to the left end of a subtree. */
  method LeftmostNode(top: Node, ghost t: Tree) returns (node: Node)
    requires t.Branch? && Shows(top, t)
    ensures A.Leftmost(t) == ItemOf(node)
  {
    node := top;
    ghost var s := t;
    while node.left != null
      invariant s.Branch? && Shows(node, s)
      invariant A.Leftmost(s) == A.Leftmost(t)
      decreases s
    {
      node := node.left;
      s := s.left;
    }
  }

  /**
    Two-child removal: overwrite the fields of `root` with those of its successor,
    then remove the successor from the right subtree.
   */
  method TakeSuccessor(root: Node, ghost t: Tree, ghost depth: nat)
    requires A.Apart(t) && Shows(root, t)
    requires A.Sorted(A.Items(t.right)) && t.right.Branch?
    requires A.Avl(t.right) && A.Height(t.right) < depth
    modifies A.Nodes(t.right), root
    ensures A.Has(t.right, A.Leftmost(t.right).start)
    ensures Shows(root, t.(item := A.Leftmost(t.right), right := A.Remove(t.right, A.Leftmost(t.right).start)))
    decreases depth, 0
  {
    NodesAllocated(t.left);
    NodesAllocated(t.right);
    A.HasLeftmost(t.right);
    A.RemoveNodes(t.right, A.Leftmost(t.right).start);
    var successor := LeftmostNode(root.right, t.right);
    var next := successor.start;
    root.start, root.end, root.value := successor.start, successor.end, successor.value;
    var right := RemoveInterval(root.right, next, t.right, depth - 1);
    root.right := right;
  }

  // -------------------------------------------------------------- queries

  ghost function ItemOf(node: Node): Interval
    reads node
  {
    Interval(node.start, node.end, node.value)
  }

  method LowerBoundInterval(top: Node?, start: int, ghost t: Tree) returns (result: Node?)
    requires Shows(top, t) && A.Sorted(A.Items(t))
    ensures result == null <==> A.Rank(A.Items(t), start) == |A.Items(t)|
    ensures result != null ==> result in A.Nodes(t) && ItemOf(result) == A.Items(t)[A.Rank(A.Items(t), start)]
  {
    result := null;
    var root := top;
    ghost var u, before, after := t, [], [];
    while root != null
      invariant Shows(root, u) && A.Nodes(u) <= A.Nodes(t)
      invariant Around(A.Items(t), before, A.Items(u), after, start)
      invariant result == null <==> after == []
      invariant result != null ==> result in A.Nodes(t) && ItemOf(result) == after[0]
      decreases u
    {
      Narrow(t, before, u, after, start);
      if root.start >= start {
        result := root;
        root := root.left;
        after := [u.item] + A.Items(u.right) + after;
        u := u.left;
      } else {
        root := root.right;
        before := before + A.Items(u.left) + [u.item];
        u := u.right;
      }
    }
    A.RankIs(A.Items(t), start, |before|);
  }

  method PredecessorInterval(top: Node?, start: int, ghost t: Tree) returns (result: Node?)
    requires Shows(top, t) && A.Sorted(A.Items(t))
    ensures result == null <==> A.Rank(A.Items(t), start) == 0
    ensures result != null ==> result in A.Nodes(t) && ItemOf(result) == A.Items(t)[A.Rank(A.Items(t), start) - 1]
  {
    result := null;
    var root := top;
    ghost var u, before, after := t, [], [];
    while root != null
      invariant Shows(root, u) && A.Nodes(u) <= A.Nodes(t)
      invariant Around(A.Items(t), before, A.Items(u), after, start)
      invariant result == null <==> before == []
      invariant result != null ==> result in A.Nodes(t) && ItemOf(result) == before[|before| - 1]
      decreases u
    {
      Narrow(t, before, u, after, start);
      if root.start < start {
        result := root;
        root := root.right;
        before := before + A.Items(u.left) + [u.item];
        u := u.right;
      } else {
        root := root.left;
        after := [u.item] + A.Items(u.right) + after;
        u := u.left;
      }
    }
    A.RankIs(A.Items(t), start, |before|);
  }

  method SuccessorInterval(top: Node?, start: int, ghost t: Tree) returns (result: Node?)
    requires Shows(top, t) && A.Sorted(A.Items(t))
    ensures result == null <==> A.Rank(A.Items(t), start + 1) == |A.Items(t)|
    ensures result != null ==> result in A.Nodes(t) && ItemOf(result) == A.Items(t)[A.Rank(A.Items(t), start + 1)]
  {
    result := null;
    var root := top;
    ghost var u, before, after := t, [], [];
    while root != null
      invariant Shows(root, u) && A.Nodes(u) <= A.Nodes(t)
      invariant Around(A.Items(t), before, A.Items(u), after, start + 1)
      invariant result == null <==> after == []
      invariant result != null ==> result in A.Nodes(t) && ItemOf(result) == after[0]
      decreases u
    {
      Narrow(t, before, u, after, start + 1);
      if root.start > start {
        result := root;
        root := root.left;
        after := [u.item] + A.Items(u.right) + after;
        u := u.left;
      } else {
        root := root.right;
        before := before + A.Items(u.left) + [u.item];
        u := u.right;
      }
    }
    A.RankIs(A.Items(t), start + 1, |before|);
  }

  /** The search has settled everything except the subtree whose intervals are `middle`. */
  ghost predicate Around(s: seq<Interval>, before: seq<Interval>, middle: seq<Interval>, after: seq<Interval>,
                         start: int) {
    && s == before + middle + after
    && (forall i :: 0 <= i < |before| ==> before[i].start < start)
    && (forall i :: 0 <= i < |after| ==> after[i].start >= start)
  }

  /** One step of a search down the tree, to either side. */
  lemma Narrow(t: Tree, before: seq<Interval>, u: Tree, after: seq<Interval>, start: int)
    requires A.Sorted(A.Items(t)) && u.Branch?
    requires Around(A.Items(t), before, A.Items(u), after, start)
    ensures u.item.start >= start ==>
              Around(A.Items(t), before, A.Items(u.left), [u.item] + A.Items(u.right) + after, start)
    ensures u.item.start < start ==>
              Around(A.Items(t), before + A.Items(u.left) + [u.item], A.Items(u.right), after, start)
  {
    var s, l, r := A.Items(t), A.Items(u.left), A.Items(u.right);
    assert s == (before + l) + [u.item] + (r + after);
    A.SortedPieces(s, before + l, u.item, r + after);
    assert s == before + l + ([u.item] + r + after);
    assert s == (before + l + [u.item]) + r + after;
  }

  /** What the walk still owes for the trees on its stack, topmost first. */
  ghost function Pending(ts: seq<Tree>): seq<Interval> {
    if ts == [] then [] else
      var last := ts[|ts| - 1];
      (if last.Leaf? then [] else [last.item] + A.Items(last.right)) + Pending(ts[..|ts| - 1])
  }

  /** What was yielded and what is still owed make up the list of `t`. */
  ghost predicate Owes(t: Tree, out: seq<Interval>, u: Tree, ts: seq<Tree>) {
    A.Items(t) == out + A.Items(u) + Pending(ts)
  }

  lemma PendingPush(t: Tree, out: seq<Interval>, u: Tree, ts: seq<Tree>)
    requires Owes(t, out, u, ts) && u.Branch?
    ensures Owes(t, out, u.left, ts + [u])
  {
    assert (ts + [u])[..|ts|] == ts;
  }

  lemma PendingPop(t: Tree, out: seq<Interval>, leaf: Tree, ts: seq<Tree>)
    requires Owes(t, out, leaf, ts) && leaf.Leaf? && ts != [] && ts[|ts| - 1].Branch?
    ensures Owes(t, out + [ts[|ts| - 1].item], ts[|ts| - 1].right, ts[..|ts| - 1])
    ensures |out| < |A.Items(t)|
  {
    var last, rest := ts[|ts| - 1], Pending(ts[..|ts| - 1]);
    assert A.Items(leaf) == [] && Pending(ts) == [last.item] + A.Items(last.right) + rest;
    Reassociate(out, last.item, A.Items(last.right), rest);
  }

  lemma Reassociate<T>(a: seq<T>, x: T, b: seq<T>, c: seq<T>)
    ensures a + [] + ([x] + b + c) == (a + [x]) + b + c
    ensures |a| < |a + [] + ([x] + b + c)|
  {
  }

  ghost predicate Stacked(stack: seq<Node>, ts: seq<Tree>)
    reads set i, n | 0 <= i < |ts| && n in A.Nodes(ts[i]) :: n
  {
    |stack| == |ts| && forall i :: 0 <= i < |ts| ==> ts[i].Branch? && Shows(stack[i], ts[i])
  }

  lemma StackedPush(stack: seq<Node>, ts: seq<Tree>, root: Node, u: Tree)
    requires Stacked(stack, ts) && Shows(root, u)
    ensures Stacked(stack + [root], ts + [u])
  {
    var nodes, trees := stack + [root], ts + [u];
    assert forall i :: 0 <= i < |ts| ==> nodes[i] == stack[i] && trees[i] == ts[i];
  }

  lemma StackedPop(stack: seq<Node>, ts: seq<Tree>)
    requires Stacked(stack, ts) && ts != []
    ensures Stacked(stack[..|ts| - 1], ts[..|ts| - 1])
    ensures ts[|ts| - 1].Branch? && Shows(stack[|ts| - 1], ts[|ts| - 1])
  {
  }

  /** The in-order walk with an explicit stack, as the list of what it yields. */
  method OrderedIntervals(top: Node?, ghost t: Tree) returns (out: seq<Interval>)
    requires Shows(top, t)
    ensures out == A.Items(t)
  {
    out := [];
    var root, stack: seq<Node> := top, [];
    ghost var u, ts: seq<Tree> := t, [];
    while root != null || stack != []
      invariant Shows(root, u) && Stacked(stack, ts)
      invariant Owes(t, out, u, ts)
      decreases |A.Items(t)| - |out|
    {
      while root != null
        invariant Shows(root, u) && Stacked(stack, ts)
        invariant Owes(t, out, u, ts)
        invariant root != null || stack != []
        decreases u
      {
        PendingPush(t, out, u, ts);
        StackedPush(stack, ts, root, u);
        stack, ts := stack + [root], ts + [u];
        root := root.left;
        u := u.left;
      }
      PendingPop(t, out, u, ts);
      StackedPop(stack, ts);
      ghost var last := ts[|ts| - 1];
      root := stack[|stack| - 1];
      stack, ts := stack[..|stack| - 1], ts[..|ts| - 1];
      out := out + [Interval(root.start, root.end, root.value)];
      root := root.right;
      u := last.right;
    }
  }
}
