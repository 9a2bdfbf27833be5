/**
  The value an AVL tree on the heap stands for, and the pure form of the tree
  operations. Every branch also records which heap node it describes. The heap
  methods of `IntervalTree` are proved equal to these functions; the lemmas here
  say what the functions mean for the ordered list of intervals, for the nodes in
  use, for the balance of the tree and for its height.
 */
module AvlModel {
  import opened ByteAtoms

  /** `height` is the stored field, which need not be right until `Avl` says so. */
  datatype Tree<N> = Leaf | Branch(left: Tree<N>, node: N, item: Interval, right: Tree<N>, height: nat)

  ghost function Height<N>(t: Tree<N>): nat {
    if t.Leaf? then 0 else t.height
  }

  ghost function Max(a: nat, b: nat): nat { if a < b then b else a }

  ghost function Fix<N>(t: Tree<N>): (r: Tree<N>)
    requires t.Branch?
    ensures r.Branch?
  {
    t.(height := 1 + Max(Height(t.left), Height(t.right)))
  }

  ghost function RotateLeft<N>(t: Tree<N>): Tree<N>
    requires t.Branch? && t.right.Branch?
  {
    Fix(t.right.(left := Fix(t.(right := t.right.left))))
  }

  ghost function RotateRight<N>(t: Tree<N>): Tree<N>
    requires t.Branch? && t.left.Branch?
  {
    Fix(t.left.(right := Fix(t.(left := t.left.right))))
  }

  ghost function Balance<N>(t: Tree<N>): (r: Tree<N>)
    requires t.Branch?
    ensures r.Branch?
  {
    var difference := Height(t.left) - Height(t.right);
    if difference > 1 then
      var left := if Height(t.left.left) < Height(t.left.right) then RotateLeft(t.left) else t.left;
      RotateRight(t.(left := left))
    else if difference < -1 then
      var right := if Height(t.right.right) < Height(t.right.left) then RotateRight(t.right) else t.right;
      RotateLeft(t.(right := right))
    else
      Fix(t)
  }

  ghost function Insert<N>(t: Tree<N>, node: N, item: Interval): (r: Tree<N>)
    ensures r.Branch?
  {
    if t.Leaf? then Branch(Leaf, node, item, Leaf, 1)
    else if item.start < t.item.start then Balance(t.(left := Insert(t.left, node, item)))
    else Balance(t.(right := Insert(t.right, node, item)))
  }

  ghost function Leftmost<N>(t: Tree<N>): Interval
    requires t.Branch?
  {
    if t.left.Leaf? then t.item else Leftmost(t.left)
  }

  ghost predicate Has<N>(t: Tree<N>, start: int) {
    t.Branch? && (
      if start < t.item.start then Has(t.left, start)
      else if start > t.item.start then Has(t.right, start)
      else true)
  }

  ghost function Remove<N>(t: Tree<N>, start: int): Tree<N>
    requires Sorted(Items(t)) && Has(t, start)
  {
    SortedParts(t);
    if start < t.item.start then Balance(t.(left := Remove(t.left, start)))
    else if start > t.item.start then Balance(t.(right := Remove(t.right, start)))
    else if t.left.Leaf? then t.right
    else if t.right.Leaf? then t.left
    else
      var successor := Leftmost(t.right);
      HasLeftmost(t.right);
      Balance(t.(item := successor, right := Remove(t.right, successor.start)))
  }

  // ---------------------------------------------------------------- order

  ghost function Items<N>(t: Tree<N>): seq<Interval> {
    if t.Leaf? then [] else Items(t.left) + [t.item] + Items(t.right)
  }

  /** Search order: starts strictly increase. */
  ghost predicate Sorted(s: seq<Interval>) {
    forall i, j :: 0 <= i < j < |s| ==> s[i].start < s[j].start
  }

  /** How many intervals start below `start`. */
  ghost function Rank(s: seq<Interval>, start: int): (r: nat)
    ensures r <= |s|
  {
    if s == [] || s[0].start >= start then 0 else 1 + Rank(s[1..], start)
  }

  lemma {:induction false} RankIs(s: seq<Interval>, start: int, r: nat)
    requires r <= |s|
    requires forall i :: 0 <= i < r ==> s[i].start < start
    requires forall i :: r <= i < |s| ==> s[i].start >= start
    ensures Rank(s, start) == r
  {
    if r > 0 {
      RankIs(s[1..], start, r - 1);
    }
  }

  lemma {:induction false} RankSplits(s: seq<Interval>, start: int)
    requires Sorted(s)
    ensures forall i :: 0 <= i < Rank(s, start) ==> s[i].start < start
    ensures forall i :: Rank(s, start) <= i < |s| ==> s[i].start >= start
  {
    if s != [] && s[0].start < start {
      SortedSlice(s, 1, |s|);
      RankSplits(s[1..], start);
      forall i | 1 <= i < |s| ensures s[i] == s[1..][i - 1] {}
    }
  }

  lemma SortedSlice(s: seq<Interval>, i: int, j: int)
    requires Sorted(s) && 0 <= i <= j <= |s|
    ensures Sorted(s[i..j])
  {
  }

  lemma SortedParts<N>(t: Tree<N>)
    requires t.Branch? && Sorted(Items(t))
    ensures Sorted(Items(t.left)) && Sorted(Items(t.right))
    ensures forall x :: x in Items(t.left) ==> x.start < t.item.start
    ensures forall x :: x in Items(t.right) ==> t.item.start < x.start
  {
    SortedPieces(Items(t), Items(t.left), t.item, Items(t.right));
  }

  /** Search along the branches finds a start exactly when some interval has it. */
  lemma {:induction false} HasIsMembership<N>(t: Tree<N>, start: int)
    requires Sorted(Items(t))
    ensures Has(t, start) <==> exists x :: x in Items(t) && x.start == start
  {
    if t.Branch? {
      SortedParts(t);
      HasIsMembership(t.left, start);
      HasIsMembership(t.right, start);
      assert t.item in Items(t);
      assert forall x :: x in Items(t) <==> x in Items(t.left) || x == t.item || x in Items(t.right);
    }
  }

  lemma {:induction false} HasLeftmost<N>(t: Tree<N>)
    requires t.Branch? && Sorted(Items(t))
    ensures Items(t)[0] == Leftmost(t) && Has(t, Leftmost(t).start)
  {
    SortedParts(t);
    if t.left.Branch? {
      HasLeftmost(t.left);
      assert Items(t)[0] == Items(t.left)[0];
      assert Leftmost(t) in Items(t.left);
    }
  }

  lemma {:induction false} RotateLeftItems<N>(t: Tree<N>)
    requires t.Branch? && t.right.Branch?
    ensures Items(RotateLeft(t)) == Items(t)
  {
    var r := t.right;
    var inner := Fix(t.(right := r.left));
    assert Items(inner) == Items(t.left) + [t.item] + Items(r.left);
    assert Items(RotateLeft(t)) == Items(inner) + [r.item] + Items(r.right);
  }

  lemma {:induction false} RotateRightItems<N>(t: Tree<N>)
    requires t.Branch? && t.left.Branch?
    ensures Items(RotateRight(t)) == Items(t)
  {
    var l := t.left;
    var inner := Fix(t.(left := l.right));
    assert Items(inner) == Items(l.right) + [t.item] + Items(t.right);
    assert Items(RotateRight(t)) == Items(l.left) + [l.item] + Items(inner);
  }

  lemma {:induction false} BalanceItems<N>(t: Tree<N>)
    requires t.Branch?
    ensures Items(Balance(t)) == Items(t.left) + [t.item] + Items(t.right)
  {
    var difference := Height(t.left) - Height(t.right);
    if difference > 1 {
      var left := if Height(t.left.left) < Height(t.left.right) then RotateLeft(t.left) else t.left;
      if Height(t.left.left) < Height(t.left.right) {
        RotateLeftItems(t.left);
      }
      RotateRightItems(t.(left := left));
    } else if difference < -1 {
      var right := if Height(t.right.right) < Height(t.right.left) then RotateRight(t.right) else t.right;
      if Height(t.right.right) < Height(t.right.left) {
        RotateRightItems(t.right);
      }
      RotateLeftItems(t.(right := right));
    }
  }

  lemma SplitLeft<T>(before: seq<T>, after: seq<T>, l: seq<T>, x: T, r: seq<T>)
    requires before + after == l + [x] + r && |before| <= |l|
    ensures l == before + l[|before|..]
    ensures after == l[|before|..] + [x] + r
  {
    var u, n := before + after, |before|;
    assert before == u[..n] && after == u[n..];
    assert l == u[..|l|];
  }

  lemma SplitRight<T>(before: seq<T>, after: seq<T>, l: seq<T>, x: T, r: seq<T>)
    requires before + after == l + [x] + r && |l| < |before|
    ensures before == l + [x] + r[..|before| - |l| - 1]
    ensures r == r[..|before| - |l| - 1] + after
  {
    var u, n := before + after, |before|;
    assert before == u[..n] && after == u[n..];
    assert r == u[|l| + 1..];
  }

  /** Two readings of a sorted list as a prefix, an item and the rest. */
  lemma SortedPieces(s: seq<Interval>, before: seq<Interval>, item: Interval, after: seq<Interval>)
    requires s == before + [item] + after && Sorted(s)
    ensures Sorted(before) && Sorted(after)
    ensures forall x :: x in before ==> x.start < item.start
    ensures forall x :: x in after ==> item.start < x.start
  {
    var n := |before|;
    assert s[n] == item;
    forall i | 0 <= i < n ensures before[i] == s[i] {}
    forall i | 0 <= i < |after| ensures after[i] == s[n + 1 + i] {}
  }

  /** Insertion puts the item where it belongs in the order and changes nothing else. */
  lemma {:induction false} InsertItems<N>(t: Tree<N>, node: N, before: seq<Interval>, item: Interval,
                                          after: seq<Interval>)
    requires Items(t) == before + after
    requires Sorted(before + [item] + after)
    ensures Items(Insert(t, node, item)) == before + [item] + after
    decreases t, 1
  {
    if t.Leaf? {
      assert before == [] && after == [];
      assert Items(Insert(t, node, item)) == [item];
    } else if |before| <= |Items(t.left)| {
      InsertOnLeft(t, node, before, item, after);
    } else {
      InsertOnRight(t, node, before, item, after);
    }
  }

  lemma {:induction false} InsertOnLeft<N>(t: Tree<N>, node: N, before: seq<Interval>, item: Interval,
                                           after: seq<Interval>)
    requires Items(t) == before + after
    requires Sorted(before + [item] + after)
    requires t.Branch? && |before| <= |Items(t.left)|
    ensures Items(Insert(t, node, item)) == before + [item] + after
    decreases t, 0
  {
    var l, r := Items(t.left), Items(t.right);
    var rest := l[|before|..];
    SplitLeft(before, after, l, t.item, r);
    Regroup(before, item, rest, t.item, r);
    SortedPieces(before + [item] + after, before + [item] + rest, t.item, r);
    assert item == (before + [item] + rest)[|before|];
    InsertItems(t.left, node, before, item, rest);
    BalanceItems(t.(left := Insert(t.left, node, item)));
  }

  lemma {:induction false} InsertOnRight<N>(t: Tree<N>, node: N, before: seq<Interval>, item: Interval,
                                            after: seq<Interval>)
    requires Items(t) == before + after
    requires Sorted(before + [item] + after)
    requires t.Branch? && |before| > |Items(t.left)|
    ensures Items(Insert(t, node, item)) == before + [item] + after
    decreases t, 0
  {
    var l, r := Items(t.left), Items(t.right);
    var first := r[..|before| - |l| - 1];
    SplitRight(before, after, l, t.item, r);
    Regroup(l, t.item, first, item, after);
    SortedPieces(before + [item] + after, l, t.item, first + [item] + after);
    assert item == (first + [item] + after)[|first|];
    InsertItems(t.right, node, first, item, after);
    BalanceItems(t.(right := Insert(t.right, node, item)));
  }

  lemma Regroup<T>(a: seq<T>, x: T, b: seq<T>, y: T, c: seq<T>)
    ensures a + [x] + (b + [y] + c) == (a + [x] + b) + [y] + c
  {
  }

  /** Removal, two-child case included, takes out exactly the item with that start. */
  lemma {:induction false} RemoveItems<N>(t: Tree<N>, before: seq<Interval>, item: Interval, after: seq<Interval>)
    requires Items(t) == before + [item] + after
    requires Sorted(Items(t))
    ensures Has(t, item.start)
    ensures Items(Remove(t, item.start)) == before + after
    decreases t, 1
  {
    var s, n := Items(t), |before|;
    assert s[n] == item && s[..n] == before && s[n + 1..] == after;
    var l, r := Items(t.left), Items(t.right);
    assert s == l + [t.item] + r;
    assert s[|l|] == t.item;
    SortedParts(t);
    if n < |l| {
      RemoveOnLeft(t, before, item, after);
    } else if n > |l| {
      RemoveOnRight(t, before, item, after);
    } else {
      assert before == l && after == r;
      RemoveRoot(t);
    }
  }

  lemma {:induction false} RemoveRoot<N>(t: Tree<N>)
    requires t.Branch? && Sorted(Items(t))
    ensures Items(Remove(t, t.item.start)) == Items(t.left) + Items(t.right)
    decreases t, 0
  {
    if t.left.Branch? && t.right.Branch? {
      var r, successor := Items(t.right), Leftmost(t.right);
      SortedParts(t);
      HasLeftmost(t.right);
      FirstTaken(Items(t.left), r);
      RemoveItems(t.right, [], successor, r[1..]);
      BalanceItems(t.(item := successor, right := Remove(t.right, successor.start)));
    }
  }

  lemma FirstTaken<T>(a: seq<T>, b: seq<T>)
    requires b != []
    ensures b == [] + [b[0]] + b[1..]
    ensures a + [b[0]] + ([] + b[1..]) == a + b
  {
  }

  lemma {:induction false} RemoveOnLeft<N>(t: Tree<N>, before: seq<Interval>, item: Interval, after: seq<Interval>)
    requires Items(t) == before + [item] + after
    requires Sorted(Items(t))
    requires t.Branch? && |before| < |Items(t.left)|
    ensures Has(t, item.start)
    ensures Items(Remove(t, item.start)) == before + after
    decreases t, 0
  {
    var l, r := Items(t.left), Items(t.right);
    SortedParts(t);
    assert before + [item] + after == (before + [item]) + after;
    SplitLeft(before + [item], after, l, t.item, r);
    var rest := l[|before| + 1..];
    RemoveItems(t.left, before, item, rest);
    assert item == l[|before|];
    BalanceItems(t.(left := Remove(t.left, item.start)));
    assert (before + rest) + [t.item] + r == before + after;
  }

  lemma {:induction false} RemoveOnRight<N>(t: Tree<N>, before: seq<Interval>, item: Interval, after: seq<Interval>)
    requires Items(t) == before + [item] + after
    requires Sorted(Items(t))
    requires t.Branch? && |before| > |Items(t.left)|
    ensures Has(t, item.start)
    ensures Items(Remove(t, item.start)) == before + after
    decreases t, 0
  {
    var l, r := Items(t.left), Items(t.right);
    var first := r[..|before| - |l| - 1];
    SortedParts(t);
    assert before + [item] + after == before + ([item] + after);
    SplitRight(before, [item] + after, l, t.item, r);
    assert r == first + [item] + after;
    RemoveItems(t.right, first, item, after);
    assert item == r[|first|];
    BalanceItems(t.(right := Remove(t.right, item.start)));
    assert l + [t.item] + (first + after) == before + after;
  }

  // -------------------------------------------------------------- balance

  /** Stored heights are exact and sibling heights differ by at most one. */
  ghost predicate Avl<N>(t: Tree<N>) {
    t.Branch? ==>
      && Avl(t.left) && Avl(t.right)
      && t.height == 1 + Max(Height(t.left), Height(t.right))
      && -1 <= Height(t.left) - Height(t.right) <= 1
  }

  lemma {:induction false} BalanceAvl<N>(t: Tree<N>)
    requires t.Branch? && Avl(t.left) && Avl(t.right)
    requires -2 <= Height(t.left) - Height(t.right) <= 2
    ensures Avl(Balance(t))
    ensures var top := Max(Height(t.left), Height(t.right));
            if -1 <= Height(t.left) - Height(t.right) <= 1
            then Height(Balance(t)) == top + 1
            else top <= Height(Balance(t)) <= top + 1
  {
    if Height(t.left) - Height(t.right) > 1 {
      LeftHeavyAvl(t);
    } else if Height(t.left) - Height(t.right) < -1 {
      RightHeavyAvl(t);
    }
  }

  lemma {:induction false} LeftHeavyAvl<N>(t: Tree<N>)
    requires t.Branch? && Avl(t.left) && Avl(t.right)
    requires Height(t.left) - Height(t.right) == 2
    ensures Avl(Balance(t))
    ensures Height(t.left) <= Height(Balance(t)) <= Height(t.left) + 1
  {
    var l := t.left;
    if Height(l.left) < Height(l.right) {
      var m := l.right;
      var a, b := Fix(l.(right := m.left)), Fix(t.(left := m.right));
      assert Balance(t) == Fix(m.(left := a, right := b));
      assert Avl(a) && Avl(b);
    } else {
      var b := Fix(t.(left := l.right));
      assert Balance(t) == Fix(l.(right := b));
      assert Avl(b);
    }
  }

  lemma {:induction false} RightHeavyAvl<N>(t: Tree<N>)
    requires t.Branch? && Avl(t.left) && Avl(t.right)
    requires Height(t.right) - Height(t.left) == 2
    ensures Avl(Balance(t))
    ensures Height(t.right) <= Height(Balance(t)) <= Height(t.right) + 1
  {
    var r := t.right;
    if Height(r.right) < Height(r.left) {
      var m := r.left;
      var a, b := Fix(t.(right := m.left)), Fix(r.(left := m.right));
      assert Balance(t) == Fix(m.(left := a, right := b));
      assert Avl(a) && Avl(b);
    } else {
      var a := Fix(t.(right := r.left));
      assert Balance(t) == Fix(r.(left := a));
      assert Avl(a);
    }
  }

  lemma {:induction false} InsertAvl<N>(t: Tree<N>, node: N, item: Interval)
    requires Avl(t)
    ensures Avl(Insert(t, node, item))
    ensures Height(t) <= Height(Insert(t, node, item)) <= Height(t) + 1
  {
    if t.Branch? {
      if item.start < t.item.start {
        InsertAvl(t.left, node, item);
        BalanceAvl(t.(left := Insert(t.left, node, item)));
      } else {
        InsertAvl(t.right, node, item);
        BalanceAvl(t.(right := Insert(t.right, node, item)));
      }
    }
  }

  lemma {:induction false} RemoveAvl<N>(t: Tree<N>, start: int)
    requires Avl(t) && Sorted(Items(t)) && Has(t, start)
    ensures Avl(Remove(t, start))
    ensures Height(t) - 1 <= Height(Remove(t, start)) <= Height(t)
  {
    SortedParts(t);
    if start < t.item.start {
      RemoveAvl(t.left, start);
      BalanceAvl(t.(left := Remove(t.left, start)));
    } else if start > t.item.start {
      RemoveAvl(t.right, start);
      BalanceAvl(t.(right := Remove(t.right, start)));
    } else if t.left.Branch? && t.right.Branch? {
      var successor := Leftmost(t.right);
      HasLeftmost(t.right);
      RemoveAvl(t.right, successor.start);
      BalanceAvl(t.(item := successor, right := Remove(t.right, successor.start)));
    }
  }

  /** The fewest intervals an AVL tree of a given height can hold. */
  ghost function FewestItems(height: nat): nat {
    if height == 0 then 0
    else if height == 1 then 1
    else 1 + FewestItems(height - 1) + FewestItems(height - 2)
  }

  lemma {:induction false} FewestItemsMonotone(low: nat, high: nat)
    requires low <= high
    ensures FewestItems(low) <= FewestItems(high)
  {
    if low < high {
      FewestItemsMonotone(low, high - 1);
    }
  }

  lemma {:induction false} AvlHoldsAtLeast<N>(t: Tree<N>)
    requires Avl(t)
    ensures |Items(t)| >= FewestItems(Height(t))
  {
    if t.Branch? && t.height >= 2 {
      AvlHoldsAtLeast(t.left);
      AvlHoldsAtLeast(t.right);
      FewestItemsMonotone(t.height - 2, Height(t.left));
      FewestItemsMonotone(t.height - 2, Height(t.right));
    }
  }

  /** An AVL tree with fewer items than any tree of height `bound + 1` is no taller than `bound`. */
  lemma AvlHeightBound<N>(t: Tree<N>, bound: nat)
    requires Avl(t) && |Items(t)| < FewestItems(bound + 1)
    ensures Height(t) <= bound
  {
    AvlHoldsAtLeast(t);
    if Height(t) > bound {
      FewestItemsMonotone(bound + 1, Height(t));
    }
  }

  // ---------------------------------------------------------------- nodes

  ghost function Nodes<N>(t: Tree<N>): set<N> {
    if t.Leaf? then {} else Nodes(t.left) + {t.node} + Nodes(t.right)
  }

  /** No node describes two places of the tree. */
  ghost predicate Apart<N>(t: Tree<N>) {
    t.Branch? ==>
      && Apart(t.left) && Apart(t.right)
      && t.node !in Nodes(t.left) && t.node !in Nodes(t.right)
      && Nodes(t.left) !! Nodes(t.right)
  }

  lemma {:induction false} RotateNodes<N>(t: Tree<N>)
    requires t.Branch? && Apart(t)
    ensures t.right.Branch? ==> Nodes(RotateLeft(t)) == Nodes(t) && Apart(RotateLeft(t))
    ensures t.left.Branch? ==> Nodes(RotateRight(t)) == Nodes(t) && Apart(RotateRight(t))
  {
    if t.right.Branch? {
      var inner := Fix(t.(right := t.right.left));
      assert Nodes(inner) == Nodes(t.left) + {t.node} + Nodes(t.right.left);
    }
    if t.left.Branch? {
      var inner := Fix(t.(left := t.left.right));
      assert Nodes(inner) == Nodes(t.left.right) + {t.node} + Nodes(t.right);
    }
  }

  lemma {:induction false} BalanceNodes<N>(t: Tree<N>)
    requires t.Branch? && Apart(t)
    ensures Nodes(Balance(t)) == Nodes(t) && Apart(Balance(t))
  {
    var difference := Height(t.left) - Height(t.right);
    if difference > 1 {
      var left := if Height(t.left.left) < Height(t.left.right) then RotateLeft(t.left) else t.left;
      RotateNodes(t.left);
      RotateNodes(t.(left := left));
    } else if difference < -1 {
      var right := if Height(t.right.right) < Height(t.right.left) then RotateRight(t.right) else t.right;
      RotateNodes(t.right);
      RotateNodes(t.(right := right));
    }
  }

  /** One side of a tree may take a new node. */
  lemma InsertBelow<N>(t: Tree<N>, node: N, item: Interval)
    requires Apart(t) && t.Branch? && node !in Nodes(t)
    ensures var u := if item.start < t.item.start then t.(left := Insert(t.left, node, item))
                     else t.(right := Insert(t.right, node, item));
      Apart(u) && Nodes(u) == Nodes(t) + {node}
  {
    if item.start < t.item.start {
      InsertNodes(t.left, node, item);
    } else {
      InsertNodes(t.right, node, item);
    }
  }

  lemma {:induction false} InsertNodes<N>(t: Tree<N>, node: N, item: Interval)
    requires Apart(t) && node !in Nodes(t)
    ensures Nodes(Insert(t, node, item)) == Nodes(t) + {node}
    ensures Apart(Insert(t, node, item))
  {
    if t.Branch? {
      if item.start < t.item.start {
        InsertNodes(t.left, node, item);
        BalanceNodes(t.(left := Insert(t.left, node, item)));
      } else {
        InsertNodes(t.right, node, item);
        BalanceNodes(t.(right := Insert(t.right, node, item)));
      }
    }
  }

  lemma {:induction false} RemoveNodes<N>(t: Tree<N>, start: int)
    requires Apart(t) && Sorted(Items(t)) && Has(t, start)
    ensures Nodes(Remove(t, start)) <= Nodes(t)
    ensures Apart(Remove(t, start))
  {
    SortedParts(t);
    if start < t.item.start {
      RemoveNodes(t.left, start);
      BalanceNodes(t.(left := Remove(t.left, start)));
    } else if start > t.item.start {
      RemoveNodes(t.right, start);
      BalanceNodes(t.(right := Remove(t.right, start)));
    } else if t.left.Branch? && t.right.Branch? {
      var successor := Leftmost(t.right);
      HasLeftmost(t.right);
      RemoveNodes(t.right, successor.start);
      BalanceNodes(t.(item := successor, right := Remove(t.right, successor.start)));
    }
  }

  // -------------------------------------------------------------- results

  /** The tree read as a map from starts to intervals. */
  ghost function Entries<N>(t: Tree<N>): map<int, Interval> {
    if t.Leaf? then map[] else Entries(t.left)[t.item.start := t.item] + Entries(t.right)
  }

  lemma {:induction false} EntriesAreItems<N>(t: Tree<N>, start: int)
    requires Sorted(Items(t))
    ensures start in Entries(t) <==> exists x :: x in Items(t) && x.start == start
    ensures start in Entries(t) ==> Entries(t)[start] in Items(t) && Entries(t)[start].start == start
  {
    if t.Branch? {
      SortedParts(t);
      EntriesAreItems(t.left, start);
      EntriesAreItems(t.right, start);
      assert t.item in Items(t);
      assert forall x :: x in Items(t) <==> x in Items(t.left) || x == t.item || x in Items(t.right);
    }
  }

  /** Search order, exact heights, balance and unshared nodes. */
  ghost predicate Good<N>(t: Tree<N>) {
    Sorted(Items(t)) && Avl(t) && Apart(t)
  }

  lemma SameStart(s: seq<Interval>, x: Interval, y: Interval)
    requires Sorted(s) && x in s && y in s && x.start == y.start
    ensures x == y
  {
  }

  /** Entries are determined by membership. */
  lemma EntryOf<N>(t: Tree<N>, x: Interval)
    requires Sorted(Items(t)) && x in Items(t)
    ensures x.start in Entries(t) && Entries(t)[x.start] == x
  {
    EntriesAreItems(t, x.start);
    SameStart(Items(t), Entries(t)[x.start], x);
  }

  lemma SameEntry<N>(t: Tree<N>, u: Tree<N>, k: int)
    requires Sorted(Items(t)) && Sorted(Items(u))
    requires forall x: Interval :: x.start == k ==> (x in Items(t) <==> x in Items(u))
    ensures k in Entries(t) <==> k in Entries(u)
    ensures k in Entries(t) ==> Entries(t)[k] == Entries(u)[k]
  {
    EntriesAreItems(t, k);
    EntriesAreItems(u, k);
    if k in Entries(t) {
      EntryOf(u, Entries(t)[k]);
    }
  }

  lemma SameMap(a: map<int, Interval>, b: map<int, Interval>)
    requires forall k :: (k in a <==> k in b) && (k in a ==> a[k] == b[k])
    ensures a == b
  {
    forall k ensures k in a <==> k in b {}
    forall k | k in a ensures a[k] == b[k] {}
  }

  lemma EntriesInserted<N>(t: Tree<N>, u: Tree<N>, item: Interval)
    requires Sorted(Items(t)) && Sorted(Items(u)) && !Has(t, item.start)
    requires forall x :: x in Items(u) <==> x in Items(t) || x == item
    ensures Entries(u) == Entries(t)[item.start := item]
  {
    var before, after := Entries(t), Entries(u);
    EntryOf(u, item);
    forall k | k != item.start
      ensures (k in before <==> k in after) && (k in before ==> before[k] == after[k])
    {
      SameEntry(t, u, k);
    }
    var goal := before[item.start := item];
    assert forall k :: (k in after <==> k in goal) && (k in after ==> after[k] == goal[k]);
    SameMap(after, goal);
  }

  lemma EntriesRemoved<N>(t: Tree<N>, u: Tree<N>, start: int)
    requires Sorted(Items(t)) && Sorted(Items(u))
    requires forall x :: x in Items(u) <==> x in Items(t) && x.start != start
    ensures Entries(u) == Entries(t) - {start}
  {
    var before, after := Entries(t), Entries(u);
    EntriesAreItems(u, start);
    forall k | k != start
      ensures (k in before <==> k in after) && (k in before ==> before[k] == after[k])
    {
      SameEntry(t, u, k);
    }
    var goal := before - {start};
    assert forall k :: (k in after <==> k in goal) && (k in after ==> after[k] == goal[k]);
    SameMap(after, goal);
  }

  lemma SortedInsert(s: seq<Interval>, r: nat, item: Interval)
    requires Sorted(s) && r <= |s|
    requires forall i :: 0 <= i < r ==> s[i].start < item.start
    requires forall i :: r <= i < |s| ==> s[i].start > item.start
    ensures Sorted(s[..r] + [item] + s[r..])
    ensures forall x :: x in s[..r] + [item] + s[r..] <==> x in s || x == item
  {
    var u := s[..r] + [item] + s[r..];
    forall i | 0 <= i < |u| ensures u[i] == if i < r then s[i] else if i == r then item else s[i - 1] {}
    assert s == s[..r] + s[r..];
  }

  lemma RemovedMember(s: seq<Interval>, r: nat, x: Interval)
    requires Sorted(s) && r < |s|
    ensures x in s[..r] + s[r + 1..] <==> x in s && x.start != s[r].start
  {
    var a, b := s[..r], s[r + 1..];
    if x in a {
      var i :| 0 <= i < |a| && a[i] == x;
      assert s[i] == x;
    }
    if x in b {
      var i :| 0 <= i < |b| && b[i] == x;
      assert s[r + 1 + i] == x;
    }
    if x in s && x.start != s[r].start {
      var i :| 0 <= i < |s| && s[i] == x;
      assert if i < r then a[i] == x else b[i - r - 1] == x;
    }
  }

  lemma SortedRemove(s: seq<Interval>, r: nat)
    requires Sorted(s) && r < |s|
    ensures Sorted(s[..r] + s[r + 1..])
    ensures forall x :: x in s[..r] + s[r + 1..] <==> x in s && x.start != s[r].start
  {
    var u := s[..r] + s[r + 1..];
    forall i | 0 <= i < |u| ensures u[i] == if i < r then s[i] else s[i + 1] {}
    forall x ensures x in u <==> x in s && x.start != s[r].start {
      RemovedMember(s, r, x);
    }
  }

  /** Insertion keeps every structural invariant, adds exactly one entry and grows by at most a level. */
  lemma {:induction false} InsertKeeps<N>(t: Tree<N>, node: N, item: Interval)
    requires Good(t) && node !in Nodes(t) && !Has(t, item.start)
    ensures Good(Insert(t, node, item))
    ensures Entries(Insert(t, node, item)) == Entries(t)[item.start := item]
    ensures Nodes(Insert(t, node, item)) == Nodes(t) + {node}
    ensures Height(t) <= Height(Insert(t, node, item)) <= Height(t) + 1
    ensures var s, r := Items(t), Rank(Items(t), item.start);
            Items(Insert(t, node, item)) == s[..r] + [item] + s[r..]
  {
    var s, r := Items(t), Rank(Items(t), item.start);
    HasIsMembership(t, item.start);
    RankSplits(s, item.start);
    SortedInsert(s, r, item);
    assert s == s[..r] + s[r..];
    InsertItems(t, node, s[..r], item, s[r..]);
    InsertAvl(t, node, item);
    InsertNodes(t, node, item);
    EntriesInserted(t, Insert(t, node, item), item);
  }

  /** Where the removed item stood. */
  lemma {:induction false} RemoveTakesRank<N>(t: Tree<N>, start: int)
    requires Sorted(Items(t)) && Has(t, start)
    ensures var s, r := Items(t), Rank(Items(t), start);
            r < |s| && s[r].start == start && Items(Remove(t, start)) == s[..r] + s[r + 1..]
  {
    var s, r := Items(t), Rank(Items(t), start);
    HasIsMembership(t, start);
    RankSplits(s, start);
    assert s == s[..r] + [s[r]] + s[r + 1..];
    RemoveItems(t, s[..r], s[r], s[r + 1..]);
  }

  lemma RemoveDropsEntry<N>(t: Tree<N>, start: int)
    requires Sorted(Items(t)) && Has(t, start)
    ensures Sorted(Items(Remove(t, start))) && Entries(Remove(t, start)) == Entries(t) - {start}
  {
    RemoveTakesRank(t, start);
    SortedRemove(Items(t), Rank(Items(t), start));
    EntriesRemoved(t, Remove(t, start), start);
  }

  /** Removal keeps every structural invariant, drops exactly one entry and shrinks by at most a level. */
  lemma {:induction false} RemoveKeeps<N>(t: Tree<N>, start: int)
    requires Good(t) && Has(t, start)
    ensures Good(Remove(t, start))
    ensures Entries(Remove(t, start)) == Entries(t) - {start}
    ensures Nodes(Remove(t, start)) <= Nodes(t)
    ensures Height(t) - 1 <= Height(Remove(t, start)) <= Height(t)
    ensures var s, r := Items(t), Rank(Items(t), start);
            r < |s| && s[r].start == start && Items(Remove(t, start)) == s[..r] + s[r + 1..]
  {
    RemoveTakesRank(t, start);
    RemoveDropsEntry(t, start);
    RemoveAvl(t, start);
    RemoveNodes(t, start);
  }
}
