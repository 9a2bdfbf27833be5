/**
  What the walk of `SymlinkWalk` finds in a world that keeps still, name by name: a file reached
  through real directories is found, and a link stands for its target
  (bench/tools/benchmark_artifacts.py:348-536).
 */
module SymlinkTheory {
  import opened ByteAtoms
  import opened SymlinkWalk

  /** The walk over `start` finds the file `inode` within the limit. */
  ghost predicate Finds(world: World, start: seq<string>, inode: Inode, maxSymlinks: int) {
    exists file: Opened, walks: seq<Walk> ::
      Resolves(world, start, file, walks, maxSymlinks) && file.inode == inode
  }

  /** Real directories are walked down one by one. */
  lemma {:induction false} WalkDown(world: World, before: seq<string>, dir: Inode, tail: seq<string>)
    returns (walks: seq<Walk>, trace: seq<Step>)
    requires AllOrdinary(before) && AllOrdinary(tail) && tail != [] && Reached(world, before, dir)
    ensures CameTo(world, before + tail, walks, trace, Walk(before, tail, dir, 0))
    decreases |before|
  {
    if before == [] {
      assert before + tail == tail;
      walks, trace := [Walk([], tail, dir, 0)], [];
    } else {
      var parents, name := before[..|before| - 1], before[|before| - 1];
      var parent: Inode :| Saw(world, parent, name, Directory(dir)) && Reached(world, parents, parent);
      assert name in before && [name] + tail != [];
      walks, trace := WalkDown(world, parents, parent, [name] + tail);
      assert parents + ([name] + tail) == before + tail;
      var w := Walk(parents, [name] + tail, parent, 0);
      EnterGrows(world, before + tail, walks, trace, w, dir);
      assert Enter(w, dir) == Walk(before, tail, dir, 0) by {
        assert parents + [name] == before && ([name] + tail)[1..] == tail;
      }
      walks, trace := walks + [Enter(w, dir)], trace + [Entered(dir)];
    }
  }

  /** A file at the end of real directories is found, whatever the limit. */
  lemma PlainFileIsFound(world: World, before: seq<string>, dir: Inode, name: string, inode: Inode, maxSymlinks: int)
    requires AllOrdinary(before) && Ordinary(name)
    requires Reached(world, before, dir) && Saw(world, dir, name, Regular(inode))
    ensures Finds(world, before + [name], inode, maxSymlinks)
  {
    var walks, trace := WalkDown(world, before, dir, [name]);
    var file := Opened(0, inode, trace + [Leaf(inode)]);
    assert file.trace[..|walks| - 1] == trace;
    assert Resolves(world, before + [name], file, walks, maxSymlinks);
  }

  /** The walk has come to the link and gone through it. */
  lemma ThroughLink(world: World, before: seq<string>, dir: Inode, name: string, fingerprint: int, target: string,
                    rest: seq<string>)
    returns (walks: seq<Walk>, trace: seq<Step>)
    requires AllOrdinary(before) && Ordinary(name) && AllOrdinary(rest)
    requires Reached(world, before, dir) && Saw(world, dir, name, Link(fingerprint, target))
    ensures var onward := Fold([], (if target != "" && target[0] == '/' then [] else before) + Split(target) + rest);
      CameTo(world, before + [name] + rest, walks, trace, Walk([], onward, world.root, 1))
  {
    assert AllOrdinary([name] + rest);
    walks, trace := WalkDown(world, before, dir, [name] + rest);
    assert before + ([name] + rest) == before + [name] + rest;
    var w := Walk(before, [name] + rest, dir, 0);
    assert ([name] + rest)[1..] == rest;
    FollowGrows(world, before + [name] + rest, walks, trace, w, fingerprint, fingerprint, target);
    walks, trace := walks + [Follow(world, w, target)], trace + [Followed(fingerprint, target)];
  }

  /** The same walk with another count of links followed before it. */
  ghost function Shifted(w: Walk, more: nat): Walk {
    w.(followed := w.followed + more)
  }

  /** A walk goes on in the same way however many links were followed before it. */
  lemma StepShifts(world: World, w: Walk, next: Walk, a: Walk, b: Walk, more: nat, step: Step)
    requires Shifted(w, more) == a && Shifted(next, more) == b
    ensures (Entering(world, w, next) || Following(world, w, next))
            <==> (Entering(world, a, b) || Following(world, a, b))
    ensures Took(world, w, next, step) <==> Took(world, a, b, step)
  {
    if w.pending != [] {
      forall inode: Inode ensures (next == Enter(w, inode)) == (b == Enter(a, inode)) {
      }
      forall target: string ensures (next == Follow(world, w, target)) == (b == Follow(world, a, target)) {
      }
    }
  }

  /** Two runs joined at a state that they share, the second of them counting its links from zero. */
  ghost function Joined(walks: seq<Walk>, found: seq<Walk>): seq<Walk> {
    walks + seq(|found|, k requires 0 <= k < |found| => Shifted(found[k], 1))[if found == [] then 0 else 1..]
  }

  lemma JoinedStep(world: World, walks: seq<Walk>, trace: seq<Step>, found: seq<Walk>, steps: seq<Step>, k: int)
    requires Run(world, walks) && Traced(world, walks, trace) && Run(world, found) && Traced(world, found, steps)
    requires walks[|walks| - 1] == Shifted(found[0], 1) && 0 < k < |Joined(walks, found)|
    ensures var all := Joined(walks, found);
      && (Entering(world, all[k - 1], all[k]) || Following(world, all[k - 1], all[k]))
      && Took(world, all[k - 1], all[k], (trace + steps)[k - 1])
  {
    var all, n := Joined(walks, found), |walks| - 1;
    if k <= n {
      assert Took(world, walks[k - 1], walks[k], trace[k - 1]);
    } else {
      var i := k - n;
      assert all[k] == Shifted(found[i], 1) && all[k - 1] == Shifted(found[i - 1], 1);
      assert Took(world, found[i - 1], found[i], steps[i - 1]);
      StepShifts(world, found[i - 1], found[i], all[k - 1], all[k], 1, steps[i - 1]);
    }
  }

  lemma JoinedResolves(world: World, start: seq<string>, walks: seq<Walk>, trace: seq<Step>, onward: seq<string>,
                       file: Opened, found: seq<Walk>, maxSymlinks: int)
    requires CameTo(world, start, walks, trace, Walk([], onward, world.root, 1))
    requires Resolves(world, onward, file, found, maxSymlinks - 1) && maxSymlinks >= 1
    ensures Finds(world, start, file.inode, maxSymlinks)
  {
    var all, steps := Joined(walks, found), file.trace[..|found| - 1];
    forall k | 0 < k < |all|
      ensures (Entering(world, all[k - 1], all[k]) || Following(world, all[k - 1], all[k]))
              && Took(world, all[k - 1], all[k], (trace + steps)[k - 1])
    {
      JoinedStep(world, walks, trace, found, steps, k);
    }
    var full := file.(trace := trace + steps + [Leaf(file.inode)]);
    assert Traced(world, all, trace + steps);
    JoinedEnds(walks, found);
    assert full.trace[..|all| - 1] == trace + steps;
    assert Resolves(world, start, full, all, maxSymlinks);
  }

  lemma JoinedEnds(walks: seq<Walk>, found: seq<Walk>)
    requires walks != [] && found != [] && walks[|walks| - 1] == Shifted(found[0], 1)
    ensures var all := Joined(walks, found);
      && |all| == |walks| + |found| - 1 && all[0] == walks[0]
      && all[|all| - 1] == Shifted(found[|found| - 1], 1)
  {
  }

  /** What is left of a walk after its first link, counting its links from zero. */
  lemma RestResolves(world: World, start: seq<string>, walks: seq<Walk>, trace: seq<Step>, onward: seq<string>,
                     file: Opened, found: seq<Walk>, maxSymlinks: int)
    requires Still(world) && CameTo(world, start, walks, trace, Walk([], onward, world.root, 1))
    requires Resolves(world, start, file, found, maxSymlinks)
    ensures maxSymlinks >= 1 && Finds(world, onward, file.inode, maxSymlinks - 1)
  {
    NoLongerRun(world, start, file, found, walks, maxSymlinks);
    var n := |walks| - 1;
    RunsAgree(world, found, walks, n);
    var tail := found[n..];
    forall k | 0 <= k < |tail| ensures tail[k].followed >= 1 {
      FollowedGrows(world, found, n, n + k);
    }
    var rest := seq(|tail|, k requires 0 <= k < |tail| => tail[k].(followed := tail[k].followed - 1));
    var short := file.(trace := file.trace[n..]);
    var steps := file.trace[..|found| - 1];
    forall k | 0 < k < |rest|
      ensures (Entering(world, rest[k - 1], rest[k]) || Following(world, rest[k - 1], rest[k]))
              && Took(world, rest[k - 1], rest[k], short.trace[k - 1])
    {
      assert Took(world, found[n + k - 1], found[n + k], steps[n + k - 1]);
      StepShifts(world, rest[k - 1], rest[k], found[n + k - 1], found[n + k], 1, steps[n + k - 1]);
    }
    assert short.trace[..|rest| - 1] == steps[n..];
    assert Resolves(world, onward, short, rest, maxSymlinks - 1);
  }

  /**
    A link stands for its target: the names lead to a file within the limit exactly if the target in
    the place of the link, with the names after it, leads there with one link less.
   */
  lemma LinkStandsForTarget(world: World, before: seq<string>, dir: Inode, name: string, fingerprint: int,
                            target: string, rest: seq<string>, inode: Inode, maxSymlinks: int)
    requires Still(world) && AllOrdinary(before) && Ordinary(name) && AllOrdinary(rest)
    requires Reached(world, before, dir) && Saw(world, dir, name, Link(fingerprint, target))
    ensures var onward := Fold([], (if target != "" && target[0] == '/' then [] else before) + Split(target) + rest);
      Finds(world, before + [name] + rest, inode, maxSymlinks)
      <==> maxSymlinks >= 1 && Finds(world, onward, inode, maxSymlinks - 1)
  {
    var start := before + [name] + rest;
    var onward := Fold([], (if target != "" && target[0] == '/' then [] else before) + Split(target) + rest);
    var walks, trace := ThroughLink(world, before, dir, name, fingerprint, target, rest);
    if Finds(world, start, inode, maxSymlinks) {
      var file, found :| Resolves(world, start, file, found, maxSymlinks) && file.inode == inode;
      RestResolves(world, start, walks, trace, onward, file, found, maxSymlinks);
    }
    if maxSymlinks >= 1 && Finds(world, onward, inode, maxSymlinks - 1) {
      var file, found :| Resolves(world, onward, file, found, maxSymlinks - 1) && file.inode == inode;
      JoinedResolves(world, start, walks, trace, onward, file, found, maxSymlinks);
    }
  }
}
