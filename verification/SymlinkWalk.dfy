/**
  The descriptor walk that resolves symbolic links itself, one component at a time
  (bench/tools/benchmark_artifacts.py:322-345, 348-536).
 */
module SymlinkWalk {
  import opened ByteAtoms
  import opened Common

  type Inode = nat

  // ---------------------------------------------------------- components

  /** Python's `split("/")`. */
  function Split(s: string): (parts: seq<string>)
    ensures parts != []
  {
    if s == "" then [""]
    else
      var rest := Split(s[1..]);
      if s[0] == '/' then [""] + rest else [[s[0]] + rest[0]] + rest[1..]
  }

  predicate IsAbsolute(path: string) {
    path != "" && path[0] == '/'
  }

  /** What one component does to the stack of components before it. */
  ghost function Push(stack: seq<string>, component: string): seq<string> {
    if component == "" || component == "." then stack
    else if component == ".." then (if stack == [] then [] else stack[..|stack| - 1])
    else stack + [component]
  }

  ghost function Fold(stack: seq<string>, components: seq<string>): seq<string>
    decreases |components|
  {
    if components == [] then stack else Fold(Push(stack, components[0]), components[1..])
  }

  ghost function Combined(base: seq<string>, target: string, remaining: seq<string>): seq<string> {
    (if target != "" && target[0] == '/' then [] else base) + Split(target) + remaining
  }

  ghost predicate IsName(component: string) {
    component != "" && component != "." && component != ".."
  }

  ghost predicate AllNames(components: seq<string>) {
    forall component :: component in components ==> IsName(component)
  }

  /** One component gone at `k`: an empty one or a dot, or two dots with nothing before them. */
  ghost predicate DropsOne(from: seq<string>, k: int, to: seq<string>) {
    && 0 <= k < |from| && to == from[..k] + from[k + 1..]
    && (from[k] == "" || from[k] == "." || (k == 0 && from[k] == ".."))
  }

  /** Two components gone at `k`: a name and the two dots right after it. */
  ghost predicate DropsTwo(from: seq<string>, k: int, to: seq<string>) {
    && 0 <= k < |from| - 1 && to == from[..k] + from[k + 2..]
    && IsName(from[k]) && from[k + 1] == ".."
  }

  /** One step of making a list of components shorter without changing what it leads to. */
  ghost predicate Simplifies(from: seq<string>, to: seq<string>) {
    exists k: int :: DropsOne(from, k, to) || DropsTwo(from, k, to)
  }

  ghost predicate Chain(lists: seq<seq<string>>) {
    lists != [] && forall k :: 0 < k < |lists| ==> Simplifies(lists[k - 1], lists[k])
  }

  /** Some steps lead from one list to the other. */
  ghost predicate SimplifiesTo(from: seq<string>, to: seq<string>) {
    exists lists: seq<seq<string>> :: Chain(lists) && lists[0] == from && lists[|lists| - 1] == to
  }

  lemma SimplifiesToItself(names: seq<string>)
    ensures SimplifiesTo(names, names)
  {
    assert Chain([names]);
  }

  lemma SimplifiesFurther(from: seq<string>, middle: seq<string>, to: seq<string>)
    requires SimplifiesTo(from, middle) && Simplifies(middle, to)
    ensures SimplifiesTo(from, to)
  {
    var lists :| Chain(lists) && lists[0] == from && lists[|lists| - 1] == middle;
    assert Chain(lists + [to]);
  }

  /** One turn of the loop leaves the list as it is or makes one step. */
  lemma TurnSimplifies(from: seq<string>, stack: seq<string>, component: string, rest: seq<string>)
    requires SimplifiesTo(from, stack + [component] + rest)
    requires AllNames(stack)
    ensures SimplifiesTo(from, Push(stack, component) + rest) && AllNames(Push(stack, component))
  {
    var before, after := stack + [component] + rest, Push(stack, component) + rest;
    if component == "" || component == "." || (component == ".." && stack == []) {
      assert DropsOne(before, |stack|, after);
      SimplifiesFurther(from, before, after);
    } else if component == ".." {
      assert stack[|stack| - 1] in stack;
      assert DropsTwo(before, |stack| - 1, after);
      SimplifiesFurther(from, before, after);
    }
  }

  /** A relative target whose first component is two dots. */
  ghost predicate StepsBack(target: string) {
    && |target| >= 3 && target[0] == '.' && target[1] == '.' && target[2] == '/'
    && (|target| > 3 ==> target[3] != '/')
  }

  lemma {:induction false} TurnsSimplify(from: seq<string>, stack: seq<string>, components: seq<string>)
    requires SimplifiesTo(from, stack + components) && AllNames(stack)
    ensures SimplifiesTo(from, Fold(stack, components)) && AllNames(Fold(stack, components))
    decreases |components|
  {
    if components == [] {
      assert stack + components == stack;
    } else {
      assert stack + components == stack + [components[0]] + components[1..];
      TurnSimplifies(from, stack, components[0], components[1..]);
      TurnsSimplify(from, Push(stack, components[0]), components[1..]);
    }
  }

  lemma FoldSimplifies(components: seq<string>)
    ensures SimplifiesTo(components, Fold([], components)) && AllNames(Fold([], components))
  {
    SimplifiesToItself(components);
    assert [] + components == components;
    TurnsSimplify(components, [], components);
  }

  /**
    `_normalize_components`. `combined` is shortened step by step until nothing is left to drop, and
    there is only one list that this can end in (`OneNormalForm`).
   */
  method NormalizeComponents(base: seq<string>, target: string, remaining: seq<string>)
    returns (normalized: seq<string>)
    ensures var start := if target != "" && target[0] == '/' then [] else base;
      SimplifiesTo(start + Split(target) + remaining, normalized)
    ensures AllNames(normalized)
    ensures normalized == Fold([], Combined(base, target, remaining))
    ensures (base != [] && IsName(base[|base| - 1]) && StepsBack(target) ==>
               normalized == Fold([], Combined(base[..|base| - 1], target[3..], remaining)))
  {
    var combined := if IsAbsolute(target) then [] else base;
    combined := combined + Split(target);
    combined := combined + remaining;
    normalized := [];
    var i := 0;
    while i < |combined|
      invariant 0 <= i <= |combined|
      invariant Fold([], combined) == Fold(normalized, combined[i..])
    {
      var component := combined[i];
      assert combined[i..][0] == component && combined[i..][1..] == combined[i + 1..];
      i := i + 1;
      if component == "" || component == "." {
        continue;
      }
      if component == ".." {
        if normalized != [] {
          normalized := normalized[..|normalized| - 1];
        }
        continue;
      }
      normalized := normalized + [component];
    }
    FoldSimplifies(combined);
    if base != [] && IsName(base[|base| - 1]) && StepsBack(target) {
      ParentStepsBack(base, target, remaining);
    }
  }

  /** A name that a directory lookup may be asked for. */
  ghost predicate Ordinary(name: string) {
    IsName(name) && '/' !in name
  }

  ghost predicate AllOrdinary(names: seq<string>) {
    forall name :: name in names ==> Ordinary(name)
  }

  ghost predicate NoSlashes(names: seq<string>) {
    forall name :: name in names ==> '/' !in name
  }

  lemma {:induction false} FoldAppend(stack: seq<string>, a: seq<string>, b: seq<string>)
    ensures Fold(stack, a + b) == Fold(Fold(stack, a), b)
    decreases |a|
  {
    if a == [] {
      assert a + b == b;
    } else {
      FoldAppend(Push(stack, a[0]), a[1..], b);
      assert (a + b)[1..] == a[1..] + b;
    }
  }

  lemma FoldPair(stack: seq<string>, first: string, second: string, b: seq<string>)
    ensures Fold(stack, [first, second] + b) == Fold(Push(Push(stack, first), second), b)
  {
    var rest := [first, second] + b;
    assert rest[1..] == [second] + b && ([second] + b)[1..] == b;
    assert Fold(stack, rest) == Fold(Push(stack, first), [second] + b);
  }

  lemma PushAndPop(stack: seq<string>, name: string)
    requires IsName(name)
    ensures Push(Push(stack, name), "..") == stack
  {
    assert (stack + [name])[..|stack|] == stack;
  }

  /** A name and the two dots after it cancel out, wherever they stand. */
  lemma ParentCancels(a: seq<string>, name: string, b: seq<string>)
    requires IsName(name)
    ensures Fold([], a + [name, ".."] + b) == Fold([], a + b)
  {
    var stack := Fold([], a);
    FoldAppend([], a, [name, ".."] + b);
    FoldAppend([], a, b);
    assert a + [name, ".."] + b == a + ([name, ".."] + b);
    FoldPair(stack, name, "..", b);
    PushAndPop(stack, name);
  }

  /** Nothing is above the root. */
  lemma RootIsItsParent(b: seq<string>)
    ensures Fold([], [".."] + b) == Fold([], b)
  {
    assert ([".."] + b)[1..] == b;
  }

  /** An empty component, as between two separators, and a single dot stand for nothing. */
  lemma NothingIsSkipped(a: seq<string>, name: string, b: seq<string>)
    requires name == "" || name == "."
    ensures Fold([], a + [name] + b) == Fold([], a + b)
  {
    FoldAppend([], a, [name] + b);
    FoldAppend([], a, b);
    assert a + [name] + b == a + ([name] + b);
    assert ([name] + b)[1..] == b;
  }

  /** A relative target that starts with two dots starts one directory higher. */
  lemma ParentStepsBack(base: seq<string>, target: string, rest: seq<string>)
    requires base != [] && IsName(base[|base| - 1]) && StepsBack(target)
    ensures Fold([], Combined(base, target, rest)) == Fold([], Combined(base[..|base| - 1], target[3..], rest))
  {
    var shorter, name, tail := base[..|base| - 1], base[|base| - 1], Split(target[3..]) + rest;
    CombinedAfterParent(base, target, rest);
    CombinedAfterParent(shorter, target, rest);
    ParentCancels(shorter, name, tail);
    assert base + [".."] + tail == shorter + [name, ".."] + tail;
  }

  lemma CombinedAfterParent(base: seq<string>, target: string, rest: seq<string>)
    requires StepsBack(target)
    ensures Combined(base, target, rest) == base + [".."] + (Split(target[3..]) + rest)
    ensures Combined(base, target[3..], rest) == base + (Split(target[3..]) + rest)
  {
    var after := target[2..];
    assert target == ".." + after;
    SplitPrefix("..", after);
    assert after[1..] == target[3..];
  }

  lemma StepKeepsFold(from: seq<string>, to: seq<string>)
    requires Simplifies(from, to)
    ensures Fold([], from) == Fold([], to)
  {
    var k :| DropsOne(from, k, to) || DropsTwo(from, k, to);
    var a := from[..k];
    if DropsOne(from, k, to) {
      var b := from[k + 1..];
      assert from == a + [from[k]] + b;
      if from[k] == ".." {
        assert from == [".."] + b && to == b;
        RootIsItsParent(b);
      } else {
        NothingIsSkipped(a, from[k], b);
      }
    } else {
      var b := from[k + 2..];
      assert from == a + [from[k], ".."] + b;
      ParentCancels(a, from[k], b);
    }
  }

  lemma {:induction false} ChainKeepsFold(lists: seq<seq<string>>)
    requires Chain(lists)
    ensures Fold([], lists[0]) == Fold([], lists[|lists| - 1])
  {
    if |lists| > 1 {
      var shorter := lists[..|lists| - 1];
      forall k | 0 < k < |shorter| ensures Simplifies(shorter[k - 1], shorter[k]) {
        assert Simplifies(lists[k - 1], lists[k]);
      }
      ChainKeepsFold(shorter);
      StepKeepsFold(lists[|lists| - 2], lists[|lists| - 1]);
    }
  }

  /** In whatever order a list of components is made shorter, it ends in the same list of names. */
  lemma OneNormalForm(from: seq<string>, a: seq<string>, b: seq<string>)
    requires SimplifiesTo(from, a) && SimplifiesTo(from, b)
    requires AllNames(a) && AllNames(b)
    ensures a == b
  {
    var lists :| Chain(lists) && lists[0] == from && lists[|lists| - 1] == a;
    ChainKeepsFold(lists);
    var others :| Chain(others) && others[0] == from && others[|others| - 1] == b;
    ChainKeepsFold(others);
    NamesStay([], a);
    NamesStay([], b);
    assert [] + a == a && [] + b == b;
  }

  lemma {:induction false} NamesStay(stack: seq<string>, names: seq<string>)
    requires AllNames(names)
    ensures Fold(stack, names) == stack + names
    decreases |names|
  {
    if names == [] {
      assert stack + names == stack;
    } else {
      assert names[0] in names;
      NamesStay(stack + [names[0]], names[1..]);
      assert stack + [names[0]] + names[1..] == stack + names;
    }
  }

  /** Normalization leaves ordinary names only. */
  lemma {:induction false} FoldIsOrdinary(stack: seq<string>, components: seq<string>)
    requires AllOrdinary(stack) && NoSlashes(components)
    ensures AllOrdinary(Fold(stack, components))
    decreases |components|
  {
    if components != [] {
      FoldIsOrdinary(Push(stack, components[0]), components[1..]);
    }
  }

  lemma {:induction false} SplitHasNoSlashes(s: string)
    ensures NoSlashes(Split(s))
  {
    if s != "" {
      SplitHasNoSlashes(s[1..]);
      var rest := Split(s[1..]);
      assert rest[0] in rest;
      forall name | name in Split(s) ensures '/' !in name {
        if s[0] != '/' && name == [s[0]] + rest[0] {
        } else if name != "" {
          assert name in rest;
        }
      }
    }
  }

  /** The text whose parts between separators are `parts`. */
  ghost function Join(parts: seq<string>): string
    requires parts != []
  {
    if |parts| == 1 then parts[0] else parts[0] + "/" + Join(parts[1..])
  }

  /** The parts of a text hold no separator and spell the text, with one separator between each two. */
  lemma {:induction false} SplitSpells(s: string)
    ensures NoSlashes(Split(s)) && Join(Split(s)) == s
  {
    SplitHasNoSlashes(s);
    if s != "" {
      SplitSpells(s[1..]);
      var rest, parts := Split(s[1..]), Split(s);
      if s[0] == '/' {
        assert parts[1..] == rest;
      } else {
        assert parts[1..] == rest[1..];
      }
      assert s == [s[0]] + s[1..];
    }
  }

  /** No other parts do. */
  lemma {:induction false} SplitIsTheOnly(parts: seq<string>)
    requires parts != [] && NoSlashes(parts)
    ensures Split(Join(parts)) == parts
  {
    if |parts| == 1 {
      SplitPrefix(parts[0], "");
      assert parts[0] + "" == parts[0];
      assert parts == [parts[0]];
    } else {
      var rest := "/" + Join(parts[1..]);
      SplitIsTheOnly(parts[1..]);
      SplitPrefix(parts[0], rest);
      assert parts[0] + rest == Join(parts);
      assert rest[1..] == Join(parts[1..]);
      assert ([""] + parts[1..])[1..] == parts[1..];
    }
  }

  /** Normalizing in two steps is normalizing once: an already normalized base may stand for what it came from. */
  lemma NormalizedBase(base: seq<string>, suffix: seq<string>)
    requires NoSlashes(base)
    ensures Fold([], Fold([], base) + suffix) == Fold([], base + suffix)
  {
    var n := Fold([], base);
    FoldIsOrdinary([], base);
    FoldAppend([], n, suffix);
    NamesStay([], n);
    assert [] + n == n;
    FoldAppend([], base, suffix);
  }

  /** The absolute path text of a list of components. */
  ghost function Render(names: seq<string>): string {
    if names == [] then "" else "/" + names[0] + Render(names[1..])
  }

  lemma {:induction false} SplitPrefix(name: string, rest: string)
    requires '/' !in name && (rest == "" || rest[0] == '/')
    ensures Split(name + rest) == [name] + Split(rest)[1..]
  {
    if name == "" {
      assert name + rest == rest;
    } else {
      SplitPrefix(name[1..], rest);
      assert (name + rest)[1..] == name[1..] + rest;
      assert name == [name[0]] + name[1..];
    }
  }

  lemma {:induction false} SplitRendered(names: seq<string>)
    requires NoSlashes(names)
    ensures Split(Render(names)) == [""] + names
  {
    if names == [] {
    } else {
      var rest := Render(names[1..]);
      SplitRendered(names[1..]);
      SplitPrefix(names[0], rest);
      var text := Render(names);
      assert text[1..] == names[0] + rest;
      assert ([""] + names[1..])[1..] == names[1..];
      assert [names[0]] + names[1..] == names;
    }
  }

  /** Making a path absolute and tidy first (`os.path.abspath`) does not change its components. */
  lemma AbspathKeepsComponents(components: seq<string>)
    requires NoSlashes(components)
    ensures Fold([], Split(Render(Fold([], components)))) == Fold([], components)
  {
    var n := Fold([], components);
    FoldIsOrdinary([], components);
    SplitRendered(n);
    NamesStay([], n);
    assert ([""] + n)[1..] == n && [] + n == n;
  }

  /**
    What replaces the pending components can be empty: exactly when everything cancels out, as for a
    link to the root.
   */
  lemma LinkToRootLeavesNothing(resolved: seq<string>)
    ensures Fold([], Combined(resolved, "/", [])) == []
  {
    assert Split("/") == ["", ""] by {
      assert "/"[1..] == "";
      assert Split("") == [""];
    }
    assert Combined(resolved, "/", []) == ["", ""];
    assert ["", ""][1..] == [""] && [""][1..] == [];
  }

  // -------------------------------------------------------------- the world

  /** What a directory shows under a name. */
  datatype Node = Nothing | Link(fingerprint: int,
                                 target: string) | Regular(inode: Inode) | Directory(inode: Inode) | Special

  /** A filesystem that may change between any two calls, and calls that may fail at any time. */
  datatype World = World(root: Inode, look: (nat, Inode, string) -> Node, fails: nat -> bool)

  datatype Step = Followed(fingerprint: int, target: string) | Entered(inode: Inode) | Leaf(inode: Inode)

  datatype Opened = Opened(descriptor: nat, inode: Inode, trace: seq<Step>)

  datatype Failure =
    | BareName | NotFile | RootOpenFailed | PathUnreadable | SymlinkLimit | SymlinkDrift
    | NotRegular | OpenFailed | StatFailed | ParentNotDirectory | ParentOpenFailed | ParentDrift | NothingPending

  /**
    Where a walk stands: the names it went through since the root, the names still ahead, and the
    directory it holds.
   */
  datatype Walk = Walk(resolved: seq<string>, pending: seq<string>, dir: Inode, followed: nat)

  ghost predicate Saw(world: World, dir: Inode, name: string, node: Node) {
    exists t: nat :: world.look(t, dir, name) == node
  }

  ghost function Enter(w: Walk, inode: Inode): Walk
    requires w.pending != []
  {
    Walk(w.resolved + [w.pending[0]], w.pending[1..], inode, w.followed)
  }

  /** A link starts over at the root with its target in the place of its name. */
  ghost function Follow(world: World, w: Walk, target: string): Walk
    requires w.pending != []
  {
    Walk([], Fold([], Combined(w.resolved, target, w.pending[1..])), world.root, w.followed + 1)
  }

  ghost predicate Entering(world: World, w: Walk, next: Walk) {
    |w.pending| > 1 && exists inode: Inode ::
      Saw(world, w.dir, w.pending[0], Directory(inode)) && next == Enter(w, inode)
  }

  ghost predicate Following(world: World, w: Walk, next: Walk) {
    w.pending != [] && exists fingerprint: int, target: string ::
      Saw(world, w.dir, w.pending[0], Link(fingerprint, target)) && next == Follow(world, w, target)
  }

  /** Every state follows from the one before by something that was seen. */
  ghost predicate Run(world: World, walks: seq<Walk>) {
    && walks != []
    && forall k :: 0 < k < |walks| ==>
      Entering(world, walks[k - 1], walks[k]) || Following(world, walks[k - 1], walks[k])
  }

  /** Only ordinary names are ahead or behind, and the held directory is where the resolved names lead. */
  ghost predicate Sound(world: World, w: Walk) {
    AllOrdinary(w.resolved) && AllOrdinary(w.pending) && Reached(world, w.resolved, w.dir)
  }

  /** Real directories lead from the root along `names` to `dir`, each as it was seen at some time. */
  ghost predicate Reached(world: World, names: seq<string>, dir: Inode)
    decreases |names|
  {
    if names == [] then dir == world.root
    else
      exists parent: Inode ::
        Saw(world, parent, Last(names), Directory(dir)) && Reached(world, names[..|names| - 1], parent)
  }

  ghost function Last(names: seq<string>): string
    requires names != []
  {
    names[|names| - 1]
  }

  lemma EnterIsSound(world: World, w: Walk, inode: Inode)
    requires Sound(world, w) && w.pending != [] && Saw(world, w.dir, w.pending[0], Directory(inode))
    ensures Sound(world, Enter(w, inode))
  {
    var next := Enter(w, inode);
    assert next.resolved[..|w.resolved|] == w.resolved;
    assert w.pending[0] in w.pending && Last(next.resolved) == w.pending[0];
    assert Reached(world, next.resolved, inode);
  }

  lemma FollowIsSound(world: World, w: Walk, target: string)
    requires Sound(world, w) && w.pending != []
    ensures Sound(world, Follow(world, w, target))
  {
    SplitHasNoSlashes(target);
    forall name | name in Combined(w.resolved, target, w.pending[1..]) ensures '/' !in name {
      assert name in w.resolved || name in Split(target) || name in w.pending;
    }
    FoldIsOrdinary([], Combined(w.resolved, target, w.pending[1..]));
  }

  /** The step of a trace that leads from one state to the next. */
  ghost predicate Took(world: World, w: Walk, next: Walk, step: Step) {
    && w.pending != []
    && match step
       case Entered(inode) => Saw(world, w.dir, w.pending[0], Directory(inode)) && next == Enter(w, inode)
       case Followed(fingerprint, target) => SawLink(world, w.dir, w.pending[0], fingerprint)
       && next == Follow(world, w, target)
       case Leaf(_) => false
  }

  ghost predicate SawLink(world: World, dir: Inode, name: string, fingerprint: int) {
    exists target: string :: Saw(world, dir, name, Link(fingerprint, target))
  }

  ghost predicate Traced(world: World, walks: seq<Walk>, trace: seq<Step>) {
    |walks| == |trace| + 1 && forall k :: 0 <= k < |trace| ==> Took(world, walks[k], walks[k + 1], trace[k])
  }

  /** The run from `start` has come to `w` by the steps of the trace. */
  ghost predicate CameTo(world: World, start: seq<string>, walks: seq<Walk>, trace: seq<Step>, w: Walk) {
    && Run(world, walks) && walks[0] == Walk([], start, world.root, 0) && w == walks[|walks| - 1] && Sound(world, w)
    && Traced(world, walks, trace)
  }

  lemma RunGrows(world: World, walks: seq<Walk>, trace: seq<Step>, w: Walk, next: Walk, step: Step)
    requires Run(world, walks) && w == walks[|walks| - 1] && Traced(world, walks, trace)
    requires (Entering(world, w, next) || Following(world, w, next)) && Took(world, w, next, step)
    ensures Run(world, walks + [next]) && Traced(world, walks + [next], trace + [step])
  {
    var more, longer := walks + [next], trace + [step];
    forall k | 0 <= k < |longer| ensures Took(world, more[k], more[k + 1], longer[k]) {
      assert k < |trace| ==> Took(world, walks[k], walks[k + 1], trace[k]);
    }
  }

  lemma EnterGrows(world: World, start: seq<string>, walks: seq<Walk>, trace: seq<Step>, w: Walk, inode: Inode)
    requires CameTo(world, start, walks, trace, w)
    requires |w.pending| > 1 && Saw(world, w.dir, w.pending[0], Directory(inode))
    ensures CameTo(world, start, walks + [Enter(w, inode)], trace + [Entered(inode)], Enter(w, inode))
  {
    RunGrows(world, walks, trace, w, Enter(w, inode), Entered(inode));
    EnterIsSound(world, w, inode);
  }

  lemma FollowGrows(world: World, start: seq<string>, walks: seq<Walk>, trace: seq<Step>, w: Walk, seen: int, read: int,
                    target: string)
    requires CameTo(world, start, walks, trace, w) && w.pending != []
    requires SawLink(world, w.dir, w.pending[0], seen) && Saw(world, w.dir, w.pending[0], Link(read, target))
    ensures CameTo(world, start, walks + [Follow(world, w, target)], trace + [Followed(seen, target)],
                   Follow(world, w, target))
  {
    var next := Follow(world, w, target);
    assert Following(world, w, next);
    RunGrows(world, walks, trace, w, next, Followed(seen, target));
    FollowIsSound(world, w, target);
  }

  /** What a normal return means. */
  ghost predicate Resolves(world: World, start: seq<string>, file: Opened, walks: seq<Walk>, maxSymlinks: int) {
    && Run(world, walks) && walks[0] == Walk([], start, world.root, 0)
    && var last := walks[|walks| - 1];
       && Sound(world, last) && |last.pending| == 1 && Saw(world, last.dir, last.pending[0], Regular(file.inode))
       && (last.followed == 0 || last.followed <= maxSymlinks)
       && |file.trace| == |walks| && file.trace[|walks| - 1] == Leaf(file.inode)
       && Traced(world, walks, file.trace[..|walks| - 1])
  }

  // ------------------------------------------------------ a world that keeps still

  ghost predicate Still(world: World) {
    forall t: nat, u: nat, dir: Inode, name: string :: world.look(t, dir, name) == world.look(u, dir, name)
  }

  lemma SameLooks(world: World, t: nat, dir: Inode, name: string, still: bool)
    requires still ==> Still(world)
    ensures still ==>
              world.look(t + 1, dir, name) == world.look(t, dir, name)
              && world.look(t + 2, dir, name) == world.look(t, dir, name)
  {
  }

  lemma SawOne(world: World, dir: Inode, name: string, a: Node, b: Node)
    requires Still(world) && Saw(world, dir, name, a) && Saw(world, dir, name, b)
    ensures a == b
  {
    var t: nat :| world.look(t, dir, name) == a;
    var u: nat :| world.look(u, dir, name) == b;
    assert world.look(t, dir, name) == world.look(u, dir, name);
  }

  /** Where nothing changes there is one way to go on. */
  lemma OneNext(world: World, w: Walk, a: Walk, b: Walk)
    requires Still(world)
    requires Entering(world, w, a) || Following(world, w, a)
    requires Entering(world, w, b) || Following(world, w, b)
    ensures a == b
  {
    var x := NodeTaken(world, w, a);
    var y := NodeTaken(world, w, b);
    SawOne(world, w.dir, w.pending[0], x, y);
  }

  lemma NodeTaken(world: World, w: Walk, next: Walk) returns (node: Node)
    requires Entering(world, w, next) || Following(world, w, next)
    ensures w.pending != [] && Saw(world, w.dir, w.pending[0], node)
    ensures (node.Directory? && |w.pending| > 1 && next == Enter(w, node.inode))
            || (node.Link? && next == Follow(world, w, node.target))
  {
    if Entering(world, w, next) {
      var inode: Inode :| Saw(world, w.dir, w.pending[0], Directory(inode)) && next == Enter(w, inode);
      node := Directory(inode);
    } else {
      var fingerprint: int, target: string :|
        Saw(world, w.dir, w.pending[0], Link(fingerprint, target)) && next == Follow(world, w, target);
      node := Link(fingerprint, target);
    }
  }

  lemma {:induction false} RunsAgree(world: World, a: seq<Walk>, b: seq<Walk>, k: nat)
    requires Still(world) && Run(world, a) && Run(world, b) && a[0] == b[0] && k < |a| && k < |b|
    ensures a[k] == b[k]
  {
    if k > 0 {
      RunsAgree(world, a, b, k - 1);
      OneNext(world, a[k - 1], a[k], b[k]);
    }
  }

  lemma NoLongerRun(world: World, start: seq<string>, f: Opened, a: seq<Walk>, b: seq<Walk>, limit: int)
    requires Still(world) && Resolves(world, start, f, a, limit) && Run(world, b) && b[0] == a[0]
    ensures |b| <= |a|
  {
    if |b| > |a| {
      var n := |a| - 1;
      RunsAgree(world, a, b, n);
      var node := NodeTaken(world, a[n], b[n + 1]);
      SawOne(world, a[n].dir, a[n].pending[0], node, Regular(f.inode));
    }
  }

  /**
    Where nothing changes, two walks over the same names that find a file find the same file, whatever their limits.
   */
  lemma OneAnswer(world: World, start: seq<string>, f: Opened, a: seq<Walk>, m: int, g: Opened, b: seq<Walk>, n: int)
    requires Still(world) && Resolves(world, start, f, a, m) && Resolves(world, start, g, b, n)
    ensures f.inode == g.inode && a == b
  {
    NoLongerRun(world, start, f, a, b, m);
    NoLongerRun(world, start, g, b, a, n);
    forall k | 0 <= k < |a| ensures a[k] == b[k] {
      RunsAgree(world, a, b, k);
    }
    var last := a[|a| - 1];
    SawOne(world, last.dir, last.pending[0], Regular(f.inode), Regular(g.inode));
  }

  ghost predicate NeverFails(world: World) {
    forall t: nat :: !world.fails(t)
  }

  /** Some run within the limit leads to a file. */
  ghost predicate Findable(world: World, start: seq<string>, maxSymlinks: int) {
    exists file: Opened, walks: seq<Walk> :: Resolves(world, start, file, walks, maxSymlinks)
  }

  /** What a walk must see to go on from `w`. */
  ghost predicate Proceeds(w: Walk, node: Node, maxSymlinks: int) {
    || (|w.pending| == 1 && node.Regular?)
    || (|w.pending| > 1 && node.Directory?)
    || (w.pending != [] && node.Link? && w.followed + 1 <= maxSymlinks)
  }

  lemma {:induction false} FollowedGrows(world: World, walks: seq<Walk>, k: nat, n: nat)
    requires Run(world, walks) && k <= n < |walks|
    ensures walks[k].followed <= walks[n].followed
  {
    if k < n {
      FollowedGrows(world, walks, k, n - 1);
      var node := NodeTaken(world, walks[n - 1], walks[n]);
    }
  }

  /** Where nothing changes and a file can be found, no run from the start ever gets stuck before it. */
  lemma CanGoOn(world: World, start: seq<string>, walks: seq<Walk>, maxSymlinks: int, t: nat)
    requires Still(world) && Findable(world, start, maxSymlinks)
    requires Run(world, walks) && walks[0] == Walk([], start, world.root, 0)
    ensures var w := walks[|walks| - 1];
      w.pending != [] && Proceeds(w, world.look(t, w.dir, w.pending[0]), maxSymlinks)
  {
    var file, found :| Resolves(world, start, file, found, maxSymlinks);
    NoLongerRun(world, start, file, found, walks, maxSymlinks);
    var k, n := |walks| - 1, |found| - 1;
    RunsAgree(world, found, walks, k);
    var w := found[k];
    var node := Regular(file.inode);
    if k < n {
      node := NodeTaken(world, w, found[k + 1]);
      FollowedGrows(world, found, k + 1, n);
    }
    var seen := world.look(t, w.dir, w.pending[0]);
    SawOne(world, w.dir, w.pending[0], node, seen);
  }

  // ------------------------------------------------------------ system calls

  /** The filesystem as the walk asks it, one call at a time. Only ordinary names are ever asked for. */
  class Files {
    const world: World
    const table: Descriptors<Node>
    var clock: nat
    ghost var asked: seq<string>

    ghost predicate Valid()
      reads this, table
    {
      table.Valid() && AllOrdinary(asked)
    }

    constructor (world: World)
      ensures Valid() && this.world == world && fresh(table) && table.held == map[] && asked == [] && clock == 0
    {
      this.world, clock, asked := world, 0, [];
      table := new Descriptors();
    }

    /** A descriptor of a directory. */
    ghost predicate Holds(fd: nat, dir: Inode)
      reads table
    {
      fd in table.held && table.held[fd] == Directory(dir)
    }

    /** Inspect a name without following it; `None` stands for a failing call. */
    method Look(fd: nat, dir: Inode, name: string) returns (r: Option<Node>)
      requires Valid() && Holds(fd, dir) && Ordinary(name)
      modifies this
      ensures Valid() && clock == old(clock) + 1 && asked == old(asked) + [name]
      ensures r == if world.fails(old(clock)) then None else Some(world.look(old(clock), dir, name))
    {
      r := if world.fails(clock) then None else Some(world.look(clock, dir, name));
      clock, asked := clock + 1, asked + [name];
    }

    /** Open what is no link; a directory may be demanded. */
    method OpenAt(fd: nat, dir: Inode, name: string, demandDirectory: bool) returns (r: Option<nat>)
      requires Valid() && Holds(fd, dir) && Ordinary(name)
      modifies this, table
      ensures Valid() && clock == old(clock) + 1 && asked == old(asked) + [name]
      ensures var node := world.look(old(clock), dir, name);
        && (r.Some? <==>
            && !world.fails(old(clock)) && !node.Nothing? && !node.Link? && (demandDirectory ==> node.Directory?))
        && (r.Some? ==> r.value !in old(table.held) && table.held == old(table.held)[r.value := node])
      ensures r.None? ==> table.held == old(table.held)
    {
      var node := world.look(clock, dir, name);
      if world.fails(clock) || node.Nothing? || node.Link? || (demandDirectory && !node.Directory?) {
        r := None;
      } else {
        var taken := table.Open(node);
        r := Some(taken);
      }
      clock, asked := clock + 1, asked + [name];
    }

    method OpenRoot() returns (r: Option<nat>)
      requires Valid()
      modifies this`clock, table
      ensures Valid() && clock == old(clock) + 1
      ensures r.Some? <==> !world.fails(old(clock))
      ensures r.Some? ==> r.value !in old(table.held) && table.held == old(table.held)[r.value := Directory(world.root)]
      ensures r.None? ==> table.held == old(table.held)
    {
      if world.fails(clock) {
        r := None;
      } else {
        var taken := table.Open(Directory(world.root));
        r := Some(taken);
      }
      clock := clock + 1;
    }

    /** What an open descriptor holds. */
    method Inspect(fd: nat) returns (r: Option<Node>)
      requires Valid() && fd in table.held
      modifies this`clock
      ensures Valid() && clock == old(clock) + 1
      ensures r == if world.fails(old(clock)) then None else Some(table.held[fd])
    {
      r := if world.fails(clock) then None else Some(table.held[fd]);
      clock := clock + 1;
    }
  }

  // --------------------------------------------------------------- the walk

  /** Read a link and make sure that it is still the one inspected before. */
  method ReadLink(files: Files, fd: nat, dir: Inode, name: string, before: Node)
    returns (target: string, fingerprint: int, same: bool)
    requires files.Valid() && files.Holds(fd, dir) && Ordinary(name) && before.Link?
    modifies files
    ensures files.Valid() && old(files.asked) <= files.asked
    ensures same ==> Saw(files.world, dir, name, Link(fingerprint, target)) && files.clock == old(files.clock) + 2
    ensures var world, clock := files.world, old(files.clock);
      same <==> && !world.fails(clock) && world.look(clock, dir, name).Link?
                && !world.fails(clock + 1) && world.look(clock + 1, dir, name).Link?
                && world.look(clock + 1, dir, name).fingerprint == before.fingerprint
  {
    target, fingerprint, same := "", 0, false;
    var read := files.Look(fd, dir, name);
    if read.None? || !read.value.Link? { return; }
    target, fingerprint := read.value.target, read.value.fingerprint;
    assert files.world.look(old(files.clock), dir, name) == Link(fingerprint, target);
    var after := files.Look(fd, dir, name);
    same := after.Some? && after.value.Link? && after.value.fingerprint == before.fingerprint;
  }

  /** Open a directory on the way, which must be the one inspected before; a refused descriptor is closed again. */
  method OpenParent(files: Files, fd: nat, dir: Inode, name: string, before: Node) returns (r: Result<nat, Failure>)
    requires files.Valid() && files.Holds(fd, dir) && Ordinary(name)
    modifies files, files.table
    ensures files.Valid() && old(files.asked) <= files.asked
    ensures var world, clock := files.world, old(files.clock);
      (r.Ok? <==>
         && before.Directory? && world.look(clock, dir, name) == before
         && !world.fails(clock) && !world.fails(clock + 1))
    ensures r.Ok? ==> r.value !in old(files.table.held) && files.table.held == old(files.table.held)[r.value := before]
    ensures r.Err? ==> files.table.held == old(files.table.held)
    ensures r.Err? ==> r.error.ParentNotDirectory? || r.error.ParentOpenFailed? || r.error.ParentDrift?
  {
    if !before.Directory? {
      return Err(ParentNotDirectory);
    }
    var next := files.OpenAt(fd, dir, name, true);
    if next.None? {
      return Err(ParentOpenFailed);
    }
    ghost var held := files.table.held;
    var found := files.Inspect(next.value);
    if found == Some(before) {
      return Ok(next.value);
    }
    files.table.Close(next.value);
    assert files.table.held == old(files.table.held);
    return Err(if found.None? then ParentOpenFailed else ParentDrift);
  }

  /** Open the last name, which must be the regular file inspected before; a refused descriptor is closed again. */
  method OpenLeaf(files: Files, fd: nat, dir: Inode, name: string, before: Node, trace: seq<Step>)
    returns (r: Result<Opened, Failure>)
    requires files.Valid() && files.Holds(fd, dir) && Ordinary(name)
    modifies files, files.table
    ensures files.Valid() && old(files.asked) <= files.asked
    ensures (r.Ok? ==>
               && before == Regular(r.value.inode) && r.value.trace == trace + [Leaf(r.value.inode)]
               && r.value.descriptor !in old(files.table.held)
               && files.table.held == old(files.table.held)[r.value.descriptor := before])
    ensures r.Err? ==> files.table.held == old(files.table.held)
    ensures r.Err? ==> r.error.NotRegular? || r.error.OpenFailed? || r.error.StatFailed?
    ensures var world, clock := files.world, old(files.clock);
      (r.Ok? <==>
         && before.Regular? && world.look(clock, dir, name) == before && !world.fails(clock) && !world.fails(clock + 1))
  {
    if !before.Regular? {
      return Err(NotRegular);
    }
    var leaf := files.OpenAt(fd, dir, name, false);
    if leaf.None? {
      return Err(OpenFailed);
    }
    var found := files.Inspect(leaf.value);
    if found == Some(before) {
      return Ok(Opened(leaf.value, before.inode, trace + [Leaf(before.inode)]));
    }
    files.table.Close(leaf.value);
    assert files.table.held == old(files.table.held);
    return Err(if found.None? then StatFailed else NotRegular);
  }

  /** What a walk over `start` leaves in the table: the file it found, or nothing new. */
  ghost predicate LeavesOpen(before: map<nat, Node>, after: map<nat, Node>, r: Result<Opened, Failure>) {
    match r
    case Ok(file) => file.descriptor !in before && after == before[file.descriptor := Regular(file.inode)]
    case Err(_) => after == before
  }

  /**
    `_open_resolved_regular`. `walks` are the states gone through. Where nothing changes and no call
    fails, it finds a file exactly if there is one to be found within the limit.
   */
  method OpenResolvedRegular(files: Files, cwd: seq<string>, path: string, maxSymlinks: int)
    returns (r: Result<Opened, Failure>, ghost walks: seq<Walk>)
    requires files.Valid() && NoSlashes(cwd)
    modifies files, files.table
    ensures files.Valid() && old(files.asked) <= files.asked
    ensures LeavesOpen(old(files.table.held), files.table.held, r)
    ensures r == Err(BareName) <==> '/' !in path
    ensures r == Err(NotFile) <==> '/' in path && Fold([], Combined(cwd, path, [])) == []
    ensures r.Ok? ==> Resolves(files.world, Fold([], Combined(cwd, path, [])), r.value, walks, maxSymlinks)
    ensures (Still(files.world) && NeverFails(files.world) && '/' in path ==>
               (r.Ok? <==> Findable(files.world, Fold([], Combined(cwd, path, [])), maxSymlinks)))
    ensures walks != [] ==>
              Run(files.world, walks) && walks[0] == Walk([], Fold([], Combined(cwd, path, [])), files.world.root, 0)
    ensures r == Err(SymlinkLimit) ==> walks != [] && walks[|walks| - 1].followed >= maxSymlinks
    ensures r == Err(NothingPending) ==>
              walks != [] && walks[|walks| - 1].pending == [] && walks[|walks| - 1].followed > 0
  {
    walks := [];
    if '/' !in path {
      return Err(BareName), walks;
    }
    var pending := NormalizeComponents(cwd, path, []);
    SplitHasNoSlashes(path);
    FoldIsOrdinary([], Combined(cwd, path, []));
    if pending == [] {
      NothingToFind(files.world, maxSymlinks);
      return Err(NotFile), walks;
    }
    var root := files.OpenRoot();
    if root.None? {
      return Err(RootOpenFailed), walks;
    }
    r, walks := Resolve(files, root.value, pending, maxSymlinks);
    assert old(files.table.held)[root.value := Directory(files.world.root)] - {root.value} == old(files.table.held);
  }

  lemma NothingToFind(world: World, maxSymlinks: int)
    ensures !Findable(world, [], maxSymlinks)
  {
    if Findable(world, [], maxSymlinks) {
      var file, walks :| Resolves(world, [], file, walks, maxSymlinks);
      SomethingAhead(world, walks);
    }
  }

  lemma SomethingAhead(world: World, walks: seq<Walk>)
    requires Run(world, walks)
    ensures |walks| > 1 ==> walks[0].pending != []
  {
    if |walks| > 1 {
      var node := NodeTaken(world, walks[0], walks[1]);
    }
  }

  /** No call fails here, and there is a file to be found. */
  ghost predicate Sure(world: World, start: seq<string>, maxSymlinks: int) {
    Still(world) && NeverFails(world) && Findable(world, start, maxSymlinks)
  }

  /** A sure walk sees at every moment, and at the next ones, something to go on with. */
  lemma SureGoesOn(world: World, start: seq<string>, walks: seq<Walk>, trace: seq<Step>, w: Walk, maxSymlinks: int,
                   t: nat)
    requires CameTo(world, start, walks, trace, w)
    ensures Sure(world, start, maxSymlinks) ==>
      && w.pending != [] && Proceeds(w, world.look(t, w.dir, w.pending[0]), maxSymlinks)
      && world.look(t + 1, w.dir, w.pending[0]) == world.look(t, w.dir, w.pending[0])
      && world.look(t + 2, w.dir, w.pending[0]) == world.look(t, w.dir, w.pending[0])
      && !world.fails(t) && !world.fails(t + 1) && !world.fails(t + 2) && !world.fails(t + 3)
  {
    if Sure(world, start, maxSymlinks) {
      CanGoOn(world, start, walks, maxSymlinks, t);
      SameLooks(world, t, w.dir, w.pending[0], true);
    }
  }

  /** The walk holds one directory, the one it has come to, besides what was open before. */
  ghost predicate Holding(base: map<nat, Node>, held: map<nat, Node>, fd: nat, dir: Inode) {
    fd !in base && held == base[fd := Directory(dir)]
  }

  /** A newly opened directory takes the place of the one held before. */
  method Replace(files: Files, fd: nat, dir: Inode, next: nat, inode: Inode, ghost base: map<nat, Node>)
    requires files.Valid() && fd !in base && next !in base && next != fd
    requires files.table.held == base[fd := Directory(dir)][next := Directory(inode)]
    modifies files.table
    ensures files.Valid() && Holding(base, files.table.held, next, inode)
  {
    files.table.Close(fd);
  }

  /** The walk from `start` has come to `w` by `trace` and through `walks`, within the limit. */
  ghost predicate Underway(world: World, start: seq<string>, walks: seq<Walk>, trace: seq<Step>, w: Walk,
                           maxSymlinks: int) {
    && CameTo(world, start, walks, trace, w) && (w.followed == 0 || w.followed <= maxSymlinks)
    && (w.pending == [] ==> w.followed > 0 && !Sure(world, start, maxSymlinks))
  }

  /** Read a link twice, put its target in front of what is pending and start again from a new root descriptor. */
  method TakeLink(files: Files, fd: nat, here: Walk, before: Node, trace: seq<Step>, maxSymlinks: int,
                  ghost start: seq<string>, ghost walks: seq<Walk>, ghost base: map<nat, Node>)
    returns (r: Result<nat, Failure>, next: Walk, target: string, ghost more: seq<Walk>)
    requires files.Valid() && Holding(base, files.table.held, fd, here.dir) && here.pending != []
             && Ordinary(here.pending[0])
    requires before.Link? && Saw(files.world, here.dir, here.pending[0], before)
    requires Underway(files.world, start, walks, trace, here, maxSymlinks)
    modifies files, files.table
    ensures files.Valid() && old(files.asked) <= files.asked
    ensures r.Err? ==> files.table.held == old(files.table.held)
    ensures r.Err? ==>
              r.error.SymlinkDrift? || r.error.RootOpenFailed?
              || (r.error.SymlinkLimit? && here.followed >= maxSymlinks)
    ensures (r.Ok? ==>
               && Holding(base, files.table.held, r.value, next.dir) && here.followed < next.followed <= maxSymlinks
               && Underway(files.world, start, more, trace + [Followed(before.fingerprint, target)], next, maxSymlinks))
    ensures (&& Sure(files.world, start, maxSymlinks) && Proceeds(here, before, maxSymlinks)
             && files.world.look(old(files.clock), here.dir, here.pending[0]) == before) ==> r.Ok?
  {
    next, target, more := here, "", walks;
    if here.followed + 1 > maxSymlinks {
      return Err(SymlinkLimit), next, target, more;
    }
    var same;
    same, next, target, more := ReadAhead(files, fd, here, before, trace, maxSymlinks, start, walks);
    if !same {
      return Err(SymlinkDrift), next, target, more;
    }
    SureGoesOn(files.world, start, more, trace + [Followed(before.fingerprint, target)], next, maxSymlinks,
               files.clock);
    var root := files.OpenRoot();
    if root.None? {
      return Err(RootOpenFailed), next, target, more;
    }
    Replace(files, fd, here.dir, root.value, files.world.root, base);
    r := Ok(root.value);
  }

  /** Read a link and work out what is pending after it. */
  method ReadAhead(files: Files, fd: nat, here: Walk, before: Node, ghost trace: seq<Step>, ghost maxSymlinks: int,
                   ghost start: seq<string>, ghost walks: seq<Walk>)
    returns (same: bool, next: Walk, target: string, ghost more: seq<Walk>)
    requires files.Valid() && files.Holds(fd, here.dir) && here.pending != [] && Ordinary(here.pending[0])
    requires before.Link? && Saw(files.world, here.dir, here.pending[0], before)
    requires CameTo(files.world, start, walks, trace, here)
    modifies files
    ensures files.Valid() && old(files.asked) <= files.asked
    ensures (same ==>
               && next.followed == here.followed + 1 && next.dir == files.world.root
               && CameTo(files.world, start, more, trace + [Followed(before.fingerprint, target)], next))
    ensures (&& Still(files.world) && NeverFails(files.world)
             && files.world.look(old(files.clock), here.dir, here.pending[0]) == before) ==> same
  {
    var component, world := here.pending[0], files.world;
    ghost var clock := files.clock;
    var fingerprint;
    next, more := here, walks;
    target, fingerprint, same := ReadLink(files, fd, here.dir, component, before);
    SameLooks(world, clock, here.dir, component, Still(world));
    if same {
      assert SawLink(world, here.dir, component, before.fingerprint);
      FollowGrows(world, start, walks, trace, here, before.fingerprint, fingerprint, target);
      var pending := NormalizeComponents(here.resolved, target, here.pending[1..]);
      next := Walk([], pending, world.root, here.followed + 1);
      more := walks + [next];
    }
  }

  /** Go down into the directory ahead. */
  method EnterParent(files: Files, fd: nat, here: Walk, before: Node, ghost trace: seq<Step>, ghost maxSymlinks: int,
                     ghost start: seq<string>, ghost walks: seq<Walk>, ghost base: map<nat, Node>)
    returns (r: Result<nat, Failure>, next: Walk, ghost more: seq<Walk>)
    requires files.Valid() && Holding(base, files.table.held, fd, here.dir) && |here.pending| > 1
             && Ordinary(here.pending[0])
    requires Saw(files.world, here.dir, here.pending[0], before)
    requires Underway(files.world, start, walks, trace, here, maxSymlinks)
    modifies files, files.table
    ensures files.Valid() && old(files.asked) <= files.asked
    ensures r.Err? ==> files.table.held == old(files.table.held)
    ensures r.Err? ==> r.error.ParentNotDirectory? || r.error.ParentOpenFailed? || r.error.ParentDrift?
    ensures var world, clock := files.world, old(files.clock);
      (r.Ok? <==>
         && before.Directory? && world.look(clock, here.dir, here.pending[0]) == before
         && !world.fails(clock) && !world.fails(clock + 1))
    ensures (r.Ok? ==>
               && Holding(base, files.table.held, r.value, next.dir)
               && next.followed == here.followed && |next.pending| < |here.pending|
               && Underway(files.world, start, more, trace + [Entered(before.inode)], next, maxSymlinks))
  {
    next, more := here, walks;
    r := OpenParent(files, fd, here.dir, here.pending[0], before);
    if r.Ok? {
      EnterGrows(files.world, start, walks, trace, here, before.inode);
      next := Walk(here.resolved + [here.pending[0]], here.pending[1..], before.inode, here.followed);
      more := walks + [next];
      Replace(files, fd, here.dir, r.value, before.inode, base);
    }
  }

  /** The last name of all: a normal return, or a refusal that leaves nothing open. */
  lemma LeafResolves(world: World, start: seq<string>, walks: seq<Walk>, trace: seq<Step>, w: Walk, maxSymlinks: int,
                     file: Opened)
    requires Underway(world, start, walks, trace, w, maxSymlinks) && |w.pending| == 1
    requires Saw(world, w.dir, w.pending[0], Regular(file.inode)) && file.trace == trace + [Leaf(file.inode)]
    ensures Resolves(world, start, file, walks, maxSymlinks)
  {
    assert file.trace[..|walks| - 1] == trace;
  }

  /** One turn: inspect the next name and follow, enter or open it; `done` is the end of the walk. */
  method Turn(files: Files, fd: nat, here: Walk, trace: seq<Step>, maxSymlinks: int,
              ghost start: seq<string>, ghost walks: seq<Walk>, ghost base: map<nat, Node>)
    returns (done: Option<Result<Opened, Failure>>, nextFd: nat, next: Walk, longer: seq<Step>, ghost more: seq<Walk>)
    requires files.Valid() && Holding(base, files.table.held, fd, here.dir) && here.pending != []
    requires Underway(files.world, start, walks, trace, here, maxSymlinks)
    modifies files, files.table
    ensures files.Valid() && old(files.asked) <= files.asked
    ensures done.Some? ==> LeavesOpen(old(files.table.held), files.table.held, done.value)
    ensures done.Some? ==> nextFd == fd && next == here && longer == trace && more == walks
    ensures done.Some? && done.value.Ok? ==> Resolves(files.world, start, done.value.value, more, maxSymlinks)
    ensures done.Some? && done.value.Err? ==>
              Refusal(done.value.error, here, maxSymlinks) && !Sure(files.world, start, maxSymlinks)
    ensures (done.None? ==>
               && Holding(base, files.table.held, nextFd, next.dir)
               && Underway(files.world, start, more, longer, next, maxSymlinks)
               && (here.followed < next.followed <= maxSymlinks
                   || (next.followed == here.followed && |next.pending| < |here.pending|)))
  {
    done, nextFd, next, longer, more := None, fd, here, trace, walks;
    ghost var now := files.clock;
    SureGoesOn(files.world, start, walks, trace, here, maxSymlinks, now);
    var component := here.pending[0];
    assert component in here.pending;
    var seen := files.Look(fd, here.dir, component);
    if seen.None? || seen.value.Nothing? {
      done := Some(Err(PathUnreadable));
      return;
    }
    var before := seen.value;
    assert Saw(files.world, here.dir, component,
               before) by { assert files.world.look(now, here.dir, component) == before; }
    if before.Link? {
      var followed, w, target, ws := TakeLink(files, fd, here, before, trace, maxSymlinks, start, walks, base);
      if followed.Err? {
        done := Some(Err(followed.error));
      } else {
        nextFd, next, longer, more := followed.value, w, trace + [Followed(before.fingerprint, target)], ws;
      }
    } else if |here.pending| == 1 {
      var opening := OpenLeaf(files, fd, here.dir, component, before, trace);
      if opening.Ok? {
        LeafResolves(files.world, start, walks, trace, here, maxSymlinks, opening.value);
      }
      done := Some(opening);
    } else {
      var entered, w, ws := EnterParent(files, fd, here, before, trace, maxSymlinks, start, walks, base);
      if entered.Err? {
        done := Some(Err(entered.error));
      } else {
        nextFd, next, longer, more := entered.value, w, trace + [Entered(before.inode)], ws;
      }
    }
  }

  /** The errors one turn can end in. */
  ghost predicate Refusal(failure: Failure, here: Walk, maxSymlinks: int) {
    && !failure.BareName? && !failure.NotFile? && !failure.NothingPending?
    && (failure.SymlinkLimit? ==> here.followed >= maxSymlinks)
  }

  /**
    The walk proper, over a root descriptor. It ends in any world: following a link uses up one of
    the permitted links, and any other step uses up a pending name.
   */
  method Resolve(files: Files, root: nat, start: seq<string>, maxSymlinks: int)
    returns (r: Result<Opened, Failure>, ghost walks: seq<Walk>)
    requires files.Valid() && files.Holds(root, files.world.root) && start != [] && AllOrdinary(start)
    modifies files, files.table
    ensures files.Valid() && old(files.asked) <= files.asked
    ensures LeavesOpen(old(files.table.held) - {root}, files.table.held, r)
    ensures !r.Err? || (!r.error.BareName? && !r.error.NotFile?)
    ensures r.Ok? ==> Resolves(files.world, start, r.value, walks, maxSymlinks)
    ensures Sure(files.world, start, maxSymlinks) ==> r.Ok?
    ensures Run(files.world, walks) && walks[0] == Walk([], start, files.world.root, 0)
    ensures r == Err(SymlinkLimit) ==> walks[|walks| - 1].followed >= maxSymlinks
    ensures r == Err(NothingPending) ==> walks[|walks| - 1].pending == [] && walks[|walks| - 1].followed > 0
  {
    ghost var base := files.table.held - {root};
    var fd, here := root, Walk([], start, files.world.root, 0);
    var trace: seq<Step> := [];
    var done: Option<Result<Opened, Failure>> := None;
    walks := [here];
    while here.pending != [] && done.None?
      invariant files.Valid() && old(files.asked) <= files.asked
      invariant Underway(files.world, start, walks, trace, here, maxSymlinks)
      invariant done.None? ==> Holding(base, files.table.held, fd, here.dir)
      invariant done.Some? ==> fd !in base && LeavesOpen(base[fd := Directory(here.dir)], files.table.held, done.value)
      invariant done.Some? && done.value.Ok? ==> Resolves(files.world, start, done.value.value, walks, maxSymlinks)
      invariant done.Some? && done.value.Err? ==>
                  Refusal(done.value.error, here, maxSymlinks) && !Sure(files.world, start, maxSymlinks)
      decreases done.None?, maxSymlinks - here.followed, |here.pending|
    {
      done, fd, here, trace, walks := Turn(files, fd, here, trace, maxSymlinks, start, walks, base);
    }
    r := if done.Some? then done.value else Err(NothingPending);
    files.table.Close(fd);
  }
}
