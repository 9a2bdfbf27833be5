/**
  The bounded freeze of a directory structure that may change while it is read
  (tools/repository_snapshot.py:1918-1934, 1991-2025, 2364-2371, 2682-2809).
 */
module DirectoryFreeze {
  import opened ByteAtoms
  import opened Common
  import opened TextOrder

  datatype Kind = File | Folder | Symlink | Special

  datatype Child = Child(name: string, kind: Kind)

  /**
    One entry as a scan returns it: `encodable` says whether its name is UTF-8, `stated` whether it
    could be inspected, and `identity` what object it was.
   */
  datatype Scanned = Scanned(name: string, encodable: bool, stated: bool, kind: Kind, identity: nat)

  /** What reading a descriptor gives: `stable` if every call worked and the directory did not change meanwhile. */
  datatype Scan = Scan(isFolder: bool, entries: seq<Scanned>, stable: bool)

  /** A tree that may answer differently at every moment. */
  datatype World = World(root: nat, scan: (nat, nat) -> Scan, open: (nat, nat, string) -> Option<nat>)

  datatype FrozenDirectory = FrozenDirectory(path: string, identity: nat, children: seq<Child>)

  datatype Limits = Limits(maxDirectories: nat, maxEntries: nat, maxDepth: nat, maxNameBytes: nat,
                           maxStructureBytes: nat)

  // --------------------------------------------------------------- paths

  predicate SafeName(name: string) {
    name != "" && name != "." && name != ".." && '/' !in name && '\0' !in name
  }

  function ChildPath(path: string, name: string): string {
    if path == "" then name else path + "/" + name
  }

  /** How many directories lie between the root and what the path names, counting the latter. */
  ghost function Depth(path: string): nat {
    if path == "" then 0 else 1 + Slashes(path)
  }

  ghost function Slashes(path: string): nat {
    if path == "" then 0 else (if path[0] == '/' then 1 else 0) + Slashes(path[1..])
  }

  /** `path` is `top` or below it. */
  ghost predicate Under(top: string, path: string) {
    top == "" || path == top || top + "/" <= path
  }

  lemma {:induction false} SlashesAdd(a: string, b: string)
    ensures Slashes(a + b) == Slashes(a) + Slashes(b)
  {
    if a == "" {
      assert a + b == b;
    } else {
      SlashesAdd(a[1..], b);
      assert (a + b)[1..] == a[1..] + b;
    }
  }

  lemma {:induction false} NoSlash(name: string)
    requires '/' !in name
    ensures Slashes(name) == 0
  {
    if name != "" { NoSlash(name[1..]); }
  }

  lemma ChildIsDeeper(path: string, name: string)
    requires SafeName(name)
    ensures Depth(ChildPath(path, name)) == Depth(path) + 1
  {
    NoSlash(name);
    SlashesAdd(path + "/", name);
    SlashesAdd(path, "/");
    assert "/"[1..] == "";
  }

  lemma ChildIsUnder(path: string, name: string, below: string)
    requires SafeName(name) && Under(ChildPath(path, name), below)
    ensures Under(path, below) && |below| > |path|
  {
    var child := ChildPath(path, name);
    if path != "" && below != child {
      assert below[..|child| + 1] == child + "/";
      assert below[..|path| + 1] == child[..|path| + 1] == path + "/";
    }
  }

  /** What follows a child's path below it: nothing, or a slash. */
  lemma ChildSplit(path: string, name: string, below: string)
    requires SafeName(name) && Under(ChildPath(path, name), below)
    ensures var from := if path == "" then 0 else |path| + 1;
      && from + |name| <= |below| && below[from..from + |name|] == name
      && (from + |name| < |below| ==> below[from + |name|] == '/')
  {
    var child := ChildPath(path, name);
    var from := if path == "" then 0 else |path| + 1;
    assert child[from..] == name;
    if below != child {
      assert below[..|child| + 1] == child + "/";
      assert below[|child|] == '/';
      assert below[from..|child|] == child[from..];
    }
  }

  /** Nothing is below two different children. */
  lemma SameSibling(path: string, a: string, b: string, below: string)
    requires SafeName(a) && SafeName(b) && |a| <= |b|
    requires Under(ChildPath(path, a), below) && Under(ChildPath(path, b), below)
    ensures a == b
  {
    ChildSplit(path, a, below);
    ChildSplit(path, b, below);
    NoSlashWithin(b, below, if path == "" then 0 else |path| + 1);
  }

  lemma NoSlashWithin(name: string, below: string, from: nat)
    requires from + |name| <= |below| && below[from..from + |name|] == name && '/' !in name
    ensures forall k :: from <= k < from + |name| ==> below[k] != '/'
  {
    forall k | from <= k < from + |name| ensures below[k] != '/' {
      assert below[k] == name[k - from];
    }
  }

  // ------------------------------------------------------------ accounting

  function Utf8Length(s: string): nat {
    if s == "" then 0
    else
      var c := s[0] as int;
      (if c < 0x80 then 1 else if c < 0x800 then 2 else if c < 0x1_0000 then 3 else 4) + Utf8Length(s[1..])
  }

  /** The length is the sum of what each character takes: a byte, and one more from each of three marks on. */
  lemma {:induction false} Utf8LengthAdds(a: string, c: char, b: string)
    ensures Utf8Length(a + [c] + b) == Utf8Length(a + b) + 1
            + (if c as int >= 0x80 then 1 else 0) + (if c as int >= 0x800 then 1 else 0)
            + (if c as int >= 0x1_0000 then 1 else 0)
  {
    if a == "" {
      assert a + [c] + b == [c] + b && a + b == b;
      assert ([c] + b)[1..] == b;
    } else {
      Utf8LengthAdds(a[1..], c, b);
      assert (a + [c] + b)[1..] == a[1..] + [c] + b && (a + b)[1..] == a[1..] + b;
    }
  }

  ghost function NameBytes(children: seq<Child>): nat {
    if children == [] then 0 else Utf8Length(children[0].name) + NameBytes(children[1..])
  }

  ghost function StructureBytes(path: string, children: seq<Child>): nat {
    if children == [] then 0
    else Utf8Length(ChildPath(path, children[0].name)) + 16 + StructureBytes(path, children[1..])
  }

  ghost function EntriesIn(ds: seq<FrozenDirectory>): nat {
    if ds == [] then 0 else EntriesIn(ds[..|ds| - 1]) + |ds[|ds| - 1].children|
  }

  ghost function NameBytesIn(ds: seq<FrozenDirectory>): nat {
    if ds == [] then 0 else NameBytesIn(ds[..|ds| - 1]) + NameBytes(ds[|ds| - 1].children)
  }

  ghost function StructureBytesIn(ds: seq<FrozenDirectory>): nat {
    if ds == [] then 0
    else StructureBytesIn(ds[..|ds| - 1]) + StructureBytes(ds[|ds| - 1].path, ds[|ds| - 1].children)
  }

  /** Every budget covers what the directories take up. */
  ghost predicate WithinBudgets(ds: seq<FrozenDirectory>, limits: Limits) {
    && |ds| <= limits.maxDirectories && EntriesIn(ds) <= limits.maxEntries
    && NameBytesIn(ds) <= limits.maxNameBytes && StructureBytesIn(ds) <= limits.maxStructureBytes
  }

  lemma OneMore(ds: seq<FrozenDirectory>, d: FrozenDirectory)
    ensures EntriesIn(ds + [d]) == EntriesIn(ds) + |d.children|
    ensures NameBytesIn(ds + [d]) == NameBytesIn(ds) + NameBytes(d.children)
    ensures StructureBytesIn(ds + [d]) == StructureBytesIn(ds) + StructureBytes(d.path, d.children)
  {
    assert (ds + [d])[..|ds|] == ds;
  }

  /** The shared counters of one round (`_DirectoryStructureRound`). */
  class Round {
    const limits: Limits
    var directories: nat
    var entries: nat
    var nameBytes: nat
    var structureBytes: nat

    constructor (limits: Limits)
      ensures this.limits == limits && directories == entries == nameBytes == structureBytes == 0
    {
      this.limits := limits;
      directories, entries, nameBytes, structureBytes := 0, 0, 0, 0;
    }

    ghost predicate Within()
      reads this
    {
      && directories <= limits.maxDirectories && entries <= limits.maxEntries
      && nameBytes <= limits.maxNameBytes && structureBytes <= limits.maxStructureBytes
    }

    method EnterDirectory(depth: nat) returns (ok: bool)
      modifies this`directories
      ensures ok ==> directories == old(directories) + 1
      ensures ok <==> depth <= limits.maxDepth && old(directories) < limits.maxDirectories
    {
      if depth > limits.maxDepth {
        return false;
      }
      directories := directories + 1;
      ok := directories <= limits.maxDirectories;
    }

    method AdmitEntry(nameLength: nat, pathLength: nat) returns (ok: bool)
      requires Within()
      modifies this`entries, this`nameBytes, this`structureBytes
      ensures (ok ==>
                 && Within() && entries == old(entries) + 1 && nameBytes == old(nameBytes) + nameLength
                 && structureBytes == old(structureBytes) + pathLength + 16)
      ensures (ok <==>
                 && old(entries) + 1 <= limits.maxEntries && old(nameBytes) + nameLength <= limits.maxNameBytes
                 && old(structureBytes) + pathLength + 16 <= limits.maxStructureBytes)
    {
      entries := entries + 1;
      if entries > limits.maxEntries { return false; }
      nameBytes := nameBytes + nameLength;
      if nameBytes > limits.maxNameBytes { return false; }
      structureBytes := structureBytes + pathLength + 16;
      ok := structureBytes <= limits.maxStructureBytes;
    }
  }

  // --------------------------------------------------------------- sorting

  datatype Admitted = Admitted(child: Child, identity: nat)

  function InsertByName(e: Admitted, s: seq<Admitted>): seq<Admitted> {
    if s == [] || !Less(s[0].child.name, e.child.name) then [e] + s else [s[0]] + InsertByName(e, s[1..])
  }

  /** A stable sort by name. */
  function SortByName(s: seq<Admitted>): seq<Admitted> {
    if s == [] then [] else InsertByName(s[0], SortByName(s[1..]))
  }

  function ChildrenOf(s: seq<Admitted>): (r: seq<Child>)
    ensures |r| == |s| && forall k :: 0 <= k < |s| ==> r[k] == s[k].child
  {
    if s == [] then [] else [s[0].child] + ChildrenOf(s[1..])
  }

  function NamesOf(children: seq<Child>): (r: seq<string>)
    ensures |r| == |children| && forall k :: 0 <= k < |children| ==> r[k] == children[k].name
  {
    if children == [] then [] else [children[0].name] + NamesOf(children[1..])
  }

  ghost predicate InNameOrder(s: seq<Admitted>) {
    forall i, j :: 0 <= i < j < |s| ==> !Less(s[j].child.name, s[i].child.name)
  }

  lemma {:induction false} InsertByNameSorts(e: Admitted, s: seq<Admitted>)
    requires InNameOrder(s)
    ensures InNameOrder(InsertByName(e, s)) && |InsertByName(e, s)| == |s| + 1
    ensures forall x :: x in InsertByName(e, s) <==> x == e || x in s
  {
    if s == [] || !Less(s[0].child.name, e.child.name) {
      forall j | 0 <= j < |s| ensures !Less(s[j].child.name, e.child.name) {
        NotLessChain(s, j, e.child.name);
      }
    } else {
      InsertByNameSorts(e, s[1..]);
      var rest := InsertByName(e, s[1..]);
      assert forall x :: x in s <==> x == s[0] || x in s[1..];
      NotBoth(s[0].child.name, e.child.name);
      forall j | 0 <= j < |rest| ensures !Less(rest[j].child.name, s[0].child.name) {
        assert rest[j] == e || rest[j] in s[1..];
        FirstIsLeast(s, rest[j]);
      }
    }
  }

  lemma FirstIsLeast(s: seq<Admitted>, x: Admitted)
    requires InNameOrder(s) && s != []
    ensures x in s[1..] ==> !Less(x.child.name, s[0].child.name)
  {
  }

  lemma {:induction false} InsertByNameCosts(path: string, e: Admitted, s: seq<Admitted>)
    ensures NameBytes(ChildrenOf(InsertByName(e, s))) == NameBytes(ChildrenOf(s)) + Utf8Length(e.child.name)
    ensures (StructureBytes(path, ChildrenOf(InsertByName(e, s)))
             == StructureBytes(path, ChildrenOf(s)) + Utf8Length(ChildPath(path, e.child.name)) + 16)
  {
    if s == [] || !Less(s[0].child.name, e.child.name) {
      FirstChild(path, e, s);
    } else {
      var rest := InsertByName(e, s[1..]);
      InsertByNameCosts(path, e, s[1..]);
      FirstChild(path, s[0], rest);
      FirstChild(path, s[0], s[1..]);
      assert s == [s[0]] + s[1..];
    }
  }

  lemma FirstChild(path: string, e: Admitted, s: seq<Admitted>)
    ensures NameBytes(ChildrenOf([e] + s)) == Utf8Length(e.child.name) + NameBytes(ChildrenOf(s))
    ensures (StructureBytes(path, ChildrenOf([e] + s))
             == Utf8Length(ChildPath(path, e.child.name)) + 16 + StructureBytes(path, ChildrenOf(s)))
  {
    assert ([e] + s)[1..] == s;
    assert ChildrenOf([e] + s)[1..] == ChildrenOf(s);
  }

  lemma NotBoth(a: string, b: string)
    requires Less(a, b)
    ensures !Less(b, a)
  {
    if Less(b, a) {
      LessTransitive(a, b, a);
      LessIrreflexive(a);
    }
  }

  lemma NotLessChain(s: seq<Admitted>, j: nat, name: string)
    requires InNameOrder(s) && j < |s| && !Less(s[0].child.name, name)
    ensures !Less(s[j].child.name, name)
  {
    if j > 0 && Less(s[j].child.name, name) {
      LessTotal(s[0].child.name, s[j].child.name);
      if Less(s[0].child.name, s[j].child.name) {
        LessTransitive(s[0].child.name, s[j].child.name, name);
      }
    }
  }

  lemma {:induction false} SortByNameSorts(path: string, s: seq<Admitted>)
    ensures InNameOrder(SortByName(s)) && |SortByName(s)| == |s| && (forall x :: x in SortByName(s) <==> x in s)
    ensures NameBytes(ChildrenOf(SortByName(s))) == NameBytes(ChildrenOf(s))
    ensures StructureBytes(path, ChildrenOf(SortByName(s))) == StructureBytes(path, ChildrenOf(s))
  {
    if s != [] {
      SortByNameSorts(path, s[1..]);
      InsertByNameSorts(s[0], SortByName(s[1..]));
      InsertByNameCosts(path, s[0], SortByName(s[1..]));
      FirstChild(path, s[0], s[1..]);
      assert s == [s[0]] + s[1..];
    }
  }

  /** In name order without duplicates is strictly sorted. */
  lemma SortedAndDistinct(s: seq<Admitted>)
    requires InNameOrder(s) && Distinct(NamesOf(ChildrenOf(s)))
    ensures StrictlySorted(NamesOf(ChildrenOf(s)))
  {
    var names := NamesOf(ChildrenOf(s));
    forall i, j | 0 <= i < j < |names| ensures Less(names[i], names[j]) {
      LessTotal(names[i], names[j]);
    }
  }

  lemma StrictIsDistinct(names: seq<string>)
    ensures StrictlySorted(names) ==> Distinct(names)
  {
    if StrictlySorted(names) {
      forall i, j | 0 <= i < j < |names| ensures names[i] != names[j] {
        LessIrreflexive(names[i]);
      }
    }
  }

  // ------------------------------------------------------------- structure

  ghost predicate Has(ds: seq<FrozenDirectory>, path: string) {
    exists d :: d in ds && d.path == path
  }

  /** Some recorded directory has a child folder with this path. */
  ghost predicate NamedIn(ds: seq<FrozenDirectory>, path: string) {
    exists d, name: string :: d in ds && Child(name, Folder) in d.children && path == ChildPath(d.path, name)
  }

  ghost predicate DownClosed(ds: seq<FrozenDirectory>) {
    forall d, name: string :: d in ds && Child(name, Folder) in d.children ==> Has(ds, ChildPath(d.path, name))
  }

  ghost predicate UpClosed(ds: seq<FrozenDirectory>, top: string) {
    forall d :: d in ds ==> d.path == top || NamedIn(ds, d.path)
  }

  /** The children are safe, sorted, free of duplicates and of excluded names, and the directory is not too deep. */
  ghost predicate Tidy(d: FrozenDirectory, excluded: set<string>, maxDepth: nat) {
    && StrictlySorted(NamesOf(d.children)) && Depth(d.path) <= maxDepth
    && forall c :: c in d.children ==> SafeName(c.name) && c.name !in excluded
  }

  ghost predicate AllTidy(ds: seq<FrozenDirectory>, excluded: set<string>, maxDepth: nat) {
    forall d :: d in ds ==> Tidy(d, excluded, maxDepth)
  }

  ghost predicate DistinctPaths(ds: seq<FrozenDirectory>) {
    forall i, j :: 0 <= i < j < |ds| ==> ds[i].path != ds[j].path
  }

  ghost predicate AllUnder(ds: seq<FrozenDirectory>, top: string) {
    forall d :: d in ds ==> Under(top, d.path)
  }

  /** Everything below `top`, `top` first, each directory once. */
  ghost predicate Complete(ds: seq<FrozenDirectory>, top: string) {
    && ds != [] && ds[0].path == top
    && UpClosed(ds, top) && DownClosed(ds) && DistinctPaths(ds) && AllUnder(ds, top)
  }

  ghost predicate UnderEarlier(self: FrozenDirectory, i: nat, path: string) {
    exists j: nat :: j < i && j < |self.children| && Under(ChildPath(self.path, self.children[j].name), path)
  }

  ghost predicate FirstChildrenIn(rest: seq<FrozenDirectory>, self: FrozenDirectory, i: nat) {
    forall j :: 0 <= j < i && j < |self.children| && self.children[j].kind.Folder? ==>
      Has(rest, ChildPath(self.path, self.children[j].name))
  }

  /** Everything below the first `i` children of `self`. */
  ghost predicate Below(rest: seq<FrozenDirectory>, self: FrozenDirectory, i: nat) {
    && FirstChildrenIn(rest, self, i) && DownClosed(rest) && DistinctPaths(rest)
    && (forall d :: d in rest ==> NamedIn([self] + rest, d.path))
    && (forall d :: d in rest ==> UnderEarlier(self, i, d.path))
  }

  lemma HasMore(ds: seq<FrozenDirectory>, more: seq<FrozenDirectory>, path: string)
    requires Has(ds, path) && forall d :: d in ds ==> d in more
    ensures Has(more, path)
  {
  }

  lemma NamedMore(ds: seq<FrozenDirectory>, more: seq<FrozenDirectory>, path: string)
    requires NamedIn(ds, path) && forall d :: d in ds ==> d in more
    ensures NamedIn(more, path)
  {
  }

  lemma DownClosedJoins(a: seq<FrozenDirectory>, b: seq<FrozenDirectory>)
    requires DownClosed(a) && DownClosed(b)
    ensures DownClosed(a + b)
  {
    forall d, name: string | d in a + b && Child(name, Folder) in d.children
      ensures Has(a + b, ChildPath(d.path, name))
    {
      if d in a {
        HasMore(a, a + b, ChildPath(d.path, name));
      } else {
        HasMore(b, a + b, ChildPath(d.path, name));
      }
    }
  }

  /** A later child's directories have none of the earlier children's paths. */
  lemma PathsApart(self: FrozenDirectory, i: nat, a: FrozenDirectory, b: FrozenDirectory)
    requires i < |self.children| && StrictlySorted(NamesOf(self.children))
    requires forall c :: c in self.children ==> SafeName(c.name)
    requires UnderEarlier(self, i, a.path) && Under(ChildPath(self.path, self.children[i].name), b.path)
    ensures a.path != b.path
  {
    var j: nat :| j < i && j < |self.children| && Under(ChildPath(self.path, self.children[j].name), a.path);
    var x, y := self.children[j].name, self.children[i].name;
    assert self.children[j] in self.children && self.children[i] in self.children;
    assert NamesOf(self.children)[j] == x && NamesOf(self.children)[i] == y && Less(x, y);
    LessIrreflexive(x);
    if a.path == b.path {
      if |x| <= |y| { SameSibling(self.path, x, y, b.path); } else { SameSibling(self.path, y, x, b.path); }
    }
  }

  ghost predicate WellNamed(children: seq<Child>) {
    StrictlySorted(NamesOf(children)) && forall c :: c in children ==> SafeName(c.name)
  }

  lemma BelowGrows(rest: seq<FrozenDirectory>, self: FrozenDirectory, i: nat, sub: seq<FrozenDirectory>)
    requires Below(rest, self, i) && i < |self.children| && WellNamed(self.children)
    requires self.children[i].kind.Folder? && Complete(sub, ChildPath(self.path, self.children[i].name))
    ensures Below(rest + sub, self, i + 1)
  {
    var more, top := rest + sub, ChildPath(self.path, self.children[i].name);
    DownClosedJoins(rest, sub);
    assert Has(more, top) by { assert sub[0] in more; }
    forall j | 0 <= j < i + 1 && j < |self.children| && self.children[j].kind.Folder?
      ensures Has(more, ChildPath(self.path, self.children[j].name))
    {
      if j < i { HasMore(rest, more, ChildPath(self.path, self.children[j].name)); }
    }
    assert self.children[i] == Child(self.children[i].name, Folder) && self.children[i] in self.children;
    forall d | d in more ensures NamedIn([self] + more, d.path) && UnderEarlier(self, i + 1, d.path) {
      if d in rest {
        NamedMore([self] + rest, [self] + more, d.path);
        var j: nat :| j < i && j < |self.children| && Under(ChildPath(self.path, self.children[j].name), d.path);
      } else if d.path == top {
        assert self in [self] + more;
      } else {
        NamedMore(sub, [self] + more, d.path);
      }
    }
    forall x, y | 0 <= x < y < |more| ensures more[x].path != more[y].path {
      if x < |rest| <= y {
        assert more[x] in rest && more[y] in sub;
        PathsApart(self, i, more[x], more[y]);
      }
    }
  }

  lemma BelowSkips(rest: seq<FrozenDirectory>, self: FrozenDirectory, i: nat)
    requires Below(rest, self, i) && i < |self.children| && !self.children[i].kind.Folder?
    ensures Below(rest, self, i + 1)
  {
    forall d | d in rest ensures UnderEarlier(self, i + 1, d.path) {
      var j: nat :| j < i && j < |self.children| && Under(ChildPath(self.path, self.children[j].name), d.path);
    }
  }

  lemma StrictlyBelow(rest: seq<FrozenDirectory>, self: FrozenDirectory, i: nat, d: FrozenDirectory)
    requires Below(rest, self, i) && d in rest && forall c :: c in self.children ==> SafeName(c.name)
    ensures Under(self.path, d.path) && d.path != self.path
  {
    assert UnderEarlier(self, i, d.path);
    var j: nat :| j < i && j < |self.children| && Under(ChildPath(self.path, self.children[j].name), d.path);
    assert self.children[j] in self.children;
    ChildIsUnder(self.path, self.children[j].name, d.path);
  }

  lemma DistinctWithFirst(rest: seq<FrozenDirectory>, self: FrozenDirectory)
    requires DistinctPaths(rest) && forall d :: d in rest ==> d.path != self.path
    ensures DistinctPaths([self] + rest)
  {
  }

  lemma DownClosedWithFirst(rest: seq<FrozenDirectory>, self: FrozenDirectory)
    requires DownClosed(rest) && FirstChildrenIn(rest, self, |self.children|)
    ensures DownClosed([self] + rest)
  {
    var ds := [self] + rest;
    forall d, name: string | d in ds && Child(name, Folder) in d.children ensures Has(ds, ChildPath(d.path, name)) {
      if d in rest {
        HasMore(rest, ds, ChildPath(d.path, name));
      } else {
        var j :| 0 <= j < |self.children| && self.children[j] == Child(name, Folder);
        HasMore(rest, ds, ChildPath(self.path, self.children[j].name));
      }
    }
  }

  /** With all its children visited a directory is complete. */
  lemma BelowCompletes(rest: seq<FrozenDirectory>, self: FrozenDirectory)
    requires Below(rest, self, |self.children|)
    requires forall c :: c in self.children ==> SafeName(c.name)
    ensures Complete([self] + rest, self.path)
  {
    forall d | d in rest ensures Under(self.path, d.path) && d.path != self.path {
      StrictlyBelow(rest, self, |self.children|, d);
    }
    DistinctWithFirst(rest, self);
    DownClosedWithFirst(rest, self);
  }

  // ---------------------------------------------------------------- the freeze

  lemma {:induction false} LastChild(path: string, s: seq<Admitted>, e: Admitted)
    ensures NameBytes(ChildrenOf(s + [e])) == NameBytes(ChildrenOf(s)) + Utf8Length(e.child.name)
    ensures (StructureBytes(path, ChildrenOf(s + [e]))
             == StructureBytes(path, ChildrenOf(s)) + Utf8Length(ChildPath(path, e.child.name)) + 16)
  {
    if s == [] {
      FirstChild(path, e, []);
      assert [] + [e] == [e] + [];
    } else {
      LastChild(path, s[1..], e);
      FirstChild(path, s[0], s[1..]);
      FirstChild(path, s[0], s[1..] + [e]);
      assert s == [s[0]] + s[1..] && s + [e] == [s[0]] + (s[1..] + [e]);
    }
  }

  /** The directories below one another as a visit meets them: one tree for each folder among the children, in order. */
  datatype Tree = Tree(dir: FrozenDirectory, below: Forest)

  datatype Forest = Empty | Skip(front: Forest) | Grow(front: Forest, last: Tree)

  function Flatten(t: Tree): seq<FrozenDirectory> {
    [t.dir] + FlattenAll(t.below)
  }

  function FlattenAll(f: Forest): seq<FrozenDirectory> {
    match f
    case Empty => []
    case Skip(front) => FlattenAll(front)
    case Grow(front, last) => FlattenAll(front) + Flatten(last)
  }

  ghost function Width(f: Forest): nat {
    match f
    case Empty => 0
    case Skip(front) => Width(front) + 1
    case Grow(front, _) => Width(front) + 1
  }

  ghost predicate Grown(t: Tree, path: string, excluded: set<string>, maxDepth: nat) {
    && t.dir.path == path && Tidy(t.dir, excluded, maxDepth)
    && Width(t.below) == |t.dir.children| && GrownAll(t.below, t.dir, excluded, maxDepth)
  }

  ghost predicate GrownAll(f: Forest, self: FrozenDirectory, excluded: set<string>, maxDepth: nat) {
    match f
    case Empty => true
    case Skip(front) =>
      && Width(front) < |self.children| && !self.children[Width(front)].kind.Folder?
      && GrownAll(front, self, excluded, maxDepth)
    case Grow(front, last) =>
      && Width(front) < |self.children| && self.children[Width(front)].kind.Folder?
      && Grown(last, ChildPath(self.path, self.children[Width(front)].name), excluded, maxDepth)
      && GrownAll(front, self, excluded, maxDepth)
  }

  /** A full tree, listed, is closed in both directions. */
  lemma {:induction false} GrownIsComplete(t: Tree, path: string, excluded: set<string>, maxDepth: nat)
    requires Grown(t, path, excluded, maxDepth)
    ensures Complete(Flatten(t), path)
  {
    GrownIsBelow(t.below, t.dir, excluded, maxDepth);
    BelowCompletes(FlattenAll(t.below), t.dir);
  }

  lemma {:induction false} GrownIsBelow(f: Forest, self: FrozenDirectory, excluded: set<string>, maxDepth: nat)
    requires WellNamed(self.children) && GrownAll(f, self, excluded, maxDepth)
    ensures Below(FlattenAll(f), self, Width(f))
  {
    match f
    case Empty =>
    case Skip(front) =>
      GrownIsBelow(front, self, excluded, maxDepth);
      BelowSkips(FlattenAll(front), self, Width(front));
    case Grow(front, last) =>
      var rest, sub, i := FlattenAll(front), Flatten(last), Width(front);
      GrownIsBelow(front, self, excluded, maxDepth);
      GrownIsComplete(last, ChildPath(self.path, self.children[i].name), excluded, maxDepth);
      BelowGrows(rest, self, i, sub);
  }

  lemma {:induction false} GrownIsTidy(t: Tree, path: string, excluded: set<string>, maxDepth: nat)
    requires Grown(t, path, excluded, maxDepth)
    ensures AllTidy(Flatten(t), excluded, maxDepth)
  {
    ForestIsTidy(t.below, t.dir, excluded, maxDepth);
    TidyJoins([t.dir], FlattenAll(t.below), excluded, maxDepth);
  }

  lemma {:induction false} ForestIsTidy(f: Forest, self: FrozenDirectory, excluded: set<string>, maxDepth: nat)
    requires GrownAll(f, self, excluded, maxDepth)
    ensures AllTidy(FlattenAll(f), excluded, maxDepth)
  {
    match f
    case Empty =>
    case Skip(front) =>
      ForestIsTidy(front, self, excluded, maxDepth);
    case Grow(front, last) =>
      ForestIsTidy(front, self, excluded, maxDepth);
      GrownIsTidy(last, ChildPath(self.path, self.children[Width(front)].name), excluded, maxDepth);
      TidyJoins(FlattenAll(front), Flatten(last), excluded, maxDepth);
  }

  lemma TidyJoins(a: seq<FrozenDirectory>, b: seq<FrozenDirectory>, excluded: set<string>, maxDepth: nat)
    requires AllTidy(a, excluded, maxDepth) && AllTidy(b, excluded, maxDepth)
    ensures AllTidy(a + b, excluded, maxDepth)
  {
  }

  // ------------------------------------------------------------ what was seen

  /** The entries a scan keeps. */
  ghost function Kept(entries: seq<Scanned>, excluded: set<string>): seq<Admitted> {
    if entries == [] then []
    else
      var front, last := Kept(entries[..|entries| - 1], excluded), entries[|entries| - 1];
      if last.name in excluded then front else front + [Admitted(Child(last.name, last.kind), last.identity)]
  }

  /** A stable scan of this very directory showed exactly these children and the excluded ones. */
  ghost predicate Lists(scan: Scan, excluded: set<string>, d: FrozenDirectory) {
    && scan.isFolder && scan.stable
    && (forall c :: c in d.children <==> InScan(scan.entries, excluded, c))
  }

  ghost predicate InScan(entries: seq<Scanned>, excluded: set<string>, c: Child) {
    exists s :: s in entries && s.name !in excluded && c == Child(s.name, s.kind)
  }

  ghost predicate ScannedAs(world: World, excluded: set<string>, d: FrozenDirectory) {
    exists t: nat :: Lists(world.scan(t, d.identity), excluded, d)
  }

  ghost predicate OpenedAs(world: World, parent: nat, name: string, identity: nat) {
    exists t: nat :: world.open(t, parent, name) == Some(identity)
  }

  /** A recorded directory was opened by name from another recorded one. */
  ghost predicate OpenedIn(world: World, ds: seq<FrozenDirectory>, d: FrozenDirectory) {
    exists e, name: string ::
      e in ds && d.path == ChildPath(e.path, name) && OpenedAs(world, e.identity, name, d.identity)
  }

  lemma {:induction false} KeptMembers(entries: seq<Scanned>, excluded: set<string>, c: Child)
    ensures InScan(entries, excluded, c) <==> exists a :: a in Kept(entries, excluded) && a.child == c
  {
    if entries != [] {
      var n := |entries| - 1;
      var init, last := entries[..n], entries[n];
      KeptMembers(init, excluded, c);
      assert entries == init + [last];
      assert InScan(entries, excluded, c) <==>
               InScan(init, excluded, c) || (last.name !in excluded && c == Child(last.name, last.kind));
      if last.name !in excluded {
        var kept := Admitted(Child(last.name, last.kind), last.identity);
        assert Kept(entries, excluded) == Kept(init, excluded) + [kept];
      }
    }
  }

  lemma ChildrenAre(sorted: seq<Admitted>, c: Child)
    ensures c in ChildrenOf(sorted) <==> exists a :: a in sorted && a.child == c
  {
    var children := ChildrenOf(sorted);
    if c in children {
      var k :| 0 <= k < |children| && children[k] == c;
      assert sorted[k] in sorted && sorted[k].child == c;
    }
    if a :| a in sorted && a.child == c {
      var k :| 0 <= k < |sorted| && sorted[k] == a;
      assert children[k] == c;
    }
  }

  lemma SortedListing(path: string, entries: seq<Scanned>, excluded: set<string>, c: Child)
    ensures c in ChildrenOf(SortByName(Kept(entries, excluded))) <==> InScan(entries, excluded, c)
  {
    var kept := Kept(entries, excluded);
    SortByNameSorts(path, kept);
    ChildrenAre(SortByName(kept), c);
    KeptMembers(entries, excluded, c);
  }

  lemma ListingIsExact(world: World, excluded: set<string>, d: FrozenDirectory, t: nat)
    requires var scan := world.scan(t, d.identity);
      scan.isFolder && scan.stable && d.children == ChildrenOf(SortByName(Kept(scan.entries, excluded)))
    ensures ScannedAs(world, excluded, d)
  {
    var scan := world.scan(t, d.identity);
    forall c ensures c in d.children <==> InScan(scan.entries, excluded, c) {
      SortedListing(d.path, scan.entries, excluded, c);
    }
    assert Lists(scan, excluded, d);
  }

  /** Every directory of the tree was scanned, and opened from the one above it. */
  ghost predicate Witnessed(t: Tree, world: World, excluded: set<string>) {
    ScannedAs(world, excluded, t.dir) && WitnessedAll(t.below, t.dir, world, excluded)
  }

  ghost predicate WitnessedAll(f: Forest, self: FrozenDirectory, world: World, excluded: set<string>) {
    match f
    case Empty => true
    case Skip(front) => WitnessedAll(front, self, world, excluded)
    case Grow(front, last) =>
      && Width(front) < |self.children|
      && OpenedAs(world, self.identity, self.children[Width(front)].name, last.dir.identity)
      && Witnessed(last, world, excluded) && WitnessedAll(front, self, world, excluded)
  }

  lemma {:induction false} WitnessedMeans(t: Tree, path: string, world: World, excluded: set<string>, maxDepth: nat,
                                          d: FrozenDirectory)
    requires Grown(t, path, excluded, maxDepth) && Witnessed(t, world, excluded) && d in Flatten(t)
    ensures ScannedAs(world, excluded, d) && (d == t.dir || OpenedIn(world, Flatten(t), d))
  {
    if d != t.dir {
      WitnessedForest(t.below, t.dir, world, excluded, maxDepth, d);
    }
  }

  lemma {:induction false} WitnessedForest(f: Forest, self: FrozenDirectory, world: World, excluded: set<string>,
                                           maxDepth: nat, d: FrozenDirectory)
    requires GrownAll(f, self, excluded, maxDepth) && WitnessedAll(f, self, world, excluded) && d in FlattenAll(f)
    ensures ScannedAs(world, excluded, d) && OpenedIn(world, [self] + FlattenAll(f), d)
  {
    match f
    case Empty =>
    case Skip(front) =>
      WitnessedForest(front, self, world, excluded, maxDepth, d);
    case Grow(front, last) =>
      var all := [self] + FlattenAll(f);
      var name := self.children[Width(front)].name;
      if d in FlattenAll(front) {
        WitnessedForest(front, self, world, excluded, maxDepth, d);
        OpenedMore(world, [self] + FlattenAll(front), all, d);
      } else {
        WitnessedMeans(last, ChildPath(self.path, name), world, excluded, maxDepth, d);
        if d == last.dir {
          assert self in all;
        } else {
          OpenedMore(world, Flatten(last), all, d);
        }
      }
  }

  lemma OpenedMore(world: World, ds: seq<FrozenDirectory>, more: seq<FrozenDirectory>, d: FrozenDirectory)
    requires OpenedIn(world, ds, d) && forall e :: e in ds ==> e in more
    ensures OpenedIn(world, more, d)
  {
  }

  // ------------------------------------------------------ a tree that keeps still

  ghost predicate Still(world: World) {
    && (forall t: nat, identity: nat :: world.scan(t, identity) == world.scan(0, identity))
    && (forall t: nat, parent: nat, name: string :: world.open(t, parent, name) == world.open(0, parent, name))
  }

  /** Nothing in the scan keeps it from being recorded but the budgets. */
  ghost predicate Readable(scan: Scan, excluded: set<string>) {
    && scan.isFolder && scan.stable && Legible(scan.entries, excluded)
    && StrictlySorted(NamesOf(ChildrenOf(Listed(scan, excluded))))
  }

  ghost predicate Legible(entries: seq<Scanned>, excluded: set<string>) {
    forall e :: e in entries ==>
      && e.name != "" && e.name != "." && e.name != ".." && '/' !in e.name && '\0' !in e.name
      && e.encodable && (e.stated || e.name in excluded)
  }

  ghost function Listed(scan: Scan, excluded: set<string>): seq<Admitted> {
    SortByName(Kept(scan.entries, excluded))
  }

  ghost function Listing(path: string, identity: nat, scan: Scan, excluded: set<string>): FrozenDirectory {
    FrozenDirectory(path, identity, ChildrenOf(Listed(scan, excluded)))
  }

  /** The tree that a world which keeps still has at `path`, all of it readable and not too deep. */
  ghost predicate TreeAt(t: Tree, path: string, identity: nat, world: World, excluded: set<string>, maxDepth: nat)
    decreases t, 0
  {
    var scan := world.scan(0, identity);
    && Depth(path) <= maxDepth && Readable(scan, excluded) && t.dir == Listing(path, identity, scan, excluded)
    && Width(t.below) == |t.dir.children| && ForestAt(t.below, t.dir, Listed(scan, excluded), world, excluded, maxDepth)
  }

  ghost predicate ForestAt(f: Forest, self: FrozenDirectory, sorted: seq<Admitted>, world: World, excluded: set<string>,
                           maxDepth: nat)
    decreases f, 0
  {
    match f
    case Empty => true
    case Skip(front) =>
      && Width(front) < |sorted| && !sorted[Width(front)].child.kind.Folder?
      && ForestAt(front, self, sorted, world, excluded, maxDepth)
    case Grow(front, last) =>
      && Width(front) < |sorted| && ChildAt(last, self, sorted[Width(front)], world, excluded, maxDepth)
      && ForestAt(front, self, sorted, world, excluded, maxDepth)
  }

  ghost predicate ChildAt(t: Tree, self: FrozenDirectory, e: Admitted, world: World, excluded: set<string>,
                          maxDepth: nat)
    decreases t, 1
  {
    && e.child.kind.Folder? && world.open(0, self.identity, e.child.name) == Some(e.identity)
    && TreeAt(t, ChildPath(self.path, e.child.name), e.identity, world, excluded, maxDepth)
  }

  /** There is at most one such tree. */
  lemma {:induction false} OneTree(t: Tree, u: Tree, path: string, identity: nat, world: World, excluded: set<string>,
                                   maxDepth: nat)
    requires TreeAt(t, path, identity, world, excluded, maxDepth)
             && TreeAt(u, path, identity, world, excluded, maxDepth)
    ensures t == u
  {
    OneForest(t.below, u.below, t.dir, Listed(world.scan(0, identity), excluded), world, excluded, maxDepth);
  }

  lemma {:induction false} OneForest(f: Forest, g: Forest, self: FrozenDirectory, sorted: seq<Admitted>,
                                     world: World, excluded: set<string>, maxDepth: nat)
    requires ForestAt(f, self, sorted, world, excluded, maxDepth)
             && ForestAt(g, self, sorted, world, excluded, maxDepth)
    requires Width(f) == Width(g)
    ensures f == g
  {
    if !f.Empty? {
      OneForest(f.front, g.front, self, sorted, world, excluded, maxDepth);
      if f.Grow? {
        var e := sorted[Width(f.front)];
        OneTree(f.last, g.last, ChildPath(self.path, e.child.name), e.identity, world, excluded, maxDepth);
      }
    }
  }

  /** The part of a forest that belongs to the first `count` children. */
  ghost function FrontOf(f: Forest, count: nat): Forest {
    if Width(f) <= count then f else FrontOf(f.front, count)
  }

  lemma {:induction false} FrontIsAt(f: Forest, count: nat, self: FrozenDirectory, sorted: seq<Admitted>,
                                     world: World, excluded: set<string>, maxDepth: nat)
    requires ForestAt(f, self, sorted, world, excluded, maxDepth) && count <= Width(f)
    ensures ForestAt(FrontOf(f, count), self, sorted, world, excluded, maxDepth) && Width(FrontOf(f, count)) == count
    ensures FlattenAll(FrontOf(f, count)) <= FlattenAll(f)
  {
    if count < Width(f) {
      FrontIsAt(f.front, count, self, sorted, world, excluded, maxDepth);
    }
  }

  lemma {:induction false} FrontSteps(f: Forest, count: nat)
    requires count < Width(f)
    ensures !FrontOf(f, count + 1).Empty? && FrontOf(f, count + 1).front == FrontOf(f, count)
  {
    if count + 1 < Width(f) {
      FrontSteps(f.front, count);
    }
  }

  lemma PrefixFits(ds: seq<FrozenDirectory>, more: seq<FrozenDirectory>, limits: Limits)
    requires ds <= more && WithinBudgets(more, limits)
    ensures WithinBudgets(ds, limits)
  {
    assert more == ds + more[|ds|..];
    TotalsAdd(ds, more[|ds|..]);
  }

  /** The next tree of the plan fits after what was recorded for the children before. */
  lemma NextFits(before: seq<FrozenDirectory>, plan: Forest, count: nat, self: FrozenDirectory, sorted: seq<Admitted>,
                 world: World, excluded: set<string>, maxDepth: nat, forest: Forest, limits: Limits)
    requires ForestAt(plan, self, sorted, world, excluded, maxDepth) && count < Width(plan)
    requires ForestAt(forest, self, sorted, world, excluded, maxDepth) && Width(forest) == count
    requires WithinBudgets(before + FlattenAll(plan), limits) && sorted[count].child.kind.Folder?
    ensures var next := FrontOf(plan, count + 1);
      && next.Grow? && ChildAt(next.last, self, sorted[count], world, excluded, maxDepth)
      && WithinBudgets(before + FlattenAll(forest) + Flatten(next.last), limits)
  {
    var next := FrontOf(plan, count + 1);
    FrontIsAt(plan, count, self, sorted, world, excluded, maxDepth);
    FrontIsAt(plan, count + 1, self, sorted, world, excluded, maxDepth);
    FrontSteps(plan, count);
    OneForest(forest, FrontOf(plan, count), self, sorted, world, excluded, maxDepth);
    AppendTwice(before, FlattenAll(forest), Flatten(next.last));
    PrefixFits(before + FlattenAll(next), before + FlattenAll(plan), limits);
  }

  lemma PlanStarts(before: seq<FrozenDirectory>, plan: Tree, limits: Limits)
    ensures (WithinBudgets(before + Flatten(plan), limits) ==>
               && |before| < limits.maxDirectories && WithinBudgets(before + [plan.dir], limits)
               && WithinBudgets(before + [plan.dir] + FlattenAll(plan.below), limits))
  {
    if WithinBudgets(before + Flatten(plan), limits) {
      AppendTwice(before, [plan.dir], FlattenAll(plan.below));
      PrefixFits(before + [plan.dir], before + Flatten(plan), limits);
    }
  }

  /** What keeping the entries takes up grows with every one of them. */
  ghost predicate Costs(path: string, a: seq<Admitted>, b: seq<Admitted>) {
    && |a| <= |b| && NameBytes(ChildrenOf(a)) <= NameBytes(ChildrenOf(b))
    && StructureBytes(path, ChildrenOf(a)) <= StructureBytes(path, ChildrenOf(b))
  }

  lemma {:induction false} KeptGrows(path: string, entries: seq<Scanned>, count: nat, excluded: set<string>)
    requires count <= |entries|
    ensures Costs(path, Kept(entries[..count], excluded), Kept(entries, excluded))
    decreases |entries|
  {
    if count == |entries| {
      assert entries[..count] == entries;
    } else {
      var n := |entries| - 1;
      var last := entries[n];
      KeptGrows(path, entries[..n], count, excluded);
      assert entries[..n][..count] == entries[..count];
      LastChild(path, Kept(entries[..n], excluded), Admitted(Child(last.name, last.kind), last.identity));
    }
  }

  lemma KeptTakes(path: string, entries: seq<Scanned>, i: nat, excluded: set<string>)
    requires i < |entries| && entries[i].name !in excluded
    ensures var a, b, name := Kept(entries[..i], excluded), Kept(entries, excluded), entries[i].name;
      && |a| + 1 <= |b| && NameBytes(ChildrenOf(a)) + Utf8Length(name) <= NameBytes(ChildrenOf(b))
      && (StructureBytes(path, ChildrenOf(a)) + Utf8Length(ChildPath(path, name)) + 16
          <= StructureBytes(path, ChildrenOf(b)))
  {
    var e := entries[i];
    assert entries[..i + 1][..i] == entries[..i];
    LastChild(path, Kept(entries[..i], excluded), Admitted(Child(e.name, e.kind), e.identity));
    KeptGrows(path, entries, i + 1, excluded);
  }

  lemma SortedAreSafe(entries: seq<Admitted>, excluded: set<string>)
    requires forall e :: e in entries ==> SafeName(e.child.name) && e.child.name !in excluded
    ensures forall c :: c in ChildrenOf(SortByName(entries)) ==> SafeName(c.name) && c.name !in excluded
  {
    var sorted := SortByName(entries);
    SortByNameSorts("", entries);
    forall c | c in ChildrenOf(sorted) ensures SafeName(c.name) && c.name !in excluded {
      var k :| 0 <= k < |sorted| && ChildrenOf(sorted)[k] == c;
      assert sorted[k] in sorted;
    }
  }

  class Freezer {
    const world: World
    const excluded: set<string>
    const limits: Limits
    const round: Round
    const table: Descriptors<nat>
    var clock: nat
    var directories: seq<FrozenDirectory>

    constructor (world: World, excluded: set<string>, limits: Limits, table: Descriptors<nat>)
      ensures this.world == world && this.excluded == excluded && this.limits == limits && this.table == table
              && directories == []
      ensures fresh(round) && Books(0)
    {
      this.world, this.excluded, this.limits, this.table, clock := world, excluded, limits, table, 0;
      round := new Round(limits);
      directories := [];
    }

    /** A descriptor of this very directory. */
    ghost predicate Holds(fd: nat, identity: nat)
      reads table
    {
      fd in table.held && table.held[fd] == identity
    }

    /** Open a child and see what it is; the new descriptor holds that object. */
    method OpenChild(fd: nat, parent: nat, name: string) returns (r: Option<nat>)
      requires table.Valid() && Holds(fd, parent)
      modifies this`clock, table
      ensures table.Valid() && clock == old(clock) + 1
      ensures r.None? <==> world.open(old(clock), parent, name).None?
      ensures r.None? ==> table.held == old(table.held)
      ensures (r.Some? ==>
                 && r.value !in old(table.held)
                 && table.held == old(table.held)[r.value := world.open(old(clock), parent, name).value])
    {
      var child := world.open(clock, parent, name);
      clock := clock + 1;
      r := None;
      if child.Some? {
        var taken := table.Open(child.value);
        r := Some(taken);
      }
    }

    /** Go through what a scan returned; `None` stands for an unsafe name, a spent budget or a failed call. */
    method Enumerate(path: string, scanned: seq<Scanned>) returns (r: Option<seq<Admitted>>)
      requires round.Within()
      modifies round
      ensures (r.Some? ==>
                 && r.value == Kept(scanned, excluded)
                 && round.Within() && round.directories == old(round.directories)
                 && round.entries == old(round.entries) + |r.value|
                 && round.nameBytes == old(round.nameBytes) + NameBytes(ChildrenOf(r.value))
                 && round.structureBytes == old(round.structureBytes) + StructureBytes(path, ChildrenOf(r.value))
                 && Legible(scanned, excluded)
                 && forall e :: e in r.value ==> SafeName(e.child.name) && e.child.name !in excluded)
      ensures var kept := ChildrenOf(Kept(scanned, excluded));
        (&& Legible(scanned, excluded) && old(round.entries) + |kept| <= round.limits.maxEntries
         && old(round.nameBytes) + NameBytes(kept) <= round.limits.maxNameBytes
         && old(round.structureBytes) + StructureBytes(path, kept) <= round.limits.maxStructureBytes) ==> r.Some?
    {
      var entries: seq<Admitted> := [];
      var i := 0;
      while i < |scanned|
        invariant 0 <= i <= |scanned| && round.Within() && round.directories == old(round.directories)
        invariant round.entries == old(round.entries) + |entries|
        invariant round.nameBytes == old(round.nameBytes) + NameBytes(ChildrenOf(entries))
        invariant round.structureBytes == old(round.structureBytes) + StructureBytes(path, ChildrenOf(entries))
        invariant forall e :: e in entries ==> SafeName(e.child.name) && e.child.name !in excluded
        invariant entries == Kept(scanned[..i], excluded) && Legible(scanned[..i], excluded)
      {
        var entry := scanned[i];
        assert scanned[..i + 1][..i] == scanned[..i];
        i := i + 1;
        if !SafeName(entry.name) || !entry.encodable {
          return None;
        }
        if entry.name in excluded {
          continue;
        }
        KeptTakes(path, scanned, i - 1, excluded);
        var ok := round.AdmitEntry(Utf8Length(entry.name), Utf8Length(ChildPath(path, entry.name)));
        if !ok || !entry.stated {
          return None;
        }
        var kept := Admitted(Child(entry.name, entry.kind), entry.identity);
        LastChild(path, entries, kept);
        entries := entries + [kept];
      }
      assert scanned[..i] == scanned;
      return Some(entries);
    }

    /**
      The counters stand for what is recorded, and for `pending` directories that were entered but
      not recorded yet.
     */
    ghost predicate Books(pending: nat)
      reads this, round
    {
      && round.limits == limits && round.Within() && round.directories == |directories| + pending
      && round.entries == EntriesIn(directories)
      && round.nameBytes == NameBytesIn(directories)
      && round.structureBytes == StructureBytesIn(directories)
    }

    /** List one directory that was entered and record it, with its folders as they were seen. */
    method Record(fd: nat, path: string, identity: nat) returns (ok: bool, self: FrozenDirectory, sorted: seq<Admitted>)
      requires Depth(path) <= limits.maxDepth && Books(1) && Holds(fd, identity)
      modifies this`directories, this`clock, round
      ensures ok ==> Books(0) && directories == old(directories) + [self]
      ensures ok ==> self.path == path && self.children == ChildrenOf(sorted) && Tidy(self, excluded, limits.maxDepth)
      ensures ok ==> self.identity == identity && ScannedAs(world, excluded, self)
      ensures var scan := world.scan(old(clock), identity);
        && (ok ==> Readable(scan, excluded) && sorted == Listed(scan, excluded))
        && (Readable(scan, excluded) ==>
            WithinBudgets(old(directories) + [Listing(path, identity, scan, excluded)], limits) ==> ok)
    {
      self, sorted := FrozenDirectory(path, identity, []), [];
      ghost var now := clock;
      var scan := world.scan(clock, table.held[fd]);
      clock := clock + 1;
      if !scan.isFolder { return false, self, sorted; }
      SortByNameSorts(path, Kept(scan.entries, excluded));
      OneMore(directories, Listing(path, identity, scan, excluded));
      var entries := Enumerate(path, scan.entries);
      if entries.None? { return false, self, sorted; }
      if !scan.stable { return false, self, sorted; }
      sorted := SortByName(entries.value);
      var distinct := CheckNames(path, entries.value);
      if !distinct { return false, self, sorted; }
      self := FrozenDirectory(path, identity, ChildrenOf(sorted));
      ListingIsExact(world, excluded, self, now);
      directories := directories + [self];
      ok := true;
    }

    /** The sorted names must not repeat. */
    method CheckNames(path: string, entries: seq<Admitted>) returns (distinct: bool)
      requires forall e :: e in entries ==> SafeName(e.child.name) && e.child.name !in excluded
      ensures var children := ChildrenOf(SortByName(entries));
        && |children| == |entries| && NameBytes(children) == NameBytes(ChildrenOf(entries))
        && StructureBytes(path, children) == StructureBytes(path, ChildrenOf(entries))
        && (distinct <==> StrictlySorted(NamesOf(children)))
        && (distinct ==>
              forall c :: c in children ==> SafeName(c.name) && c.name !in excluded)
    {
      var sorted := SortByName(entries);
      SortByNameSorts(path, entries);
      var names := NamesOf(ChildrenOf(sorted));
      DistinctIsCount(names);
      distinct := |set name | name in names| == |names|;
      StrictIsDistinct(names);
      if distinct {
        SortedAndDistinct(sorted);
        SortedAreSafe(entries, excluded);
      }
    }

    /** Record the directory at `path` and everything below it. */
    method Visit(fd: nat, path: string, identity: nat, depth: nat, admitted: bool, ghost plan: Tree)
      returns (ok: bool, ghost tree: Tree)
      requires depth == Depth(path) && depth <= limits.maxDepth && Books(if admitted then 1 else 0)
      requires table.Valid() && Holds(fd, identity)
      modifies this, round, table
      ensures table.Valid() && table.held == old(table.held)
      ensures ok ==> directories == old(directories) + Flatten(tree) && Books(0)
      ensures ok ==> Grown(tree, path, excluded, limits.maxDepth)
      ensures ok ==> tree.dir.identity == identity && Witnessed(tree, world, excluded)
      ensures ok && Still(world) ==> TreeAt(tree, path, identity, world, excluded, limits.maxDepth)
      ensures (&& Still(world) && TreeAt(plan, path, identity, world, excluded, limits.maxDepth)
               && WithinBudgets(old(directories) + Flatten(plan), limits)) ==> ok
      decreases limits.maxDepth - depth, 1
    {
      tree := Tree(FrozenDirectory(path, 0, []), Empty);
      PlanStarts(directories, plan, limits);
      if !admitted {
        var entered := round.EnterDirectory(depth);
        if !entered { return false, tree; }
      }
      var recorded, self, sorted := Record(fd, path, identity);
      if !recorded { return false, tree; }
      ghost var forest;
      ok, forest := VisitChildren(fd, self, sorted, depth, plan.below);
      tree := Tree(self, forest);
      AppendTwice(old(directories), [self], FlattenAll(forest));
    }

    /** Where nothing changes, the whole plan for the folders among the sorted entries fits into the budgets. */
    ghost predicate Fits(before: seq<FrozenDirectory>, plan: Forest, self: FrozenDirectory, sorted: seq<Admitted>) {
      && Still(world) && Width(plan) == |sorted| && ForestAt(plan, self, sorted, world, excluded, limits.maxDepth)
      && WithinBudgets(before + FlattenAll(plan), limits)
    }

    /** Descend into the folders among the sorted entries, one after the other. */
    method VisitChildren(fd: nat, self: FrozenDirectory, sorted: seq<Admitted>, depth: nat, ghost plan: Forest)
      returns (ok: bool, ghost forest: Forest)
      requires depth == Depth(self.path) && depth <= limits.maxDepth && self.children == ChildrenOf(sorted)
      requires (forall c :: c in self.children ==> SafeName(c.name)) && Books(0)
      requires table.Valid() && Holds(fd, self.identity)
      modifies this, round, table
      ensures table.Valid() && table.held == old(table.held)
      ensures ok ==> directories == old(directories) + FlattenAll(forest) && Books(0)
      ensures ok ==> Width(forest) == |self.children| && GrownAll(forest, self, excluded, limits.maxDepth)
      ensures ok ==> WitnessedAll(forest, self, world, excluded)
      ensures ok && Still(world) ==> ForestAt(forest, self, sorted, world, excluded, limits.maxDepth)
      ensures Fits(old(directories), plan, self, sorted) ==> ok
      decreases limits.maxDepth - depth, 0
    {
      forest := Empty;
      var i := 0;
      while i < |sorted|
        invariant 0 <= i <= |sorted| && table.Valid() && table.held == old(table.held)
        invariant directories == old(directories) + FlattenAll(forest) && Books(0)
        invariant Width(forest) == i && GrownAll(forest, self, excluded, limits.maxDepth)
        invariant WitnessedAll(forest, self, world, excluded)
        invariant Still(world) ==> ForestAt(forest, self, sorted, world, excluded, limits.maxDepth)
      {
        var child := sorted[i].child;
        assert self.children[i] == child;
        if child.kind.Folder? {
          ghost var next := FrontOf(plan, i + 1);
          if Fits(old(directories), plan, self, sorted) {
            NextFits(old(directories), plan, i, self, sorted, world, excluded, limits.maxDepth, forest, limits);
            ChildIsDeeper(self.path, child.name);
          }
          if depth >= limits.maxDepth { return false, forest; }
          ghost var tree;
          ok, tree := VisitChild(fd, self, sorted[i], depth, if next.Grow? then next.last else Tree(self, Empty));
          if !ok { return false, forest; }
          AppendTwice(old(directories), FlattenAll(forest), Flatten(tree));
          forest := Grow(forest, tree);
        } else {
          forest := Skip(forest);
        }
        i := i + 1;
      }
      ok := true;
    }

    /** Open a child folder, make sure that it is the one that was listed, visit it and close it again. */
    method VisitChild(fd: nat, self: FrozenDirectory, entry: Admitted, depth: nat, ghost plan: Tree)
      returns (ok: bool, ghost tree: Tree)
      requires depth == Depth(self.path) && depth < limits.maxDepth && SafeName(entry.child.name) && Books(0)
      requires entry.child.kind.Folder? && table.Valid() && Holds(fd, self.identity)
      modifies this, round, table
      ensures table.Valid() && table.held == old(table.held)
      ensures ok ==> directories == old(directories) + Flatten(tree) && Books(0)
      ensures ok ==> Grown(tree, ChildPath(self.path, entry.child.name), excluded, limits.maxDepth)
      ensures ok ==> tree.dir.identity == entry.identity && Witnessed(tree, world, excluded)
      ensures ok ==> OpenedAs(world, self.identity, entry.child.name, entry.identity)
      ensures ok && Still(world) ==> ChildAt(tree, self, entry, world, excluded, limits.maxDepth)
      ensures (&& Still(world) && ChildAt(plan, self, entry, world, excluded, limits.maxDepth)
               && WithinBudgets(old(directories) + Flatten(plan), limits)) ==> ok
      decreases limits.maxDepth - depth, 0, 0
    {
      tree := Tree(FrozenDirectory(self.path, 0, []), Empty);
      PlanStarts(directories, plan, limits);
      ok := round.EnterDirectory(depth + 1);
      if !ok { return false, tree; }
      var child := OpenChild(fd, self.identity, entry.child.name);
      if child.None? { return false, tree; }
      ok := table.held[child.value] == entry.identity;
      if ok {
        ChildIsDeeper(self.path, entry.child.name);
        ok, tree := Visit(child.value, ChildPath(self.path, entry.child.name), entry.identity, depth + 1, true, plan);
      }
      table.Close(child.value);
    }
  }

  // -------------------------------------------------------- the frozen result

  /** The sorting key: the root first, then by path. */
  predicate KeyBefore(a: FrozenDirectory, b: FrozenDirectory) {
    (a.path == "" && b.path != "") || ((a.path == "" <==> b.path == "") && Less(a.path, b.path))
  }

  function InsertDirectory(d: FrozenDirectory, s: seq<FrozenDirectory>): seq<FrozenDirectory> {
    if s == [] || !KeyBefore(s[0], d) then [d] + s else [s[0]] + InsertDirectory(d, s[1..])
  }

  function SortDirectories(s: seq<FrozenDirectory>): seq<FrozenDirectory> {
    if s == [] then [] else InsertDirectory(s[0], SortDirectories(s[1..]))
  }

  ghost predicate InPathOrder(ds: seq<FrozenDirectory>) {
    forall i, j :: 0 <= i < j < |ds| ==> Less(ds[i].path, ds[j].path)
  }

  lemma {:induction false} InsertDirectorySorts(d: FrozenDirectory, s: seq<FrozenDirectory>)
    requires InPathOrder(s) && forall x :: x in s ==> x.path != d.path
    ensures InPathOrder(InsertDirectory(d, s)) && |InsertDirectory(d, s)| == |s| + 1
    ensures forall x :: x in InsertDirectory(d, s) <==> x == d || x in s
  {
    if s != [] {
      LessTotal(d.path, s[0].path);
      assert s[0] in s;
    }
    if s == [] || !KeyBefore(s[0], d) {
      forall j | 0 <= j < |s| ensures Less(d.path, s[j].path) {
        if j > 0 { LessTransitive(d.path, s[0].path, s[j].path); }
      }
    } else {
      InsertDirectorySorts(d, s[1..]);
      var rest := InsertDirectory(d, s[1..]);
      assert forall x :: x in s <==> x == s[0] || x in s[1..];
      forall j | 0 <= j < |rest| ensures Less(s[0].path, rest[j].path) {
        assert rest[j] == d || rest[j] in s[1..];
      }
    }
  }

  /** Sorting loses nothing, and with distinct paths the order is strict. */
  lemma {:induction false} SortDirectoriesSorts(s: seq<FrozenDirectory>)
    requires DistinctPaths(s)
    ensures InPathOrder(SortDirectories(s)) && |SortDirectories(s)| == |s|
    ensures forall x :: x in SortDirectories(s) <==> x in s
  {
    if s != [] {
      SortDirectoriesSorts(s[1..]);
      forall x | x in SortDirectories(s[1..]) ensures x.path != s[0].path {
        var k :| 0 <= k < |s[1..]| && s[1..][k] == x;
        assert s[k + 1] == x;
      }
      InsertDirectorySorts(s[0], SortDirectories(s[1..]));
      assert forall x :: x in s <==> x == s[0] || x in s[1..];
    }
  }

  ghost predicate SameTotals(a: seq<FrozenDirectory>, b: seq<FrozenDirectory>) {
    && |a| == |b| && EntriesIn(a) == EntriesIn(b)
    && NameBytesIn(a) == NameBytesIn(b) && StructureBytesIn(a) == StructureBytesIn(b)
  }

  lemma {:induction false} TotalsAdd(a: seq<FrozenDirectory>, b: seq<FrozenDirectory>)
    ensures EntriesIn(a + b) == EntriesIn(a) + EntriesIn(b)
    ensures NameBytesIn(a + b) == NameBytesIn(a) + NameBytesIn(b)
    ensures StructureBytesIn(a + b) == StructureBytesIn(a) + StructureBytesIn(b)
    decreases |b|
  {
    if b == [] {
      assert a + b == a;
    } else {
      var n := |b| - 1;
      TotalsAdd(a, b[..n]);
      OneMore(a + b[..n], b[n]);
      AppendTwice(a, b[..n], [b[n]]);
      assert b == b[..n] + [b[n]];
    }
  }

  lemma {:induction false} InsertDirectoryTotals(d: FrozenDirectory, s: seq<FrozenDirectory>)
    ensures SameTotals(InsertDirectory(d, s), [d] + s)
  {
    if s != [] && KeyBefore(s[0], d) {
      var rest := s[1..];
      InsertDirectoryTotals(d, rest);
      assert s == [s[0]] + rest;
      TotalsAdd([s[0]], InsertDirectory(d, rest));
      TotalsAdd([s[0]], rest);
      TotalsAdd([d], rest);
      TotalsAdd([d], s);
    }
  }

  lemma {:induction false} SortDirectoriesTotals(s: seq<FrozenDirectory>)
    ensures SameTotals(SortDirectories(s), s)
  {
    if s != [] {
      var rest := s[1..];
      SortDirectoriesTotals(rest);
      InsertDirectoryTotals(s[0], SortDirectories(rest));
      TotalsAdd([s[0]], SortDirectories(rest));
      TotalsAdd([s[0]], rest);
      assert s == [s[0]] + rest;
    }
  }

  /** Each directory lists what a scan of it showed, and each but the root was opened from a recorded one. */
  ghost predicate TrueToWorld(ds: seq<FrozenDirectory>, world: World, excluded: set<string>) {
    && (forall d :: d in ds ==> ScannedAs(world, excluded, d))
    && (forall d :: d in ds ==> if d.path == "" then d.identity == world.root else OpenedIn(world, ds, d))
  }

  /** What a frozen structure promises: closed both ways, each directory once, tidy, in order, within every budget. */
  ghost predicate FrozenStructure(ds: seq<FrozenDirectory>, excluded: set<string>, limits: Limits) {
    && ds != [] && ds[0].path == "" && InPathOrder(ds)
    && UpClosed(ds, "") && DownClosed(ds)
    && AllTidy(ds, excluded, limits.maxDepth) && WithinBudgets(ds, limits)
  }

  lemma SortedIsFrozen(ds: seq<FrozenDirectory>, excluded: set<string>, limits: Limits)
    requires Complete(ds, "") && AllTidy(ds, excluded, limits.maxDepth) && WithinBudgets(ds, limits)
    ensures FrozenStructure(SortDirectories(ds), excluded, limits)
  {
    var sorted := SortDirectories(ds);
    SortDirectoriesSorts(ds);
    SortDirectoriesTotals(ds);
    forall d | d in sorted ensures d.path == "" || NamedIn(sorted, d.path) {
      if d.path != "" { NamedMore(ds, sorted, d.path); }
    }
    forall d, name: string | d in sorted && Child(name, Folder) in d.children
      ensures Has(sorted, ChildPath(d.path, name))
    {
      HasMore(ds, sorted, ChildPath(d.path, name));
    }
    assert ds[0] in sorted;
    var k :| 0 <= k < |sorted| && sorted[k].path == "";
    assert !Less(sorted[0].path, sorted[k].path);
  }

  lemma OnePath(ds: seq<FrozenDirectory>, d: FrozenDirectory)
    requires DistinctPaths(ds) && d in ds && d.path == ds[0].path
    ensures d == ds[0]
  {
    assert forall i :: 0 < i < |ds| ==> ds[i].path != ds[0].path;
  }

  lemma SortedIsTrue(t: Tree, world: World, excluded: set<string>, maxDepth: nat)
    requires Grown(t, "", excluded, maxDepth) && Witnessed(t, world, excluded) && t.dir.identity == world.root
    requires Complete(Flatten(t), "")
    ensures TrueToWorld(SortDirectories(Flatten(t)), world, excluded)
  {
    var ds := Flatten(t);
    var sorted := SortDirectories(ds);
    SortDirectoriesSorts(ds);
    forall d | d in sorted
      ensures ScannedAs(world, excluded, d)
              && (if d.path == "" then d.identity == world.root else OpenedIn(world, sorted, d))
    {
      WitnessedMeans(t, "", world, excluded, maxDepth, d);
      if d.path == "" {
        OnePath(ds, d);
        assert ds[0] == t.dir;
      } else {
        OpenedMore(world, ds, sorted, d);
      }
    }
  }

  /**
    `_observe_directory_structure`; `None` stands for the error it raises. Where nothing changes it
    succeeds exactly if there is a readable tree within the limits, and then gives that very tree.
   */
  method Freeze(table: Descriptors<nat>, root: nat, world: World, excluded: set<string>, limits: Limits)
    returns (frozen: Option<seq<FrozenDirectory>>)
    requires table.Valid() && root in table.held && table.held[root] == world.root
    modifies table
    ensures table.Valid() && table.held == old(table.held)
    ensures frozen.Some? ==>
              FrozenStructure(frozen.value, excluded, limits) && TrueToWorld(frozen.value, world, excluded)
    ensures Still(world) ==> (frozen.Some? <==> exists t :: Freezable(t, world, excluded, limits))
    ensures Still(world) ==> forall t :: Freezable(t, world, excluded, limits) ==>
              frozen == Some(SortDirectories(Flatten(t)))
  {
    var freezer := new Freezer(world, excluded, limits, table);
    ghost var plan := if t :| Freezable(t, world, excluded, limits) then t else Tree(FrozenDirectory("", 0, []), Empty);
    assert [] + Flatten(plan) == Flatten(plan);
    var ok, tree := freezer.Visit(root, "", world.root, 0, false, plan);
    if !ok {
      return None;
    }
    assert freezer.directories == Flatten(tree);
    GrownIsComplete(tree, "", excluded, limits.maxDepth);
    GrownIsTidy(tree, "", excluded, limits.maxDepth);
    SortedIsFrozen(freezer.directories, excluded, limits);
    SortedIsTrue(tree, world, excluded, limits.maxDepth);
    frozen := Some(SortDirectories(freezer.directories));
    if Still(world) {
      assert Freezable(tree, world, excluded, limits);
      forall t | Freezable(t, world, excluded, limits) ensures t == tree {
        OneTree(t, tree, "", world.root, world, excluded, limits.maxDepth);
      }
    }
  }

  /** The whole tree of a world that keeps still, within every limit. */
  ghost predicate Freezable(t: Tree, world: World, excluded: set<string>, limits: Limits) {
    TreeAt(t, "", world.root, world, excluded, limits.maxDepth) && WithinBudgets(Flatten(t), limits)
  }

  /** A path is recorded exactly when it is the root or a child folder of a recorded directory. */
  lemma ExactlyTheFolders(ds: seq<FrozenDirectory>, excluded: set<string>, limits: Limits, path: string)
    requires FrozenStructure(ds, excluded, limits)
    ensures Has(ds, path) <==> path == "" || NamedIn(ds, path)
  {
    assert ds[0] in ds;
    if NamedIn(ds, path) {
      var d, name: string :| d in ds && Child(name, Folder) in d.children && path == ChildPath(d.path, name);
    }
  }
}
