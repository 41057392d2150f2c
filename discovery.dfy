/** Repository discovery: `FindGits` walks a directory tree with
    `filepath.Walk` and collects every directory the repository probe
    (`IsRepo`, that is `git rev-parse --git-dir`) accepts, without
    descending into it. The file system is a tree value and the probe an
    input. */
module Discovery {

  /** A directory as the walk sees it: its name and its subdirectories in
      the lexical order `filepath.Walk` visits them. Files are left out:
      the probe, which runs git inside the path, never accepts a file. */
  datatype Dir = Dir(name: string, children: seq<Dir>)

  /** A path as its components, the start path first; FindGits reports
      `filepath.Join` of them. */
  type Path = seq<string>

  /** What the walk callback tells `filepath.Walk`. */
  datatype Decision = Continue | SkipDir

  /** The paths FindGits reports for the directory `d` found at `path`:
      `path` itself when the probe accepts it, otherwise what its
      children report, in order. */
  function Found(d: Dir, path: Path, isRepo: Path -> bool): seq<Path>
    decreases d, 1
  {
    if isRepo(path) then [path] else FoundChildren(d.children, path, isRepo)
  }

  /** What the directories `ds` below `parent` report, in order. */
  function FoundChildren(ds: seq<Dir>, parent: Path, isRepo: Path -> bool): seq<Path>
    decreases ds, 0
  {
    if ds == [] then []
    else
      var last := ds[|ds| - 1];
      FoundChildren(ds[..|ds| - 1], parent, isRepo) + Found(last, parent + [last.name], isRepo)
  }

  /** The walk's state: the probe, and the accumulator the callback
      appends to. */
  class Finder {
    const isRepo: Path -> bool
    var paths: seq<Path>

    constructor (isRepo: Path -> bool)
      ensures this.isRepo == isRepo && paths == []
    {
      this.isRepo := isRepo;
      paths := [];
    }

    /** The callback FindGits gives the walk: a path the probe accepts is
        appended and its directory skipped; any other path is passed over
        and the walk goes on. */
    method Visit(path: Path) returns (decision: Decision)
      modifies this
      ensures decision == (if isRepo(path) then SkipDir else Continue)
      ensures paths == old(paths) + (if isRepo(path) then [path] else [])
    {
      if isRepo(path) {
        paths := paths + [path];
        return SkipDir;
      }
      return Continue;
    }

    /** `filepath.Walk` from the directory `d` at `path`: the callback
        sees the directory first; unless it answers SkipDir, each child is
        walked in turn. */
    method Walk(d: Dir, path: Path)
      modifies this
      ensures paths == old(paths) + Found(d, path, isRepo)
      decreases d
    {
      var decision := Visit(path);
      if decision == SkipDir {
        return;
      }
      for i := 0 to |d.children|
        invariant paths == old(paths) + FoundChildren(d.children[..i], path, isRepo)
      {
        var child := d.children[i];
        Walk(child, path + [child.name]);
        assert d.children[..i + 1][..i] == d.children[..i];
      }
      assert d.children[..|d.children|] == d.children;
    }
  }

  /** FindGits: walk the tree from the start directory, whose name is the
      start path, and return what the callback collected. */
  method FindGits(start: Dir, isRepo: Path -> bool) returns (paths: seq<Path>)
    ensures paths == Found(start, [start.name], isRepo)
  {
    var finder := new Finder(isRepo);
    finder.Walk(start, [start.name]);
    paths := finder.paths;
  }

  /** Every directory of the tree in the order `filepath.Walk` visits them
      when nothing is skipped: a directory, then its children's trees. */
  function PreOrder(d: Dir, path: Path): seq<Path>
    decreases d, 1
  {
    [path] + PreOrderChildren(d.children, path)
  }

  /** The pre-order of the trees `ds` below `parent`, one after another. */
  function PreOrderChildren(ds: seq<Dir>, parent: Path): seq<Path>
    decreases ds, 0
  {
    if ds == [] then []
    else
      var last := ds[|ds| - 1];
      PreOrderChildren(ds[..|ds| - 1], parent) + PreOrder(last, parent + [last.name])
  }

  /** A path the walk reports: the probe accepts it and rejects every
      ancestor from the start path (of length `base`) down. */
  predicate Reported(q: Path, base: nat, isRepo: Path -> bool)
  {
    && isRepo(q)
    && forall k | base <= k < |q| :: !isRepo(q[..k])
  }

  /** The reported paths of `ps`, in their order. */
  function Filter(ps: seq<Path>, base: nat, isRepo: Path -> bool): seq<Path>
  {
    if ps == [] then []
    else
      var last := ps[|ps| - 1];
      Filter(ps[..|ps| - 1], base, isRepo) + (if Reported(last, base, isRepo) then [last] else [])
  }

  /** Filtering a concatenation filters each part. */
  lemma {:induction false} FilterAppend(a: seq<Path>, b: seq<Path>, base: nat, isRepo: Path -> bool)
    ensures Filter(a + b, base, isRepo) == Filter(a, base, isRepo) + Filter(b, base, isRepo)
    decreases |b|
  {
    if b == [] {
      assert a + b == a;
    } else {
      var n := |b| - 1;
      assert (a + b)[..|a + b| - 1] == a + b[..n];
      assert (a + b)[|a + b| - 1] == b[n];
      FilterAppend(a, b[..n], base, isRepo);
    }
  }

  /** A path is kept exactly when it is in the list and reported. */
  lemma {:induction false} FilterMembers(ps: seq<Path>, base: nat, isRepo: Path -> bool, q: Path)
    ensures q in Filter(ps, base, isRepo) <==> q in ps && Reported(q, base, isRepo)
  {
    if ps != [] {
      var n := |ps| - 1;
      FilterMembers(ps[..n], base, isRepo, q);
      assert ps == ps[..n] + [ps[n]];
    }
  }

  /** Nothing is kept from a list without reported paths. */
  lemma {:induction false} FilterNone(ps: seq<Path>, base: nat, isRepo: Path -> bool)
    requires forall q | q in ps :: !Reported(q, base, isRepo)
    ensures Filter(ps, base, isRepo) == []
  {
    if ps != [] {
      var n := |ps| - 1;
      assert forall q | q in ps[..n] :: q in ps;
      FilterNone(ps[..n], base, isRepo);
    }
  }

  /** Every path in the pre-order of `d` at `path` is `path` or lies
      below it. */
  lemma {:induction false} PreOrderBelow(d: Dir, path: Path)
    ensures forall q | q in PreOrder(d, path) :: |path| <= |q| && q[..|path|] == path
    decreases d, 1
  {
    PreOrderChildrenBelow(d.children, path);
    assert path[..|path|] == path;
  }

  /** Every path in the pre-order of the children of `parent` lies
      strictly below `parent`. */
  lemma {:induction false} PreOrderChildrenBelow(ds: seq<Dir>, parent: Path)
    ensures forall q | q in PreOrderChildren(ds, parent) :: |parent| < |q| && q[..|parent|] == parent
    decreases ds, 0
  {
    if ds != [] {
      var n := |ds| - 1;
      var last := ds[n];
      var child := parent + [last.name];
      PreOrderChildrenBelow(ds[..n], parent);
      PreOrderBelow(last, child);
      forall q | q in PreOrder(last, child) ensures |parent| < |q| && q[..|parent|] == parent {
        assert q[..|child|][..|parent|] == q[..|parent|];
        assert child[..|parent|] == parent;
      }
    }
  }

  /** The walk reports exactly the reported paths of the full pre-order,
      in pre-order: an independent description of what FindGits returns.
      It holds at any directory whose ancestors from the start down were
      all rejected by the probe. */
  lemma {:induction false} FoundIsFiltered(d: Dir, path: Path, base: nat, isRepo: Path -> bool)
    requires base <= |path|
    requires forall k | base <= k < |path| :: !isRepo(path[..k])
    ensures Found(d, path, isRepo) == Filter(PreOrder(d, path), base, isRepo)
    decreases d, 1
  {
    var rest := PreOrderChildren(d.children, path);
    FilterAppend([path], rest, base, isRepo);
    assert Filter([path], base, isRepo) == (if Reported(path, base, isRepo) then [path] else []);
    if isRepo(path) {
      PreOrderChildrenBelow(d.children, path);
      forall q | q in rest ensures !Reported(q, base, isRepo) {
        assert q[..|path|] == path;
      }
      FilterNone(rest, base, isRepo);
    } else {
      assert path[..|path|] == path;
      FoundChildrenIsFiltered(d.children, path, base, isRepo);
    }
  }

  /** The children's part of FoundIsFiltered, for a rejected `parent`. */
  lemma {:induction false} FoundChildrenIsFiltered(ds: seq<Dir>, parent: Path, base: nat, isRepo: Path -> bool)
    requires base <= |parent|
    requires forall k | base <= k <= |parent| :: !isRepo(parent[..k])
    ensures FoundChildren(ds, parent, isRepo) == Filter(PreOrderChildren(ds, parent), base, isRepo)
    decreases ds, 0
  {
    if ds != [] {
      var n := |ds| - 1;
      var last := ds[n];
      var child := parent + [last.name];
      FoundChildrenIsFiltered(ds[..n], parent, base, isRepo);
      forall k | base <= k < |child| ensures !isRepo(child[..k]) {
        assert child[..k] == parent[..k];
      }
      FoundIsFiltered(last, child, base, isRepo);
      FilterAppend(PreOrderChildren(ds[..n], parent), PreOrder(last, child), base, isRepo);
    }
  }

  /** FindGits reports a path exactly when it is a directory of the tree
      that the probe accepts while rejecting all its ancestors from the
      start path down; the start path itself is one candidate. */
  lemma FoundMembers(start: Dir, isRepo: Path -> bool, q: Path)
    ensures q in Found(start, [start.name], isRepo)
        <==> q in PreOrder(start, [start.name]) && Reported(q, 1, isRepo)
  {
    FoundIsFiltered(start, [start.name], 1, isRepo);
    FilterMembers(PreOrder(start, [start.name]), 1, isRepo, q);
  }

  /** The walk never reports a path inside another reported path: it
      does not descend below a repository it has found. */
  lemma NoNesting(start: Dir, isRepo: Path -> bool, p: Path, q: Path)
    requires p in Found(start, [start.name], isRepo)
    requires q in Found(start, [start.name], isRepo)
    ensures !(|p| < |q| && q[..|p|] == p)
  {
    FoundMembers(start, isRepo, p);
    FoundMembers(start, isRepo, q);
    PreOrderBelow(start, [start.name]);
  }

  /** A tree in which the probe accepts no directory yields no paths. */
  lemma NothingFound(start: Dir, isRepo: Path -> bool)
    requires forall q | q in PreOrder(start, [start.name]) :: !isRepo(q)
    ensures Found(start, [start.name], isRepo) == []
  {
    FoundIsFiltered(start, [start.name], 1, isRepo);
    FilterNone(PreOrder(start, [start.name]), 1, isRepo);
  }

  /** The tree the tests build: repositories at a/b/c, flat and xxx/yyy
      under the start directory, with any contents. FindGits reports the
      three in lexical pre-order and nothing inside them. */
  lemma TestFindGits(location: string, c: Dir, flat: Dir, yyy: Dir, isRepo: Path -> bool)
    requires c.name == "c" && flat.name == "flat" && yyy.name == "yyy"
    requires isRepo([location, "a", "b", "c"]) && isRepo([location, "flat"]) && isRepo([location, "xxx", "yyy"])
    requires !isRepo([location]) && !isRepo([location, "a"]) && !isRepo([location, "a", "b"])
    requires !isRepo([location, "xxx"])
    ensures Found(Dir(location, [Dir("a", [Dir("b", [c])]), flat, Dir("xxx", [yyy])]), [location], isRepo)
         == [[location, "a", "b", "c"], [location, "flat"], [location, "xxx", "yyy"]]
  {
    var b := Dir("b", [c]);
    var a := Dir("a", [b]);
    var x := Dir("xxx", [yyy]);
    var top := [a, flat, x];
    var l := [location];
    var pa, pb, pc := l + [a.name], [location, "a"] + [b.name], [location, "a", "b"] + [c.name];
    assert pa == [location, "a"] && pb == [location, "a", "b"] && pc == [location, "a", "b", "c"];
    var pf, px, py := l + [flat.name], l + [x.name], [location, "xxx"] + [yyy.name];
    assert pf == [location, "flat"] && px == [location, "xxx"] && py == [location, "xxx", "yyy"];
    OneRepoBelow(b, pb, isRepo);
    OneRepoBelow(a, pa, isRepo);
    OneRepoBelow(x, px, isRepo);
    assert Found(a, pa, isRepo) == [pc];
    assert Found(x, px, isRepo) == [py];
    assert Found(flat, pf, isRepo) == [pf];
    assert top[..2] == [a, flat] && [a, flat][..1] == [a] && [a][..0] == [];
    assert FoundChildren([a], l, isRepo) == [pc];
    assert FoundChildren([a, flat], l, isRepo) == [pc, pf];
    assert FoundChildren(top, l, isRepo) == [pc, pf, py];
  }

  /** A rejected directory with a single child reports what the child
      reports. */
  lemma OneRepoBelow(d: Dir, path: Path, isRepo: Path -> bool)
    requires |d.children| == 1 && !isRepo(path)
    ensures Found(d, path, isRepo) == Found(d.children[0], path + [d.children[0].name], isRepo)
  {
    var child := d.children[0];
    assert d.children[..0] == [];
    assert FoundChildren(d.children, path, isRepo)
        == FoundChildren([], path, isRepo) + Found(child, path + [child.name], isRepo);
  }
}
