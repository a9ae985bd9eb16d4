/**
 The part of a file system the store works on: files, directories, and the removal of a
 file together with the directories it leaves empty.
 */
module FileTree {

  /** An absolute, cleaned path, as the sequence of its components. */
  type Path = seq<string>

  /** Files with their contents, and directories. */
  datatype Tree<F> = Tree(files: map<Path, F>, dirs: set<Path>)

  function Parent(p: Path): Path
    requires p != []
  {
    p[..|p| - 1]
  }

  predicate Entry<F>(t: Tree<F>, p: Path) {
    p in t.files || p in t.dirs
  }

  /** The root is a directory, every other entry lies in one, and nothing is both file and directory. */
  ghost predicate WellFormed<F>(t: Tree<F>) {
    && [] in t.dirs
    && (forall p :: p in t.files ==> p !in t.dirs)
    && (forall p :: Entry(t, p) && p != [] ==> Parent(p) in t.dirs)
  }

  /** In a well-formed tree every proper ancestor of an entry is a directory. */
  lemma {:induction false} AncestorsAreDirs<F>(t: Tree<F>, p: Path, q: Path)
    requires WellFormed(t) && Entry(t, p) && q < p
    ensures q in t.dirs
    decreases |p|
  {
    if q != Parent(p) {
      assert q < Parent(p);
      AncestorsAreDirs(t, Parent(p), q);
    }
  }

  // ------------------------------------------------------------------ path text and the base test

  function Slashed(p: Path): string {
    if p == [] then "" else Slashed(Parent(p)) + "/" + p[|p| - 1]
  }

  /** The path as the program's string. */
  function Text(p: Path): string {
    if p == [] then "/" else Slashed(p)
  }

  lemma {:induction false} SlashedPrefix(q: Path, p: Path)
    requires q <= p
    ensures Slashed(q) <= Slashed(p)
    ensures q != p ==> |Slashed(q)| < |Slashed(p)|
    ensures p != [] ==> Slashed(p) != "" && Slashed(p)[0] == '/'
    decreases |p|
  {
    if p != [] {
      SlashedPrefix(if q == p then Parent(p) else q, Parent(p));
    }
  }

  lemma TextPrefix(q: Path, p: Path)
    requires q <= p
    ensures Text(q) <= Text(p)
  {
    SlashedPrefix(q, p);
  }

  /** A directory the upward walk visits: not the base, but with the text of the base as string prefix. */
  predicate Reachable(base: Path, d: Path) {
    d != [] && d != base && Text(base) <= Text(d)
  }

  /** Whatever lies below a directory that the walk visits would be visited too. */
  lemma ReachableDown(base: Path, d: Path, e: Path)
    requires Reachable(base, d) && d <= e
    ensures Reachable(base, e)
  {
    TextPrefix(d, e);
    if e == base {
      SlashedPrefix(d, base);
    }
  }

  /** For a path below the base, component by component, the walk visits exactly what is strictly below the base. */
  lemma ReachableBelowBase(base: Path, p: Path, q: Path)
    requires base <= p && q <= p
    ensures Reachable(base, q) <==> base < q
  {
    if base <= q {
      TextPrefix(base, q);
    } else {
      assert q < base;
      SlashedPrefix(q, base);
    }
  }

  // ------------------------------------------------------------------ removal with directories

  /** e is one of the files to go, or an ancestor of one. */
  ghost predicate OnChain<F>(t: Tree<F>, gone: set<Path>, e: Path) {
    exists p :: p in gone && p in t.files && e <= p
  }

  lemma OnChainFile<F>(t: Tree<F>, gone: set<Path>, p: Path)
    requires WellFormed(t) && p in t.files
    ensures OnChain(t, gone, p) <==> p in gone
  {
    if OnChain(t, gone, p) {
      var p' :| p' in gone && p' in t.files && p <= p';
      if p != p' {
        AncestorsAreDirs(t, p', p);
      }
    }
    if p in gone {
      assert p <= p;
    }
  }

  /** A directory that removing `gone` leaves without entries, its emptied subdirectories being gone too. */
  ghost predicate Emptied<F>(t: Tree<F>, base: Path, gone: set<Path>, d: Path) {
    && d in t.dirs
    && Reachable(base, d)
    && forall e :: Entry(t, e) && d <= e ==> OnChain(t, gone, e)
  }

  /** The tree without the files `gone` and without the directories this empties. */
  ghost function Sweep<F>(t: Tree<F>, base: Path, gone: set<Path>): (r: Tree<F>)
    ensures r.files == t.files - gone
    ensures r.dirs <= t.dirs
  {
    Tree(t.files - gone, set d | d in t.dirs && !Emptied(t, base, gone, d))
  }

  lemma SweepWellFormed<F>(t: Tree<F>, base: Path, gone: set<Path>)
    requires WellFormed(t)
    ensures WellFormed(Sweep(t, base, gone))
  {
    var r := Sweep(t, base, gone);
    forall p | Entry(r, p) && p != []
      ensures Parent(p) in r.dirs
    {
      var d := Parent(p);
      assert d <= p;
      if p in t.files {
        OnChainFile(t, gone, p);
      } else if Reachable(base, d) {
        ReachableDown(base, d, p);
        var e :| Entry(t, e) && p <= e && !OnChain(t, gone, e);
        assert d <= e;
      }
    }
  }

  /** Only the files of `gone` that exist matter. */
  lemma SweepExisting<F>(t: Tree<F>, base: Path, gone: set<Path>, gone': set<Path>)
    requires forall p :: p in t.files ==> (p in gone <==> p in gone')
    ensures Sweep(t, base, gone) == Sweep(t, base, gone')
  {
    forall e ensures OnChain(t, gone, e) <==> OnChain(t, gone', e) {}
    assert forall d :: Emptied(t, base, gone, d) <==> Emptied(t, base, gone', d);
    assert t.files - gone == t.files - gone';
  }

  /** Removing nothing changes nothing. */
  lemma SweepNothing<F>(t: Tree<F>, base: Path, gone: set<Path>)
    requires forall p :: p in gone ==> p !in t.files
    ensures Sweep(t, base, gone) == t
  {
    forall d | d in t.dirs ensures !Emptied(t, base, gone, d) {
      assert Entry(t, d) && d <= d && !OnChain(t, gone, d);
    }
    assert t.files - gone == t.files;
  }

  /** Removing some files and then others is removing them all at once: order and grouping do not matter. */
  lemma SweepTwice<F>(t: Tree<F>, base: Path, first: set<Path>, second: set<Path>)
    requires WellFormed(t)
    ensures Sweep(Sweep(t, base, first), base, second) == Sweep(t, base, first + second)
  {
    var t1 := Sweep(t, base, first);
    var all := first + second;
    forall d | d in t.dirs
      ensures Emptied(t, base, all, d) <==> Emptied(t, base, first, d) || Emptied(t1, base, second, d)
    {
      if Emptied(t, base, all, d) && !Emptied(t, base, first, d) {
        SweepTwiceLater(t, base, first, second, d);
      }
      if Emptied(t, base, first, d) {
        forall e | Entry(t, e) && d <= e ensures OnChain(t, all, e) {
          assert OnChain(t, first, e);
        }
      } else if Emptied(t1, base, second, d) {
        forall e | Entry(t, e) && d <= e ensures OnChain(t, all, e) {
          if Entry(t1, e) {
            assert OnChain(t1, second, e);
          } else if e in t.dirs {
            assert OnChain(t, first, e);
          } else {
            assert e in first && e <= e;
          }
        }
      }
    }
    assert t1.files - second == t.files - all;
  }

  /** What both removals together empty but the first does not, the second one empties. */
  lemma SweepTwiceLater<F>(t: Tree<F>, base: Path, first: set<Path>, second: set<Path>, d: Path)
    requires WellFormed(t)
    requires Emptied(t, base, first + second, d) && !Emptied(t, base, first, d)
    ensures Emptied(Sweep(t, base, first), base, second, d)
  {
    var t1 := Sweep(t, base, first);
    forall e | Entry(t1, e) && d <= e
      ensures OnChain(t1, second, e)
    {
      assert OnChain(t, first + second, e);
      var p :| p in first + second && p in t.files && e <= p;
      if p in first {
        if e in t.files && e != p { AncestorsAreDirs(t, p, e); }
        assert e in t1.dirs && !Emptied(t, base, first, e);
        ReachableDown(base, d, e);
        var f :| Entry(t, f) && e <= f && !OnChain(t, first, f);
        assert OnChain(t, first + second, f);
        var p' :| p' in first + second && p' in t.files && f <= p';
        assert p' in t1.files && e <= p';
      } else {
        assert p in t1.files;
      }
    }
  }

  /** Under a path that lies below the base, nothing outside the base and not the base itself is removed. */
  lemma SweepStaysBelow<F>(t: Tree<F>, base: Path, p: Path, q: Path)
    requires base <= p && Entry(t, q) && !Entry(Sweep(t, base, {p}), q)
    ensures base <= q <= p
    ensures q in t.dirs ==> base < q
  {
    if q in t.dirs {
      assert Emptied(t, base, {p}, q) && OnChain(t, {p}, q);
      ReachableBelowBase(base, p, q);
    }
  }

  /** What RemoveWithDirs leaves: the base test compares strings, and a path that fails it is not touched. */
  ghost function Removed<F>(t: Tree<F>, path: Path, base: Path): Tree<F> {
    if Text(base) <= Text(path) then Sweep(t, base, {path}) else t
  }

  /**
   Removing an existing path takes away nothing but entries strictly below the base exactly if the
   path lies below the base, component by component, or fails the base test.
   */
  lemma StaysBelowIff<F>(t: Tree<F>, base: Path, path: Path)
    requires WellFormed(t) && base in t.dirs && path in t.files
    ensures (forall q :: Entry(t, q) && !Entry(Removed(t, path, base), q) ==> base < q)
       <==> base <= path || !(Text(base) <= Text(path))
  {
    if base <= path {
      forall q | Entry(t, q) && !Entry(Removed(t, path, base), q) ensures base < q {
        SweepStaysBelow(t, base, path, q);
        assert q != base;
      }
    } else if Text(base) <= Text(path) {
      assert Entry(t, path) && !Entry(Removed(t, path, base), path);
    }
  }

  /** Such a path outside the base: a sibling whose name begins like the base passes the test and is pruned. */
  lemma SiblingOfBaseIsPruned()
    ensures var base, sibling := ["srv", "up"], ["srv", "up2"];
      var t := Tree(map[sibling + ["f"] := 0], {[], ["srv"], base, sibling});
      && WellFormed(t)
      && !(base <= sibling + ["f"]) && Text(base) <= Text(sibling + ["f"])
      && Removed(t, sibling + ["f"], base) == Tree(map[], {[], ["srv"], base})
  {
    var base, sibling := ["srv", "up"], ["srv", "up2"];
    var p := sibling + ["f"];
    var t := Tree(map[p := 0], {[], ["srv"], base, sibling});
    assert Parent(p) == sibling && Parent(base) == ["srv"] && Parent(sibling) == ["srv"] && Parent(["srv"]) == [];
    assert Slashed([]) == "" && Slashed(["srv"]) == "/srv";
    assert Slashed(base) == "/srv/up" && Slashed(sibling) == "/srv/up2";
    assert Text(["srv"]) == "/srv" && Text(base) == "/srv/up" && Text(sibling) == "/srv/up2";
    assert Text(base) <= Text(sibling);
    TextPrefix(sibling, p);
    assert !Reachable(base, ["srv"]) && !Reachable(base, base) && !Reachable(base, []);
    assert sibling <= p;
    forall e | Entry(t, e) && sibling <= e ensures OnChain(t, {p}, e) {
      assert e == p || e == sibling;
      assert e <= p && p in t.files;
    }
    assert Emptied(t, base, {p}, sibling);
  }

  // ------------------------------------------------------------------ the walk itself

  predicate HasChild<F>(t: Tree<F>, d: Path) {
    exists p :: p in t.files.Keys + t.dirs && p != [] && Parent(p) == d
  }

  /**
   After the removal no directory the walk visited is left without entries, and what is kept is
   kept with all its ancestors: nothing is removed beyond a directory that still has an entry.
   */
  lemma VisitedIsKeptIffInhabited<F>(t: Tree<F>, base: Path, path: Path, d: Path)
    requires WellFormed(t) && path in t.files && d < path && Reachable(base, d)
    ensures var r := Sweep(t, base, {path});
      && (d in r.dirs <==> HasChild(r, d))
      && (d in r.dirs ==> forall q :: q < d ==> q in r.dirs)
  {
    var r := Sweep(t, base, {path});
    SweepWellFormed(t, base, {path});
    AncestorsAreDirs(t, path, d);
    if d in r.dirs {
      var e :| Entry(t, e) && d <= e && !OnChain(t, {path}, e);
      assert d <= path && e != d;
      var c := e[..|d| + 1];
      assert Parent(c) == d && c <= e;
      if c != e { AncestorsAreDirs(t, e, c); }
      assert c == path ==> e == path;
      assert Entry(r, c);
      forall q | q < d ensures q in r.dirs {
        AncestorsAreDirs(r, d, q);
      }
    }
    if HasChild(r, d) {
      var p :| p in r.files.Keys + r.dirs && p != [] && Parent(p) == d;
      assert Entry(r, p);
    }
  }

  /**
   The tree halfway through the upward walk from `path`: the file and the emptied
   directories longer than `n` components are gone.
   */
  ghost predicate SweptDownTo<F>(t: Tree<F>, base: Path, path: Path, n: nat, cur: Tree<F>) {
    && cur.files == t.files - {path}
    && cur.dirs == set d | d in t.dirs && !(Emptied(t, base, {path}, d) && |d| > n)
  }

  /** When the walk arrives at an ancestor, that directory has no entry left iff it is among the emptied ones. */
  lemma EmptyIffEmptied<F>(t: Tree<F>, base: Path, path: Path, d: Path, cur: Tree<F>)
    requires WellFormed(t) && path in t.files && d < path && Reachable(base, d)
    requires SweptDownTo(t, base, path, |d|, cur)
    ensures !HasChild(cur, d) <==> Emptied(t, base, {path}, d)
  {
    AncestorsAreDirs(t, path, d);
    if HasChild(cur, d) {
      var p :| p in cur.files.Keys + cur.dirs && p != [] && Parent(p) == d;
      assert d <= p && Entry(t, p);
      if p in t.files {
        OnChainFile(t, {path}, p);
      } else {
        ReachableDown(base, d, p);
        var e :| Entry(t, e) && p <= e && !OnChain(t, {path}, e);
        assert d <= e;
      }
    }
    if !HasChild(cur, d) {
      forall e | Entry(t, e) && d <= e ensures OnChain(t, {path}, e) {
        if e == d {
          assert d <= path;
        } else {
          var c := e[..|d| + 1];
          assert Parent(c) == d;
          if c != e { AncestorsAreDirs(t, e, c); }
          assert c !in cur.files.Keys + cur.dirs;
          if c == path {
            assert e == c;
          } else {
            assert Emptied(t, base, {path}, c) && c <= e;
          }
        }
      }
    }
  }

  lemma WalkStarts<F>(t: Tree<F>, base: Path, path: Path)
    requires WellFormed(t) && path in t.files
    ensures path != [] && SweptDownTo(t, base, path, |path| - 1, t.(files := t.files - {path}))
  {
    forall d | d in t.dirs && Emptied(t, base, {path}, d) ensures |d| < |path| {
      assert Entry(t, d) && d <= d && OnChain(t, {path}, d);
      assert d <= path && d != path;
    }
  }

  /** The walk stops where nothing above it could have been removed. */
  lemma WalkEnds<F>(t: Tree<F>, base: Path, path: Path, d: Path, cur: Tree<F>)
    requires d <= path && !Reachable(base, d) && SweptDownTo(t, base, path, |d|, cur)
    ensures cur == Sweep(t, base, {path})
  {
    forall e | Emptied(t, base, {path}, e) ensures |e| > |d| {
      assert OnChain(t, {path}, e);
      if |e| <= |d| {
        assert e <= d;
        ReachableDown(base, e, d);
      }
    }
  }

  /** Removing the ancestor iff it is among the emptied directories takes the walk one level up. */
  lemma WalkGoesOn<F>(t: Tree<F>, base: Path, path: Path, d: Path, cur: Tree<F>, next: Tree<F>)
    requires d <= path && d != [] && SweptDownTo(t, base, path, |d|, cur)
    requires next == if Emptied(t, base, {path}, d) then cur.(dirs := cur.dirs - {d}) else cur
    ensures SweptDownTo(t, base, path, |d| - 1, next)
  {
    forall e | Emptied(t, base, {path}, e) && |e| == |d| ensures e == d {
      assert OnChain(t, {path}, e);
    }
  }

  /**
   RemoveWithDirs: removes the file, then walks upward removing each directory found empty,
   up to the base; it walks on past a directory that is not empty.
   A path that does not exist is no error and starts no walk.
   */
  method RemoveWithDirs<F>(t: Tree<F>, path: Path, base: Path) returns (r: Tree<F>, ok: bool)
    requires WellFormed(t) && path !in t.dirs
    ensures ok <==> Text(base) <= Text(path)
    ensures r == Removed(t, path, base)
    ensures WellFormed(r)
  {
    r := t;
    if !(Text(base) <= Text(path)) {
      return r, false;
    }
    if path !in t.files {
      SweepNothing(t, base, {path});
      return r, true;
    }
    SweepWellFormed(t, base, {path});
    WalkStarts(t, base, path);
    r := t.(files := t.files - {path});
    var parent := path;
    while true
      invariant parent <= path
      invariant parent != []
      invariant SweptDownTo(t, base, path, |parent| - 1, r)
      decreases |parent|
    {
      parent := Parent(parent);
      if !Reachable(base, parent) {
        WalkEnds(t, base, path, parent, r);
        return r, true;
      }
      EmptyIffEmptied(t, base, path, parent, r);
      var removed := if HasChild(r, parent) then r else r.(dirs := r.dirs - {parent});
      WalkGoesOn(t, base, path, parent, r, removed);
      r := removed;
    }
  }

  /**
   A removal cut anywhere in its walk leaves what is not pruned yet for good: run again, it finds no
   file and starts no walk. The tree is that of an uncut removal iff no emptied directory was left.
   (With n one less than the length of the path, the cut comes before the walk.)
   */
  lemma CutWalkIsNotResumed<F>(t: Tree<F>, base: Path, path: Path, n: nat, cut: Tree<F>)
    requires path in t.files && Text(base) <= Text(path) && SweptDownTo(t, base, path, n, cut)
    ensures Removed(cut, path, base) == cut
    ensures cut == Removed(t, path, base) <==> forall d :: Emptied(t, base, {path}, d) ==> |d| > n
  {
    SweepNothing(cut, base, {path});
    if d :| Emptied(t, base, {path}, d) && |d| <= n {
      assert d in cut.dirs && d !in Sweep(t, base, {path}).dirs;
    }
  }
}
