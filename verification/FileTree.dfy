/** The filesystem as a finite map from component lists to nodes. */
module FileTree {
  import opened ByteStrings

  type Path = seq<Bytes>

  datatype Node = File(content: Bytes) | Directory | Symlink(target: Bytes) | Special

  type Tree = map<Path, Node>

  /** The filesystem root is a directory without an entry of its own. */
  predicate IsDir(tree: Tree, path: Path) {
    path == [] || (path in tree && tree[path].Directory?)
  }

  predicate IsLink(tree: Tree, path: Path) {
    path in tree && tree[path].Symlink?
  }

  function Parent(path: Path): Path
    requires path != []
  {
    path[..|path| - 1]
  }

  /** Every entry sits in a directory. */
  predicate WellFormed(tree: Tree) {
    && [] !in tree
    && forall path {:trigger Parent(path)} | path in tree :: IsDir(tree, Parent(path))
  }

  lemma {:induction false} AncestorIsDir(tree: Tree, ancestor: Path, path: Path)
    requires WellFormed(tree) && IsDir(tree, path) && ancestor <= path
    ensures IsDir(tree, ancestor)
    decreases |path|
  {
    if ancestor != path {
      AncestorIsDir(tree, ancestor, Parent(path));
    }
  }

  // ---------------------------------------------------------------------------
  // Subtrees
  // ---------------------------------------------------------------------------

  /** Everything at or below `at`, with paths relative to `at`. */
  function Sub(tree: Tree, at: Path): (sub: Tree)
    ensures forall q {:trigger q in sub} :: q in sub <==> at + q in tree
    ensures forall q {:trigger sub[q]} | q in sub :: sub[q] == tree[at + q]
  {
    var tails := set p | p in tree && at <= p :: p[|at|..];
    assert forall p | p in tree && at <= p :: at + p[|at|..] == p;
    assert forall q :: at + q in tree ==> at <= at + q && (at + q)[|at|..] == q;
    map q | q in tails :: tree[at + q]
  }

  function Without(tree: Tree, at: Path): Tree {
    map p | p in tree && !(at <= p) :: tree[p]
  }

  /** `tree` with `sub` as everything at or below `at`. */
  function Graft(tree: Tree, at: Path, sub: Tree): (r: Tree)
    ensures forall p {:trigger p in r} :: p in r <==> if at <= p then p[|at|..] in sub else p in tree
    ensures forall p {:trigger r[p]} | p in r :: r[p] == if at <= p then sub[p[|at|..]] else tree[p]
  {
    var paths := Without(tree, at).Keys + set q | q in sub :: at + q;
    assert forall q :: (at + q)[|at|..] == q && at <= at + q;
    assert forall p | at <= p :: at + p[|at|..] == p;
    map p | p in paths :: if at <= p then sub[p[|at|..]] else tree[p]
  }

  /** `rename`: everything at or below `from` now sits at `to`. */
  function Moved(tree: Tree, from: Path, to: Path): Tree {
    Graft(Without(tree, from), to, Sub(tree, from))
  }

  /** The entries COPY carries over. */
  function Keep(sub: Tree): Tree {
    map q | q in sub && (sub[q].File? || sub[q].Directory?) :: sub[q]
  }

  /** Every entry of `sub` is present, unchanged, at `at`. */
  ghost predicate Holds(tree: Tree, at: Path, sub: Tree) {
    forall q | q in sub :: at + q in tree && tree[at + q] == sub[q]
  }

  /** Part of the subtree at `at` is gone and nothing else has changed. */
  predicate Pruned(before: Tree, after: Tree, at: Path) {
    && (forall p | p in after :: p in before && after[p] == before[p])
    && (forall p | p in before && !(at <= p) :: p in after)
  }

  /** Where there is a symbolic link now, there was one before. */
  ghost predicate FewerLinks(before: Tree, after: Tree) {
    forall p | IsLink(after, p) :: IsLink(before, p)
  }

  /** The subtree form of `WellFormed`. */
  ghost predicate Rooted(sub: Tree) {
    forall q {:trigger Parent(q)} | q in sub && q != [] :: Parent(q) in sub && sub[Parent(q)].Directory?
  }

  lemma SubIsRooted(tree: Tree, at: Path)
    requires WellFormed(tree) && at != []
    ensures Rooted(Sub(tree, at))
  {
    forall q | q in Sub(tree, at) && q != []
      ensures Parent(q) in Sub(tree, at) && Sub(tree, at)[Parent(q)].Directory?
    {
      assert Parent(at + q) == at + Parent(q);
    }
  }

  lemma {:induction false} NothingBelow(tree: Tree, at: Path, p: Path)
    requires WellFormed(tree) && at != [] && at !in tree && at <= p
    ensures p !in tree
    decreases |p|
  {
    if p in tree {
      assert p != at;
      assert at <= Parent(p);
      NothingBelow(tree, at, Parent(p));
    }
  }

  /** A missing path has nothing below it. */
  lemma FreshIsEmpty(tree: Tree, at: Path)
    requires WellFormed(tree) && at != [] && at !in tree
    ensures Without(tree, at) == tree && Sub(tree, at) == map[]
  {
    forall p | p in tree ensures !(at <= p) {
      if at <= p { NothingBelow(tree, at, p); }
    }
    forall q ensures at + q !in tree {
      NothingBelow(tree, at, at + q);
    }
  }

  lemma WithoutIsWellFormed(tree: Tree, at: Path)
    requires WellFormed(tree)
    ensures WellFormed(Without(tree, at))
  {
    forall p | p in Without(tree, at) ensures p != [] && IsDir(Without(tree, at), Parent(p)) {
      assert at <= Parent(p) ==> at <= p;
    }
  }

  lemma GraftIsWellFormed(tree: Tree, at: Path, sub: Tree)
    requires WellFormed(tree) && Rooted(sub) && at != [] && IsDir(tree, Parent(at))
    ensures WellFormed(Graft(tree, at, sub))
  {
    var r := Graft(tree, at, sub);
    forall p | p in r ensures p != [] && IsDir(r, Parent(p)) {
      assert p != [] && at <= Parent(p) ==> at <= p;
      if at <= p {
        if p != at {
          assert at <= Parent(p) && Parent(p)[|at|..] == Parent(p[|at|..]);
        } else {
          assert !(at <= Parent(p));
        }
      }
    }
  }

  lemma MovedIsWellFormed(tree: Tree, from: Path, to: Path)
    requires WellFormed(tree) && from != [] && to != [] && IsDir(tree, Parent(to)) && !(from <= Parent(to))
    ensures WellFormed(Moved(tree, from, to))
  {
    WithoutIsWellFormed(tree, from);
    SubIsRooted(tree, from);
    GraftIsWellFormed(Without(tree, from), to, Sub(tree, from));
  }

  /** What a graft puts in place is what one reads there; elsewhere nothing changes. */
  lemma GraftReads(tree: Tree, at: Path, sub: Tree)
    ensures Sub(Graft(tree, at, sub), at) == sub
    ensures Without(Graft(tree, at, sub), at) == Without(tree, at)
    ensures Holds(Graft(tree, at, sub), at, sub)
  {
    var r := Graft(tree, at, sub);
    forall q ensures at <= at + q && (at + q)[|at|..] == q {}
  }
}
