/**
 `copy_entry` of webdav.rs: a recursive copy driven by an explicit work list. The source may
 hold the destination; then the copy runs into itself, and only a failing call ends it.
 */
module CopyEntry {
  import opened ByteStrings
  import opened Disk
  import opened FileTree

  function Last(path: Path): Bytes
    requires path != []
  {
    path[|path| - 1]
  }

  ghost predicate HasNoLink(sub: Tree) {
    forall q | q in sub :: !sub[q].Symlink?
  }

  /** A file or a directory without a symbolic link anywhere in it. */
  ghost predicate Copyable(tree: Tree, source: Path) {
    source in tree && (tree[source].File? || tree[source].Directory?) && HasNoLink(Sub(tree, source))
  }

  /** What a copy fails with if no call does. */
  function CopyError(tree: Tree, source: Path): IoError {
    if source in tree && tree[source].Special? then InvalidInput else PermissionDenied
  }

  // ---------------------------------------------------------------------------
  // The state of the two loops, in paths relative to the source
  // ---------------------------------------------------------------------------

  /** What has been copied once the entries of `reached` have had their turn. */
  ghost function Copied(sub: Tree, reached: set<Path>): Tree {
    map q | q in sub && q in reached && (sub[q].File? || sub[q].Directory?) :: sub[q]
  }

  /**
   `busy` directories are being read or done. The work list holds exactly the reached
   directories that are not busy, each once, and no symbolic link has been reached.
   */
  ghost predicate WorkListFits(sub: Tree, queue: seq<Path>, busy: set<Path>, reached: set<Path>) {
    && (forall i, j | 0 <= i < j < |queue| :: queue[i] != queue[j])
    && (forall q | q in queue :: q in reached && q !in busy && q in sub && sub[q].Directory?)
    && (forall q | q in busy :: q in reached && q in sub && sub[q].Directory?)
    && (forall q | q in reached :: q in sub && !sub[q].Symlink? && (sub[q].Directory? ==> q in busy || q in queue))
  }

  /** Outer loop: the reached entries are the top and all children of busy directories. */
  ghost predicate Closed(sub: Tree, busy: set<Path>, reached: set<Path>) {
    && ([] in reached <==> [] in sub)
    && forall q {:trigger Parent(q)} | q != [] :: q in reached <==> q in sub && Parent(q) in busy
  }

  /** Inner loop: of `current`, only the names already yielded count. */
  ghost predicate PartlyClosed(sub: Tree, busy: set<Path>, current: Path, seen: set<Bytes>, reached: set<Path>) {
    && ([] in reached <==> [] in sub)
    && forall q {:trigger Parent(q)} | q != [] ::
      q in reached <==> q in sub && Parent(q) in busy && (Parent(q) == current ==> Last(q) in seen)
  }

  /** The pairs the source keeps on its work list. */
  ghost predicate Pairs(pending: seq<(Path, Path)>, source: Path, destination: Path, queue: seq<Path>) {
    && |pending| == |queue|
    && forall i | 0 <= i < |queue| :: pending[i] == (source + queue[i], destination + queue[i])
  }

  lemma StartDirectory(sub: Tree, queue: seq<Path>, busy: set<Path>, reached: set<Path>)
    requires queue != [] && WorkListFits(sub, queue, busy, reached) && Closed(sub, busy, reached)
    ensures var current := queue[|queue| - 1];
            && WorkListFits(sub, queue[..|queue| - 1], busy + {current}, reached)
            && PartlyClosed(sub, busy + {current}, current, {}, reached)
            && sub.Keys - (busy + {current}) < sub.Keys - busy
  {
    var current := queue[|queue| - 1];
    var rest := queue[..|queue| - 1];
    forall q | q in queue && q != current ensures q in rest {
      var i :| 0 <= i < |queue| && queue[i] == q;
      assert rest[i] == q;
    }
  }

  lemma ReachChild(sub: Tree, queue: seq<Path>, busy: set<Path>, reached: set<Path>,
                   current: Path, seen: set<Bytes>, name: Bytes)
    requires WorkListFits(sub, queue, busy, reached) && PartlyClosed(sub, busy, current, seen, reached)
    requires current in busy && current + [name] in sub && !sub[current + [name]].Symlink? && name !in seen
    ensures var child := current + [name];
            && WorkListFits(sub, if sub[child].Directory? then queue + [child] else queue, busy, reached + {child})
            && PartlyClosed(sub, busy, current, seen + {name}, reached + {child})
  {
    var child := current + [name];
    assert Parent(child) == current && Last(child) == name;
    assert forall q: Path {:trigger Parent(q)} | q != [] :: q == Parent(q) + [Last(q)];
  }

  lemma FinishDirectory(sub: Tree, busy: set<Path>, reached: set<Path>, current: Path, seen: set<Bytes>)
    requires PartlyClosed(sub, busy, current, seen, reached)
    requires forall name | current + [name] in sub :: name in seen
    ensures Closed(sub, busy, reached)
  {
    forall q: Path | q != [] ensures q in reached <==> q in sub && Parent(q) in busy {
      assert q == Parent(q) + [Last(q)];
    }
  }

  lemma {:induction false} AllReached(sub: Tree, busy: set<Path>, reached: set<Path>, q: Path)
    requires Rooted(sub) && q in sub && WorkListFits(sub, [], busy, reached) && Closed(sub, busy, reached)
    ensures q in reached
    decreases |q|
  {
    if q != [] {
      AllReached(sub, busy, reached, Parent(q));
      assert q == Parent(q) + [Last(q)];
    }
  }

  /** An empty work list means that everything has been copied. */
  lemma EmptyWorkListIsComplete(sub: Tree, busy: set<Path>, reached: set<Path>)
    requires Rooted(sub) && WorkListFits(sub, [], busy, reached) && Closed(sub, busy, reached)
    ensures Copied(sub, reached) == Keep(sub) && HasNoLink(sub)
  {
    forall q | q in sub ensures q in reached {
      AllReached(sub, busy, reached, q);
    }
  }

  // ---------------------------------------------------------------------------
  // What a copy does to the tree
  // ---------------------------------------------------------------------------

  /** The fixed facts of one copy. */
  ghost predicate CopyPlan(base: Tree, source: Path, destination: Path) {
    && WellFormed(base) && (source == [] || source in base)
    && destination != [] && destination !in base
  }

  /** Files and directories, and nothing else. */
  ghost predicate Material(sub: Tree) {
    forall q | q in sub :: sub[q].File? || sub[q].Directory?
  }

  /** Only the destination has changed. */
  ghost predicate Growing(base: Tree, tree: Tree, destination: Path) {
    Without(tree, destination) == base && Material(Sub(tree, destination))
  }

  /** Entries of the source, the content of files apart. */
  ghost predicate Partial(copy: Tree, sub: Tree) {
    forall q | q in copy :: q in sub && (copy[q] == sub[q] || (copy[q].File? && sub[q].File?))
  }

  ghost predicate DirsStay(before: Tree, after: Tree) {
    forall p | IsDir(before, p) :: IsDir(after, p)
  }

  lemma DirsStayOn(a: Tree, b: Tree, c: Tree)
    requires DirsStay(a, b) && DirsStay(b, c)
    ensures DirsStay(a, c)
  {
  }

  lemma DirStays(before: Tree, after: Tree, path: Path)
    requires DirsStay(before, after)
    ensures IsDir(before, path) ==> IsDir(after, path)
  {
  }

  lemma DirsStayIdle(tree: Tree)
    ensures DirsStay(tree, tree)
  {
  }

  /** Nothing in a source that does not hold the fresh `destination` lies under it. */
  lemma SourceStays(base: Tree, source: Path, destination: Path, tree: Tree)
    requires CopyPlan(base, source, destination) && !(source <= destination) && Growing(base, tree, destination)
    ensures Sub(tree, source) == Sub(base, source)
  {
    forall q ensures !(destination <= source + q) {}
    forall q ensures source + q in tree <==> source + q in base {
      assert source + q in Without(tree, destination) <==> source + q in base;
    }
  }

  /** Writing one entry under the destination. */
  lemma PutBelow(tree: Tree, destination: Path, child: Path, node: Node)
    ensures Without(tree[destination + child := node], destination) == Without(tree, destination)
    ensures Sub(tree[destination + child := node], destination) == Sub(tree, destination)[child := node]
  {
    assert forall q :: destination + q == destination + child ==> q == (destination + child)[|destination|..] == child;
  }

  lemma PutGrows(base: Tree, tree: Tree, destination: Path, child: Path, node: Node)
    requires Growing(base, tree, destination) && (node.File? || node.Directory?)
    requires destination + child in tree && tree[destination + child].Directory? ==> node.Directory?
    ensures Growing(base, tree[destination + child := node], destination)
    ensures DirsStay(tree, tree[destination + child := node])
    ensures Sub(tree[destination + child := node], destination) == Sub(tree, destination)[child := node]
  {
    PutBelow(tree, destination, child, node);
  }

  lemma WithoutAndSub(base: Tree, tree: Tree, at: Path, sub: Tree)
    requires Without(tree, at) == base && Without(base, at) == base && Sub(tree, at) == sub
    ensures tree == Graft(base, at, sub)
  {
    var r := Graft(base, at, sub);
    forall p ensures (p in tree <==> p in r) && (p in tree ==> tree[p] == r[p]) {
      if at <= p {
        assert p == at + p[|at|..];
        assert p in tree <==> p[|at|..] in Sub(tree, at);
      } else {
        assert p in tree <==> p in Without(tree, at);
      }
    }
  }

  lemma {:induction false} NothingInFile(sub: Tree, q: Path)
    requires Rooted(sub) && [] in sub && sub[[]].File? && q in sub
    ensures q == []
    decreases |q|
  {
    if q != [] { NothingInFile(sub, Parent(q)); }
  }

  lemma LoneCopy(sub: Tree, copy: Tree, node: Node)
    requires [] in sub && sub[[]].File? && node.File? && copy == map[[] := node]
    ensures Partial(copy, sub)
  {
  }

  lemma NothingThere(base: Tree, destination: Path, sub: Tree)
    requires WellFormed(base) && destination != [] && destination !in base
    ensures Growing(base, base, destination) && Sub(base, destination) == map[]
    ensures Partial(Sub(base, destination), sub)
  {
    FreshIsEmpty(base, destination);
  }

  lemma LoneFile(sub: Tree)
    requires Rooted(sub) && [] in sub && sub[[]].File?
    ensures Keep(sub) == map[[] := sub[[]]] && HasNoLink(sub)
  {
    forall q | q in sub ensures q == [] { NothingInFile(sub, q); }
  }

  // ---------------------------------------------------------------------------
  // A copy into itself
  // ---------------------------------------------------------------------------

  /** `w` is a directory of the source that waits behind `q`, and its copy lies in the source again, below it. */
  ghost predicate Chased(tree: Tree, source: Path, destination: Path, q: Path, w: Path)
    requires source <= destination
  {
    q <= w && IsDir(tree, source + w) && w <= destination[|source|..] + w
  }

  ghost predicate Chases(tree: Tree, source: Path, destination: Path, queue: seq<Path>)
    requires source <= destination
  {
    exists q, w :: q in queue && Chased(tree, source, destination, q, w)
  }

  lemma ChaseStarts(tree: Tree, source: Path, destination: Path)
    requires source <= destination && IsDir(tree, destination)
    ensures Chases(tree, source, destination, [[]])
  {
    assert source + destination[|source|..] == destination;
    var queue: seq<Path> := [[]];
    assert queue[0] in queue && Chased(tree, source, destination, [], destination[|source|..]);
  }

  /** Behind a waiting directory there is always another one. */
  lemma ChaseGoesOn(tree: Tree, source: Path, destination: Path, current: Path, w: Path) returns (name: Bytes, w': Path)
    requires WellFormed(tree) && source < destination && IsDir(tree, destination + current)
    requires Chased(tree, source, destination, current, w)
    ensures IsDir(tree, source + (current + [name])) && Chased(tree, source, destination, current + [name], w')
  {
    var r := destination[|source|..];
    w' := if w == current then r + w else w;
    name := w'[|current|];
    assert source + (r + w) == destination + w;
    assert current + [name] <= w';
    AncestorIsDir(tree, source + (current + [name]), source + w');
  }

  lemma ChaseKept(before: Tree, after: Tree, source: Path, destination: Path, q: Path, w: Path, queue: seq<Path>)
    requires source <= destination && DirsStay(before, after) && q in queue && Chased(before, source, destination, q, w)
    ensures Chases(after, source, destination, queue)
  {
    assert Chased(after, source, destination, q, w);
  }

  /** One round of the outer loop leaves the chase where it was, or takes it one directory on. */
  lemma ChaseContinues(before: Tree, after: Tree, source: Path, destination: Path, queue: seq<Path>, queue': seq<Path>)
    requires WellFormed(before) && source < destination && DirsStay(before, after)
    requires queue != [] && queue[..|queue| - 1] <= queue' && Chases(before, source, destination, queue)
    requires var current := queue[|queue| - 1];
             && IsDir(before, destination + current)
             && forall name | IsDir(before, source + (current + [name])) :: current + [name] in queue'
    ensures Chases(after, source, destination, queue')
  {
    var current := queue[|queue| - 1];
    var q, w :| q in queue && Chased(before, source, destination, q, w);
    if q == current {
      var name, w' := ChaseGoesOn(before, source, destination, current, w);
      ChaseKept(before, after, source, destination, current + [name], w', queue');
    } else {
      assert q in queue[..|queue| - 1];
      ChaseKept(before, after, source, destination, q, w, queue');
    }
  }

  // ---------------------------------------------------------------------------
  // The copy
  // ---------------------------------------------------------------------------

  /** What stands at the destination is what the reached entries of the source make. */
  ghost predicate Copying(base: Tree, source: Path, destination: Path, tree: Tree, reached: set<Path>) {
    Sub(tree, destination) == Copied(Sub(base, source), reached)
  }

  /** Copying one file to a place at or below the destination; nothing else changes, whatever happens. */
  method CopyFile(disk: Disk, ghost base: Tree, ghost destination: Path, from: Path, to: Path, ghost child: Path)
    returns (r: IoResult)
    requires disk.Valid() && Growing(base, disk.tree, destination) && to == destination + child
    modifies disk
    ensures disk.Valid() && Growing(base, disk.tree, destination) && DirsStay(old(disk.tree), disk.tree)
    ensures disk.faults >= old(disk.faults)
    ensures r.IoOk? ==> disk.faults == old(disk.faults) && disk.log == old(disk.log)
    ensures disk.Spare() <= old(disk.Spare())
    ensures r.IoErr? && disk.faults == old(disk.faults) ==>
              !(from in old(disk.tree) && old(disk.tree)[from].File? && CanCreate(old(disk.tree), to))
    ensures r.IoOk? ==> from in old(disk.tree) && old(disk.tree)[from].File? && CanCreate(old(disk.tree), to)
    ensures r.IoOk? ==>
              Sub(disk.tree, destination) == Sub(old(disk.tree), destination)[child := old(disk.tree)[from]]
    ensures r.IoErr? && disk.tree != old(disk.tree) ==>
              && from in old(disk.tree) && old(disk.tree)[from].File?
              && exists content ::
                   Sub(disk.tree, destination) == Sub(old(disk.tree), destination)[child := File(content)]
  {
    ghost var before := disk.tree;
    assert child in Sub(before, destination) <==> to in before;
    r := disk.Copy(from, to);
    if r.IoOk? {
      PutGrows(base, before, destination, child, before[from]);
    } else if disk.tree != before {
      ghost var content :| disk.tree == before[to := File(content)];
      PutGrows(base, before, destination, child, File(content));
    }
  }

  lemma CopiedSteps(sub: Tree, reached: set<Path>, child: Path)
    requires child in sub
    ensures Copied(sub, reached + {child}) ==
              if sub[child].File? || sub[child].Directory? then Copied(sub, reached)[child := sub[child]]
              else Copied(sub, reached)
  {
  }

  /** The next entry of a source that does not hold the destination: its parent has been copied, and it has not. */
  ghost predicate Next(base: Tree, source: Path, child: Path, reached: set<Path>) {
    var sub := Sub(base, source);
    child in sub && child !in reached && child != [] && Parent(child) in reached && Parent(child) in sub
    && sub[Parent(child)].Directory?
  }

  /** There is room for it. */
  lemma RoomFor(base: Tree, source: Path, destination: Path, tree: Tree, reached: set<Path>, child: Path)
    requires Copying(base, source, destination, tree, reached) && Next(base, source, child, reached)
    ensures destination + child !in tree && CanCreate(tree, destination + child)
    ensures destination + child != [] && IsDir(tree, Parent(destination + child))
  {
    assert child !in Sub(tree, destination) && Parent(child) in Sub(tree, destination);
    assert Parent(destination + child) == destination + Parent(child);
  }

  /** What there is to know about the next entry, and what the copy of it will mean. */
  lemma ChildFacts(base: Tree, source: Path, destination: Path, tree: Tree, reached: set<Path>, child: Path)
    requires CopyPlan(base, source, destination) && !(source <= destination) && Growing(base, tree, destination)
    requires Copying(base, source, destination, tree, reached) && Next(base, source, child, reached)
    ensures var sub, there := Sub(base, source), Sub(tree, destination);
            && child in sub && source + child in tree && tree[source + child] == sub[child]
            && destination + child !in tree && CanCreate(tree, destination + child)
            && Partial(there, sub)
            && (sub[child].File? ==> forall content :: Partial(there[child := File(content)], sub))
            && (sub[child].Directory? ==> Partial(there[child := sub[child]], sub))
            && Copied(sub, reached + {child}) ==
                 if sub[child].File? || sub[child].Directory? then there[child := sub[child]] else there
  {
    SourceStays(base, source, destination, tree);
    CopiedSteps(Sub(base, source), reached, child);
    RoomFor(base, source, destination, tree, reached, child);
    assert child in Sub(tree, source);
  }

  /** One round of the inner loop. */
  method CopyChild(disk: Disk, ghost base: Tree, ghost source: Path, ghost destination: Path,
                   sourceChild: Path, destinationChild: Path, ghost child: Path, ghost reached: set<Path>)
    returns (r: IoResult, push: bool)
    requires disk.Valid() && CopyPlan(base, source, destination) && Growing(base, disk.tree, destination)
    requires sourceChild == source + child && destinationChild == destination + child && child != []
    requires !(source <= destination) ==>
               Copying(base, source, destination, disk.tree, reached) && Next(base, source, child, reached)
    modifies disk
    ensures disk.Valid() && Growing(base, disk.tree, destination) && DirsStay(old(disk.tree), disk.tree)
    ensures disk.faults >= old(disk.faults)
    ensures r.IoOk? ==> disk.faults == old(disk.faults) && disk.log == old(disk.log)
    ensures disk.Spare() <= old(disk.Spare())
    ensures push ==> r.IoOk? && IsDir(disk.tree, destinationChild) && disk.Spare() < old(disk.Spare())
    ensures r.IoOk? && IsDir(old(disk.tree), sourceChild) ==> push
    ensures !(source <= destination) ==> Partial(Sub(disk.tree, destination), Sub(base, source))
    ensures !(source <= destination) && r.IoErr? && disk.faults == old(disk.faults) ==>
              Sub(base, source)[child].Symlink? && r.error == PermissionDenied
    ensures !(source <= destination) && r.IoOk? ==>
              && Copying(base, source, destination, disk.tree, reached + {child})
              && !Sub(base, source)[child].Symlink? && (push <==> Sub(base, source)[child].Directory?)
  {
    hide Growing, Partial, DirsStay, Copied, Next, CopyPlan, Sub;
    ghost var before := disk.tree;
    DirsStayIdle(before);
    if !(source <= destination) { ChildFacts(base, source, destination, before, reached, child); }
    push := false;
    var metadata := disk.Stat(sourceChild);
    if metadata.Failure? { return IoErr(metadata.error), false; }
    if metadata.value == SymlinkKind { return IoErr(PermissionDenied), false; }
    if metadata.value == DirectoryKind {
      r := disk.CreateDir(destinationChild);
      push := r.IoOk?;
      if push { PutGrows(base, before, destination, child, Directory); }
    } else if metadata.value == FileKind {
      r := CopyFile(disk, base, destination, sourceChild, destinationChild, child);
    } else {
      r := IoOk;
    }
  }

  lemma ListingMatches(tree: Tree, source: Path, current: Path, names: seq<Bytes>)
    requires forall name :: name in names <==> source + current + [name] in tree
    ensures forall name :: name in names <==> current + [name] in Sub(tree, source)
    ensures forall name | IsDir(tree, source + (current + [name])) :: name in names
  {
    forall name ensures name in names <==> current + [name] in Sub(tree, source) {
      assert source + current + [name] == source + (current + [name]);
    }
  }

  lemma PairsPush(pending: seq<(Path, Path)>, source: Path, destination: Path, queue: seq<Path>, child: Path)
    requires Pairs(pending, source, destination, queue)
    ensures Pairs(pending + [(source + child, destination + child)], source, destination, queue + [child])
  {
  }

  /** The work list of a source that does not hold the destination, while `current` is being read. */
  ghost predicate Reading(base: Tree, source: Path, destination: Path, tree: Tree, queue: seq<Path>, busy: set<Path>,
                          reached: set<Path>, current: Path, seen: set<Bytes>) {
    && Copying(base, source, destination, tree, reached) && current in busy
    && WorkListFits(Sub(base, source), queue, busy, reached)
    && PartlyClosed(Sub(base, source), busy, current, seen, reached)
  }

  /** The same between two rounds of the outer loop. */
  ghost predicate Working(base: Tree, source: Path, destination: Path, tree: Tree, queue: seq<Path>, busy: set<Path>,
                          reached: set<Path>) {
    && Copying(base, source, destination, tree, reached)
    && WorkListFits(Sub(base, source), queue, busy, reached) && Closed(Sub(base, source), busy, reached)
  }

  lemma ReadingStarts(base: Tree, source: Path, destination: Path, tree: Tree, queue: seq<Path>, busy: set<Path>,
                      reached: set<Path>, current: Path)
    requires CopyPlan(base, source, destination) && !(source <= destination) && Growing(base, tree, destination)
    requires Reading(base, source, destination, tree, queue, busy, reached, current, {})
    ensures IsDir(tree, source + current) && Sub(tree, source) == Sub(base, source)
    ensures Partial(Sub(tree, destination), Sub(base, source))
  {
    SourceStays(base, source, destination, tree);
    assert current in Sub(tree, source);
  }

  lemma ReadingNext(base: Tree, source: Path, destination: Path, tree: Tree, queue: seq<Path>, busy: set<Path>,
                    reached: set<Path>, current: Path, seen: set<Bytes>, name: Bytes)
    requires Reading(base, source, destination, tree, queue, busy, reached, current, seen)
    requires name !in seen && current + [name] in Sub(base, source)
    ensures Copying(base, source, destination, tree, reached) && Next(base, source, current + [name], reached)
  {
    assert Parent(current + [name]) == current && Last(current + [name]) == name;
  }

  lemma ReadingGoesOn(base: Tree, source: Path, destination: Path, before: Tree, after: Tree, queue: seq<Path>,
                      busy: set<Path>, reached: set<Path>, current: Path, seen: set<Bytes>, name: Bytes)
    requires Reading(base, source, destination, before, queue, busy, reached, current, seen)
    requires var child := current + [name];
             && name !in seen && child in Sub(base, source) && !Sub(base, source)[child].Symlink?
             && Copying(base, source, destination, after, reached + {child})
    ensures var child := current + [name];
            Reading(base, source, destination, after,
                    if Sub(base, source)[child].Directory? then queue + [child] else queue, busy, reached + {child},
                    current, seen + {name})
  {
    hide WorkListFits, PartlyClosed, Copied;
    ReachChild(Sub(base, source), queue, busy, reached, current, seen, name);
  }

  lemma ReadingEnds(base: Tree, source: Path, destination: Path, tree: Tree, queue: seq<Path>, busy: set<Path>,
                    reached: set<Path>, current: Path, seen: set<Bytes>)
    requires Reading(base, source, destination, tree, queue, busy, reached, current, seen)
    requires forall name | current + [name] in Sub(base, source) :: name in seen
    ensures Working(base, source, destination, tree, queue, busy, reached)
  {
    FinishDirectory(Sub(base, source), busy, reached, current, seen);
  }

  /** Everything on the work list has its directory at the destination. */
  ghost predicate Prepared(tree: Tree, destination: Path, queue: seq<Path>) {
    forall q | q in queue :: IsDir(tree, destination + q)
  }

  lemma CopiedIsPartial(base: Tree, source: Path, destination: Path, tree: Tree, reached: set<Path>)
    requires Copying(base, source, destination, tree, reached)
    ensures Partial(Sub(tree, destination), Sub(base, source))
  {
  }

  /** One more directory may have been made and queued. */
  lemma PreparedFurther(before: Tree, after: Tree, destination: Path, queue: seq<Path>, child: Path, push: bool)
    requires Prepared(before, destination, queue) && DirsStay(before, after)
    requires push ==> IsDir(after, destination + child)
    ensures Prepared(after, destination, if push then queue + [child] else queue)
  {
  }

  /** One name of a directory: copy what it stands for, and queue it if that is a directory. */
  method CopyNext(disk: Disk, ghost base: Tree, ghost source: Path, ghost destination: Path, sourceDir: Path,
                  destinationDir: Path, name: Bytes, pending: seq<(Path, Path)>, ghost queue: seq<Path>,
                  ghost busy: set<Path>, ghost reached: set<Path>, ghost current: Path, ghost seen: set<Bytes>)
    returns (r: IoResult, more: seq<(Path, Path)>, ghost queue': seq<Path>)
    requires disk.Valid() && CopyPlan(base, source, destination) && Growing(base, disk.tree, destination)
    requires Pairs(pending, source, destination, queue) && Prepared(disk.tree, destination, queue)
    requires sourceDir == source + current && destinationDir == destination + current
    requires !(source <= destination) ==>
               && Reading(base, source, destination, disk.tree, queue, busy, reached, current, seen)
               && name !in seen && current + [name] in Sub(base, source)
    modifies disk
    ensures disk.Valid() && Growing(base, disk.tree, destination) && DirsStay(old(disk.tree), disk.tree)
    ensures disk.faults >= old(disk.faults)
    ensures r.IoOk? ==> disk.faults == old(disk.faults) && disk.log == old(disk.log)
    ensures disk.Spare() <= old(disk.Spare())
    ensures r.IoOk? ==> Pairs(more, source, destination, queue') && Prepared(disk.tree, destination, queue')
    ensures r.IoOk? ==> queue <= queue' && (more == pending || disk.Spare() < old(disk.Spare()))
    ensures r.IoOk? && IsDir(old(disk.tree), source + (current + [name])) ==> current + [name] in queue'
    ensures !(source <= destination) ==> Partial(Sub(disk.tree, destination), Sub(base, source))
    ensures !(source <= destination) && r.IoErr? && disk.faults == old(disk.faults) ==>
              !HasNoLink(Sub(base, source)) && r.error == PermissionDenied
    ensures !(source <= destination) && r.IoOk? ==>
              Reading(base, source, destination, disk.tree, queue', busy, reached + {current + [name]}, current,
                      seen + {name})
  {
    hide Reading, Copying, Pairs, CopyPlan, Growing, Partial, Sub, Next, Prepared, DirsStay, IsDir,
      FileTree.WellFormed;
    ghost var before := disk.tree;
    ghost var child := current + [name];
    more, queue' := pending, queue;
    var sourceChild, destinationChild := sourceDir + [name], destinationDir + [name];
    AppendAssociates(source, current, [name]);
    AppendAssociates(destination, current, [name]);
    DirsStayIdle(before);
    if !(source <= destination) {
      ReadingNext(base, source, destination, before, queue, busy, reached, current, seen, name);
      CopiedIsPartial(base, source, destination, before, reached);
    }
    r := disk.Hiccup();
    if r.IoErr? { return; }
    var push: bool;
    r, push := CopyChild(disk, base, source, destination, sourceChild, destinationChild, child, reached);
    if r.IoErr? { return; }
    if !(source <= destination) {
      ReadingGoesOn(base, source, destination, before, disk.tree, queue, busy, reached, current, seen, name);
    }
    PreparedFurther(before, disk.tree, destination, queue, child, push);
    if push {
      PairsPush(more, source, destination, queue, child);
      more := more + [(sourceChild, destinationChild)];
      queue' := queue + [child];
    }
  }

  /** The inner loop: copy what one directory holds, queueing its subdirectories. */
  method CopyDirectory(disk: Disk, ghost base: Tree, ghost source: Path, ghost destination: Path,
                       sourceDir: Path, destinationDir: Path, pending: seq<(Path, Path)>,
                       ghost queue: seq<Path>, ghost busy: set<Path>, ghost reached: set<Path>, ghost current: Path)
    returns (r: IoResult, more: seq<(Path, Path)>, ghost queue': seq<Path>, ghost reached': set<Path>)
    requires disk.Valid() && CopyPlan(base, source, destination) && Growing(base, disk.tree, destination)
    requires Pairs(pending, source, destination, queue) && Prepared(disk.tree, destination, queue)
    requires sourceDir == source + current && destinationDir == destination + current
    requires !(source <= destination) ==>
               Reading(base, source, destination, disk.tree, queue, busy, reached, current, {})
    modifies disk
    ensures disk.Valid() && Growing(base, disk.tree, destination) && DirsStay(old(disk.tree), disk.tree)
    ensures disk.faults >= old(disk.faults)
    ensures r.IoOk? ==> disk.faults == old(disk.faults) && disk.log == old(disk.log)
    ensures disk.Spare() <= old(disk.Spare())
    ensures r.IoOk? ==> Pairs(more, source, destination, queue') && Prepared(disk.tree, destination, queue')
    ensures r.IoOk? ==> queue <= queue' && (more == pending || disk.Spare() < old(disk.Spare()))
    ensures r.IoOk? ==> forall name | IsDir(old(disk.tree), source + (current + [name])) :: current + [name] in queue'
    ensures !(source <= destination) ==> Partial(Sub(disk.tree, destination), Sub(base, source))
    ensures !(source <= destination) && r.IoErr? && disk.faults == old(disk.faults) ==>
              !HasNoLink(Sub(base, source)) && r.error == PermissionDenied
    ensures !(source <= destination) && r.IoOk? ==>
              Working(base, source, destination, disk.tree, queue', busy, reached')
  {
    hide Reading, Working, Copying, Pairs, CopyPlan, Growing, Partial, Sub, Next, Prepared, DirsStay, IsDir,
      FileTree.WellFormed;
    ghost var before := disk.tree;
    ghost var sub := Sub(base, source);
    ghost var apart := !(source <= destination);
    more, queue', reached' := pending, queue, reached;
    if apart { ReadingStarts(base, source, destination, before, queue, busy, reached, current); }
    DirsStayIdle(before);
    var listing := disk.ReadDir(sourceDir);
    if listing.Failure? { return IoErr(listing.error), more, queue', reached'; }
    var names := listing.value;
    ListingMatches(before, source, current, names);
    ghost var seen: set<Bytes> := {};
    for i := 0 to |names|
      invariant disk.Valid() && Growing(base, disk.tree, destination) && DirsStay(before, disk.tree)
      invariant disk.faults == old(disk.faults) && disk.log == old(disk.log) && disk.Spare() <= old(disk.Spare())
      invariant seen == set j | 0 <= j < i :: names[j]
      invariant Pairs(more, source, destination, queue') && Prepared(disk.tree, destination, queue')
      invariant queue <= queue' && (more == pending || disk.Spare() < old(disk.Spare()))
      invariant forall j | 0 <= j < i && IsDir(before, source + (current + [names[j]])) ::
                  current + [names[j]] in queue'
      invariant apart ==> Partial(Sub(disk.tree, destination), sub)
      invariant apart ==> Reading(base, source, destination, disk.tree, queue', busy, reached', current, seen)
    {
      ghost var there := disk.tree;
      DirStays(before, there, source + (current + [names[i]]));
      var step;
      ghost var further;
      step, more, further :=
        CopyNext(disk, base, source, destination, sourceDir, destinationDir, names[i], more, queue', busy, reached',
                 current, seen);
      DirsStayOn(before, there, disk.tree);
      if step.IoErr? { return step, more, queue', reached'; }
      seen, queue', reached' := seen + {names[i]}, further, reached' + {current + [names[i]]};
    }
    var last := disk.Hiccup();
    if last.IoErr? { return last, more, queue', reached'; }
    forall name | IsDir(before, source + (current + [name])) ensures current + [name] in queue' {
      assert name in names;
    }
    if apart { ReadingEnds(base, source, destination, disk.tree, queue', busy, reached', current, seen); }
    r := IoOk;
  }

  /** The state the outer loop starts in: the top directory is made and waits on the work list. */
  lemma FirstDirectory(base: Tree, source: Path, destination: Path)
    requires CopyPlan(base, source, destination) && IsDir(base, source)
    ensures var tree := base[destination := Directory];
            && Growing(base, tree, destination) && DirsStay(base, tree) && Prepared(tree, destination, [[]])
            && (if source <= destination then Chases(tree, source, destination, [[]])
                else Working(base, source, destination, tree, [[]], {}, {[]}))
    ensures Pairs([(source, destination)], source, destination, [[]])
  {
    var tree := base[destination := Directory];
    assert source + [] == source && destination + [] == destination;
    FreshIsEmpty(base, destination);
    PutGrows(base, base, destination, [], Directory);
    if source <= destination {
      ChaseStarts(tree, source, destination);
    } else {
      assert Copied(Sub(base, source), {[]}) == map[[] := Directory];
    }
  }

  /** The outer loop, started with the top directory already made. A copy into itself can only end in an error. */
  method CopyTree(disk: Disk, ghost base: Tree, source: Path, destination: Path) returns (r: IoResult)
    requires disk.Valid() && CopyPlan(base, source, destination) && IsDir(base, source)
    requires disk.tree == base[destination := Directory]
    modifies disk
    ensures disk.Valid() && Growing(base, disk.tree, destination) && disk.faults >= old(disk.faults)
    ensures r.IoOk? ==> !(source <= destination) && disk.faults == old(disk.faults) && disk.log == old(disk.log)
    ensures !(source <= destination) ==> Partial(Sub(disk.tree, destination), Sub(base, source))
    ensures !(source <= destination) && r.IoErr? && disk.faults == old(disk.faults) ==>
              !HasNoLink(Sub(base, source)) && r.error == PermissionDenied
    ensures r.IoOk? ==> Sub(disk.tree, destination) == Keep(Sub(base, source)) && HasNoLink(Sub(base, source))
  {
    hide WorkListFits, Closed, PartlyClosed, Sub, Without, Copied, Keep, Growing, Partial, Chased;
    ghost var sub := Sub(base, source);
    ghost var apart := !(source <= destination);
    ghost var queue: seq<Path> := [[]];
    ghost var busy: set<Path> := {};
    ghost var reached: set<Path> := {[]};
    var pending := [(source, destination)];
    assert source != destination;
    FirstDirectory(base, source, destination);
    if apart { CopiedIsPartial(base, source, destination, disk.tree, reached); }
    while pending != []
      invariant disk.Valid() && Growing(base, disk.tree, destination)
      invariant disk.faults == old(disk.faults) && disk.log == old(disk.log)
      invariant Pairs(pending, source, destination, queue) && Prepared(disk.tree, destination, queue)
      invariant apart ==> Partial(Sub(disk.tree, destination), sub)
      invariant apart ==> Working(base, source, destination, disk.tree, queue, busy, reached)
      invariant !apart ==> Chases(disk.tree, source, destination, queue)
      decreases disk.Spare(), |pending|
    {
      var (sourceDir, destinationDir) := pending[|pending| - 1];
      ghost var before := disk.tree;
      ghost var current := queue[|queue| - 1];
      ghost var rest := queue[..|queue| - 1];
      if apart { StartDirectory(sub, queue, busy, reached); }
      var step, more, queue', reached' :=
        CopyDirectory(disk, base, source, destination, sourceDir, destinationDir, pending[..|pending| - 1],
                      rest, busy + {current}, reached, current);
      if step.IoErr? { return step; }
      if !apart { ChaseContinues(before, disk.tree, source, destination, queue, queue'); }
      pending, queue, busy, reached := more, queue', busy + {current}, reached';
    }
    assert queue == [];
    if apart {
      SubIsRooted(base, source);
      EmptyWorkListIsComplete(sub, busy, reached);
    }
    r := IoOk;
  }

  /**
   On success the destination is the recursive copy of the source's files and directories,
   and the source holds no symbolic link, and not the destination. Whatever happens, nothing
   outside the destination changes, and what is there are files and directories; of a source
   that does not hold it, entries of that source, the content of files apart. Unless a call
   fails, such a source without links that is a file or a directory is copied. The loop ends
   because a disk has room for so many entries only: every directory it queues is a new one.
   */
  method CopyEntry(disk: Disk, source: Path, destination: Path) returns (r: IoResult)
    requires disk.Valid() && CopyPlan(disk.tree, source, destination)
    modifies disk
    ensures disk.Valid() && Growing(old(disk.tree), disk.tree, destination) && disk.faults >= old(disk.faults)
    ensures !(source <= destination) ==> Partial(Sub(disk.tree, destination), Sub(old(disk.tree), source))
    ensures r.IoErr? && disk.faults == old(disk.faults) && !(source <= destination) ==>
              !(Copyable(old(disk.tree), source) && IsDir(old(disk.tree), Parent(destination)))
    ensures (&& r.IoErr? && disk.faults == old(disk.faults)
             && !(source <= destination) && IsDir(old(disk.tree), Parent(destination))) ==>
              r.error == CopyError(old(disk.tree), source)
    ensures r.IoOk? ==> disk.tree == Graft(old(disk.tree), destination, Keep(Sub(old(disk.tree), source)))
    ensures r.IoOk? ==> Copyable(old(disk.tree), source) && !(source <= destination)
    ensures r.IoOk? ==> disk.faults == old(disk.faults) && disk.log == old(disk.log)
  {
    hide Graft, Keep, Partial;
    ghost var base := disk.tree;
    ghost var sub := Sub(base, source);
    FreshIsEmpty(base, destination);
    NothingThere(base, destination, sub);
    assert source + [] == source && destination + [] == destination;
    var metadata := disk.Stat(source);
    if metadata.Failure? { return IoErr(metadata.error); }
    if metadata.value == SymlinkKind { return IoErr(PermissionDenied); }
    if metadata.value == FileKind {
      r := CopyFile(disk, base, destination, source, destination, []);
      SubIsRooted(base, source);
      LoneFile(sub);
      if r.IoOk? {
        if source <= destination { AncestorIsDir(base, source, Parent(destination)); }
        LoneCopy(sub, Sub(disk.tree, destination), sub[[]]);
        WithoutAndSub(base, disk.tree, destination, Keep(sub));
      } else if disk.tree != base {
        ghost var content :| Sub(disk.tree, destination) == map[][[] := File(content)];
        LoneCopy(sub, Sub(disk.tree, destination), File(content));
      }
      return;
    }
    if metadata.value != DirectoryKind { return IoErr(InvalidInput); }

    r := disk.CreateDir(destination);
    if r.IoOk? {
      r := CopyTree(disk, base, source, destination);
      if r.IoOk? { WithoutAndSub(base, disk.tree, destination, Keep(sub)); }
    }
  }
}
