/** COPY and MOVE in webdav.rs, from staging to the final swap, over a filesystem that may fail at every call. */
module Transfer {
  import opened CopyEntry
  import opened Disk
  import opened FileTree
  import opened Staging
  import opened Wrappers

  /** A source, a destination that is not the source, and a missing staging path beside the destination. */
  ghost predicate EndsFit(before: Tree, source: Path, destination: Path, staging: Path) {
    && CopyPlan(before, source, staging)
    && destination != [] && staging != destination && Parent(staging) == Parent(destination)
    && source != destination
  }

  /** The destination is not in the source, either. */
  ghost predicate SwapPlan(before: Tree, source: Path, destination: Path, staging: Path) {
    EndsFit(before, source, destination, staging) && !(source <= destination)
  }

  /** What ends up at the destination: all of the source after a rename, its files and directories after a copy. */
  ghost function Carried(before: Tree, source: Path, renamed: bool): Tree {
    if renamed then Sub(before, source) else Keep(Sub(before, source))
  }

  ghost function StagedTree(before: Tree, source: Path, staging: Path, renamed: bool): Tree {
    if renamed then Moved(before, source, staging) else Graft(before, staging, Keep(Sub(before, source)))
  }

  /** Every entry of `sub` is complete at one of the three places. */
  ghost predicate Conserved(after: Tree, sub: Tree, source: Path, staging: Path, destination: Path) {
    Holds(after, source, sub) || Holds(after, staging, sub) || Holds(after, destination, sub)
  }

  lemma HoldsSub(tree: Tree, at: Path, sub: Tree)
    requires forall q | q in sub :: q in Sub(tree, at) && Sub(tree, at)[q] == sub[q]
    ensures Holds(tree, at, sub)
  {
    forall q | q in sub ensures at + q in tree && tree[at + q] == sub[q] {
      assert q in Sub(tree, at);
    }
  }

  lemma PlanApart(before: Tree, source: Path, destination: Path, staging: Path)
    requires SwapPlan(before, source, destination, staging)
    ensures Incomparable(source, staging) && Incomparable(staging, destination)
  {
    StagingIsOutside(before, source, destination, staging);
  }

  /** The tree once staging has succeeded. */
  lemma {:induction false} StagedFacts(before: Tree, source: Path, destination: Path, staging: Path, renamed: bool)
    requires SwapPlan(before, source, destination, staging)
    ensures var there := StagedTree(before, source, staging, renamed);
            && Sub(there, staging) == Carried(before, source, renamed)
            && SameOutside(before, there, if renamed then {source, staging} else {staging})
            && (renamed ==> Sub(there, source) == map[])
            && (!renamed ==> Sub(there, source) == Sub(before, source))
            && (Incomparable(source, destination) ==> Sub(there, destination) == Sub(before, destination))
  {
    PlanApart(before, source, destination, staging);
    if renamed {
      MovedReads(before, source, staging);
      MovedOutside(before, source, staging);
      if Incomparable(source, destination) {
        SubOfMoved(before, source, staging, destination);
      }
    } else {
      var sub := Keep(Sub(before, source));
      GraftReads(before, staging, sub);
      OutsideOne(before, Graft(before, staging, sub), staging);
      SubOfGraft(before, staging, sub, source);
      SubOfGraft(before, staging, sub, destination);
    }
  }

  /** Renaming over a path that has been cleared is the same as renaming over it. */
  lemma MovedOver(tree: Tree, from: Path, to: Path)
    requires Incomparable(from, to)
    ensures Moved(Without(tree, to), from, to) == Moved(tree, from, to)
  {
    SubOfWithout(tree, to, from);
    var a, b := Moved(Without(tree, to), from, to), Moved(tree, from, to);
    assert forall p :: p in a <==> p in b;
  }

  /** Failure number `first` was that of a call that puts the staging entry in the place of the destination. */
  ghost predicate SwapFailed(log: Log, first: nat, faults: nat, staging: Path, destination: Path) {
    && first < faults && first in log
    && (log[first] == Looking(destination) || log[first] == Removal(destination)
        || log[first] == Renaming(staging, destination))
  }

  lemma SwapStillFailed(before: Log, after: Log, first: nat, faults: nat, later: nat, staging: Path, destination: Path)
    requires SwapFailed(before, first, faults, staging, destination)
    requires Remembers(before, after, faults) && faults <= later
    ensures SwapFailed(after, first, later, staging, destination)
  {
  }

  lemma WithoutIsPruned(tree: Tree, at: Path)
    ensures Pruned(tree, Without(tree, at), at)
  {
  }

  lemma NothingPruned(tree: Tree, at: Path)
    ensures Pruned(tree, tree, at)
  {
  }

  /** What has been cleared is ready for the staging entry. */
  lemma ReadyOnceCleared(tree: Tree, staging: Path, destination: Path)
    requires Incomparable(staging, destination) && destination != [] && staging != [] && staging in tree
    requires Parent(staging) == Parent(destination) && IsDir(tree, Parent(destination))
    ensures CanRename(Without(tree, destination), staging, destination)
  {
  }

  /** Swapping in: the old destination goes, the staging entry takes its place. */
  method Swap(disk: Disk, staging: Path, destination: Path, existed: bool) returns (r: IoResult)
    requires disk.Valid() && destination != [] && staging != [] && Incomparable(staging, destination)
    requires existed ==> destination in disk.tree
    modifies disk
    ensures disk.Valid() && disk.faults >= old(disk.faults)
    ensures r.IoErr? && disk.faults == old(disk.faults) && (existed || destination !in old(disk.tree)) ==>
              || staging !in old(disk.tree) || Parent(staging) != Parent(destination)
              || !IsDir(old(disk.tree), Parent(destination))
    ensures r.IoOk? ==> disk.tree == Moved(Without(old(disk.tree), destination), staging, destination)
    ensures r.IoErr? ==> Pruned(old(disk.tree), disk.tree, destination)
    ensures r.IoErr? && disk.tree != old(disk.tree) ==>
              || SwapFailed(disk.log, old(disk.faults), disk.faults, staging, destination)
              || staging !in old(disk.tree) || Parent(staging) != Parent(destination)
              || !IsDir(old(disk.tree), Parent(destination))
    ensures Remembers(old(disk.log), disk.log, old(disk.faults))
  {
    hide Moved, Graft, Without, Sub, Pruned, CanRename, FileTree.WellFormed;
    ghost var before := disk.tree;
    MovedOver(before, staging, destination);
    WithoutIsPruned(before, destination);
    NothingPruned(before, destination);
    if staging in before && Parent(staging) == Parent(destination) && IsDir(before, Parent(destination)) {
      ReadyOnceCleared(before, staging, destination);
      if destination !in before { FreshIsEmpty(before, destination); }
    }
    if existed {
      r := disk.RemoveEntry(destination);
      if r.IoErr? { return; }
    }
    r := disk.Rename(staging, destination);
  }

  lemma SwappedOutside(there: Tree, destination: Path, staging: Path)
    ensures SameOutside(there, Moved(Without(there, destination), staging, destination), {staging, destination})
  {
    var cleared := Without(there, destination);
    MovedOutside(cleared, staging, destination);
    assert Without(cleared, destination) == cleared;
    OutsideOne(there, cleared, destination);
    OutsideChain(there, cleared, Moved(cleared, staging, destination), {destination}, {staging, destination});
    assert {destination} + {staging, destination} == {staging, destination};
  }

  /** The tree once the swap has succeeded. */
  lemma {:induction false} SwappedFacts(there: Tree, source: Path, destination: Path, staging: Path)
    requires Incomparable(source, staging) && Incomparable(staging, destination)
    ensures var after := Moved(Without(there, destination), staging, destination);
            && Sub(after, destination) == Sub(there, staging)
            && Sub(after, staging) == map[]
            && (Incomparable(source, destination) ==> Sub(after, source) == Sub(there, source))
  {
    var cleared := Without(there, destination);
    MovedReads(cleared, staging, destination);
    SubOfWithout(there, destination, staging);
    if Incomparable(source, destination) {
      SubOfMoved(cleared, staging, destination, source);
      SubOfWithout(there, destination, source);
    }
  }

  // ---------------------------------------------------------------------------
  // Ways out
  // ---------------------------------------------------------------------------

  /** Nothing but what was there before: entries may be missing, none is altered or added. */
  ghost predicate Leftover(before: Tree, after: Tree) {
    forall q | q in after :: q in before && after[q] == before[q]
  }

  lemma LeftoverOfPruned(before: Tree, after: Tree, at: Path)
    requires Pruned(before, after, at)
    ensures Leftover(Sub(before, at), Sub(after, at))
  {
  }

  /** What a caller may rely on, whichever call failed. */
  ghost predicate Fits(before: Tree, after: Tree, source: Path, destination: Path, staging: Path,
                       move: bool, renamed: bool, swapped: bool) {
    var carried := Carried(before, source, renamed);
    && SameOutside(before, after, if move then {source, staging, destination} else {staging, destination})
    && (swapped && (renamed || !move || Incomparable(source, destination)) ==>
          Sub(after, destination) == carried && Sub(after, staging) == map[])
    && (renamed || Incomparable(source, destination) ==> Conserved(after, carried, source, staging, destination))
    && (!swapped && Incomparable(source, destination) ==> Leftover(Sub(before, destination), Sub(after, destination)))
    && (!swapped && staging !in after && Incomparable(source, destination) ==> Pruned(before, after, destination))
    && (swapped && Incomparable(source, destination) ==> Leftover(Sub(before, source), Sub(after, source)))
    && (!swapped && !renamed && Incomparable(source, destination) ==> Sub(after, source) == Sub(before, source))
  }

  /** Staging failed: only the staging entry can be left over. */
  lemma StageFailed(before: Tree, after: Tree, source: Path, destination: Path, staging: Path, move: bool,
                    renamed: bool)
    requires EndsFit(before, source, destination, staging)
    requires Without(after, staging) == before && (staging !in after ==> after == before)
    ensures Fits(before, after, source, destination, staging, move, renamed, false)
  {
    StagingIsOutside(before, source, destination, staging);
    OutsideOne(before, after, staging);
    OutsideWider(before, after, {staging}, if move then {source, staging, destination} else {staging, destination});
    assert forall p | p in before :: p in after && after[p] == before[p];
    SubOfWithout(after, staging, destination);
    if Incomparable(source, destination) { SubOfWithout(after, staging, source); }
    HoldsSub(after, source, Carried(before, source, renamed));
  }

  lemma RenamePrunedOutside(before: Tree, middle: Tree, source: Path, destination: Path, staging: Path)
    requires Pruned(Moved(before, source, staging), middle, destination)
    ensures SameOutside(before, middle, {source, staging, destination})
  {
    MovedOutside(before, source, staging);
    PrunedOutside(Moved(before, source, staging), middle, destination);
    OutsideChain(before, Moved(before, source, staging), middle, {source, staging}, {destination});
    OutsideWider(before, middle, {source, staging} + {destination}, {source, staging, destination});
  }

  lemma RenameRolledOutside(before: Tree, middle: Tree, after: Tree, source: Path, destination: Path, staging: Path)
    requires Pruned(Moved(before, source, staging), middle, destination)
    requires after == middle || after == Moved(middle, staging, source)
    ensures SameOutside(before, after, {source, staging, destination})
  {
    RenamePrunedOutside(before, middle, source, destination, staging);
    if after != middle {
      var all := {source, staging, destination};
      MovedOutside(middle, staging, source);
      OutsideChain(before, middle, after, all, {staging, source});
      OutsideWider(before, after, all + {staging, source}, all);
    }
  }

  lemma RenameRolledSubs(before: Tree, middle: Tree, source: Path, destination: Path, staging: Path)
    requires SwapPlan(before, source, destination, staging)
    requires Pruned(Moved(before, source, staging), middle, destination)
    ensures Sub(middle, staging) == Sub(before, source)
    ensures Sub(Moved(middle, staging, source), source) == Sub(before, source)
  {
    PlanApart(before, source, destination, staging);
    MovedReads(before, source, staging);
    SubOfPruned(Moved(before, source, staging), middle, destination, staging);
    MovedReads(middle, staging, source);
  }

  lemma MovedFrom(tree: Tree, from: Path, to: Path, p: Path)
    requires from <= p && !(to <= p)
    ensures p !in Moved(tree, from, to)
  {
  }

  lemma RolledBackOrNot(before: Tree, middle: Tree, source: Path, destination: Path, staging: Path)
    requires SwapPlan(before, source, destination, staging)
    requires Pruned(Moved(before, source, staging), middle, destination)
    ensures staging in middle && staging !in Moved(middle, staging, source) && source !in middle
  {
    PlanApart(before, source, destination, staging);
    RenameRolledSubs(before, middle, source, destination, staging);
    assert source + [] == source && staging + [] == staging;
    assert [] in Sub(middle, staging);
    MovedFrom(middle, staging, source, staging);
    MovedFrom(before, source, staging, source);
  }

  lemma MovedElsewhere(tree: Tree, from: Path, to: Path, p: Path)
    requires !(from <= p) && !(to <= p)
    ensures p in Moved(tree, from, to) <==> p in tree
    ensures p in tree ==> Moved(tree, from, to)[p] == tree[p]
  {
  }

  lemma {:induction false} RestoredEntry(before: Tree, middle: Tree, source: Path, destination: Path, staging: Path,
                                         p: Path)
    requires SwapPlan(before, source, destination, staging) && Incomparable(source, destination)
    requires Pruned(Moved(before, source, staging), middle, destination)
    requires Sub(Moved(middle, staging, source), source) == Sub(before, source)
    ensures var after := Moved(middle, staging, source);
            && (p in after ==> p in before && after[p] == before[p])
            && (p in before && !(destination <= p) ==> p in after)
  {
    if source <= p {
      SameEntry(Moved(middle, staging, source), before, source, p);
    } else if staging <= p {
      NothingBelow(before, staging, p);
      MovedFrom(middle, staging, source, p);
    } else {
      MovedElsewhere(before, source, staging, p);
      MovedElsewhere(middle, staging, source, p);
    }
  }

  /** After the restore, all that is missing is a part of the old destination. */
  lemma {:induction false} RestoredIsPruned(before: Tree, middle: Tree, source: Path, destination: Path, staging: Path)
    requires SwapPlan(before, source, destination, staging) && Incomparable(source, destination)
    requires Pruned(Moved(before, source, staging), middle, destination)
    ensures Pruned(before, Moved(middle, staging, source), destination)
  {
    RenameRolledSubs(before, middle, source, destination, staging);
    var after := Moved(middle, staging, source);
    forall p ensures p in after ==> p in before && after[p] == before[p] {
      RestoredEntry(before, middle, source, destination, staging, p);
    }
    forall p | p in before && !(destination <= p) ensures p in after {
      RestoredEntry(before, middle, source, destination, staging, p);
    }
  }

  /** The swap failed after a rename: the entry is restored, or still complete at the staging path. */
  lemma {:induction false} SwapFailedAfterRename(before: Tree, middle: Tree, after: Tree, source: Path,
                                                 destination: Path,
                                                 staging: Path)
    requires SwapPlan(before, source, destination, staging)
    requires Pruned(Moved(before, source, staging), middle, destination)
    requires after == middle || after == Moved(middle, staging, source)
    ensures Fits(before, after, source, destination, staging, true, true, false)
    ensures staging in after <==> after == middle
    ensures staging in middle && staging !in Moved(middle, staging, source)
  {
    RenameRolledOutside(before, middle, after, source, destination, staging);
    RenameRolledSubs(before, middle, source, destination, staging);
    RolledBackOrNot(before, middle, source, destination, staging);
    HoldsSub(after, if after == middle then staging else source, Sub(before, source));
    if Incomparable(source, destination) {
      PlanApart(before, source, destination, staging);
      StagedFacts(before, source, destination, staging, true);
      LeftoverOfPruned(Moved(before, source, staging), middle, destination);
      SubOfMoved(middle, staging, source, destination);
      if after != middle {
        RestoredIsPruned(before, middle, source, destination, staging);
      }
    }
  }

  /** After a failed swap, only the loss of the source's own directory stands in the way of putting it back. */
  lemma StuckOnlyWithout(before: Tree, middle: Tree, source: Path, destination: Path, staging: Path)
    requires SwapPlan(before, source, destination, staging)
    requires Pruned(Moved(before, source, staging), middle, destination)
    requires !CanRename(middle, staging, source)
    ensures destination <= source && !IsDir(middle, Parent(source))
  {
    PlanApart(before, source, destination, staging);
    RolledBackOrNot(before, middle, source, destination, staging);
    assert !(staging <= Parent(source)) && !(source <= Parent(source));
    if Parent(source) != [] {
      MovedElsewhere(before, source, staging, Parent(source));
      assert destination <= Parent(source);
    }
  }

  lemma CopyRolledOutside(before: Tree, middle: Tree, after: Tree, source: Path, destination: Path, staging: Path)
    requires SwapPlan(before, source, destination, staging)
    requires Pruned(StagedTree(before, source, staging, false), middle, destination) && Pruned(middle, after, staging)
    ensures SameOutside(before, after, {staging, destination})
    ensures SameOutside(before, after, {source, staging, destination})
  {
    hide SameOutside, Graft, Sub, Without, Pruned, StagedTree, FileTree.WellFormed;
    var there := StagedTree(before, source, staging, false);
    StagedFacts(before, source, destination, staging, false);
    PrunedOutside(there, middle, destination);
    PrunedOutside(middle, after, staging);
    OutsideChain(before, there, middle, {staging}, {destination});
    OutsideChain(before, middle, after, {staging} + {destination}, {staging});
    assert {staging} + {destination} + {staging} == {staging, destination};
    OutsideWider(before, after, {staging, destination}, {source, staging, destination});
  }

  lemma GraftedBeside(before: Tree, staging: Path, sub: Tree)
    requires WellFormed(before) && staging != [] && staging !in before
    ensures Without(Graft(before, staging, sub), staging) == before
  {
    FreshIsEmpty(before, staging);
    GraftReads(before, staging, sub);
  }

  lemma CleanedIsPruned(before: Tree, there: Tree, middle: Tree, destination: Path, staging: Path)
    requires Without(there, staging) == before && Incomparable(staging, destination)
    requires Pruned(there, middle, destination)
    ensures Pruned(before, Without(middle, staging), destination)
  {
    var after := Without(middle, staging);
    forall p | p in after ensures p in before && after[p] == before[p] {
      assert p in Without(there, staging);
    }
    forall p | p in before && !(destination <= p) ensures p in after {
      assert p in Without(there, staging);
    }
  }

  /** The swap failed after a copy: the source was never touched. */
  lemma {:induction false} SwapFailedAfterCopy(before: Tree, middle: Tree, after: Tree, source: Path, destination: Path,
                                               staging: Path, move: bool)
    requires SwapPlan(before, source, destination, staging)
    requires Pruned(StagedTree(before, source, staging, false), middle, destination)
    requires Pruned(middle, after, staging) && (staging !in after ==> after == Without(middle, staging))
    ensures Fits(before, after, source, destination, staging, move, false, false)
  {
    CopyRolledOutside(before, middle, after, source, destination, staging);
    if Incomparable(source, destination) {
      var there := StagedTree(before, source, staging, false);
      PlanApart(before, source, destination, staging);
      StagedFacts(before, source, destination, staging, false);
      SubOfPruned(there, middle, destination, source);
      SubOfPruned(middle, after, staging, source);
      HoldsSub(after, source, Keep(Sub(before, source)));
      LeftoverOfPruned(there, middle, destination);
      SubOfPruned(middle, after, staging, destination);
      if staging !in after {
        GraftedBeside(before, staging, Keep(Sub(before, source)));
        CleanedIsPruned(before, there, middle, destination, staging);
      }
    }
  }

  /** The swap succeeded, and the source is where staging left it. */
  lemma {:induction false} Succeeded(before: Tree, source: Path, destination: Path, staging: Path, move: bool,
                                     renamed: bool)
    requires SwapPlan(before, source, destination, staging) && (renamed ==> move)
    ensures var there := StagedTree(before, source, staging, renamed);
            var after := Moved(Without(there, destination), staging, destination);
            && Fits(before, after, source, destination, staging, move, renamed, true)
            && (renamed && Incomparable(source, destination) ==> Sub(after, source) == map[])
  {
    hide StagedTree, Moved, Graft, Without, Sub, SameOutside, FileTree.WellFormed;
    var there := StagedTree(before, source, staging, renamed);
    var after := Moved(Without(there, destination), staging, destination);
    PlanApart(before, source, destination, staging);
    StagedFacts(before, source, destination, staging, renamed);
    SwappedFacts(there, source, destination, staging);
    SwappedOutside(there, destination, staging);
    var first := if renamed then {source, staging} else {staging};
    OutsideChain(before, there, after, first, {staging, destination});
    OutsideWider(before, after, first + {staging, destination},
                 if move then {source, staging, destination} else {staging, destination});
    HoldsSub(after, destination, Carried(before, source, renamed));
  }

  lemma SwappedPlaces(before: Tree, source: Path, destination: Path, staging: Path, renamed: bool)
    requires SwapPlan(before, source, destination, staging)
    ensures var there := StagedTree(before, source, staging, renamed);
            var after := Moved(Without(there, destination), staging, destination);
            && staging !in after
            && (!renamed && Incomparable(source, destination) ==> source in after)
  {
    hide StagedTree, Moved, Graft, Without, SameOutside, FileTree.WellFormed;
    PlanApart(before, source, destination, staging);
    var there := StagedTree(before, source, staging, renamed);
    StagedFacts(before, source, destination, staging, renamed);
    SwappedFacts(there, source, destination, staging);
    assert staging + [] == staging && source + [] == source;
    assert [] in Sub(before, source);
    assert [] !in Sub(Moved(Without(there, destination), staging, destination), staging);
  }

  /** A cross-device MOVE takes the source away last; however much of it goes, the destination is complete. */
  lemma {:induction false} SourceTakenAway(before: Tree, there: Tree, after: Tree, source: Path, destination: Path,
                                           staging: Path)
    requires SwapPlan(before, source, destination, staging)
    requires Fits(before, there, source, destination, staging, true, false, true)
    requires Pruned(there, after, source) && Incomparable(source, destination)
    ensures Fits(before, after, source, destination, staging, true, false, true)
  {
    PlanApart(before, source, destination, staging);
    SubOfPruned(there, after, source, destination);
    SubOfPruned(there, after, source, staging);
    LeftoverOfPruned(there, after, source);
    PrunedOutside(there, after, source);
    OutsideChain(before, there, after, {source, staging, destination}, {source});
    OutsideWider(before, after, {source, staging, destination} + {source}, {source, staging, destination});
    HoldsSub(after, destination, Keep(Sub(before, source)));
  }

  /** The source of a cross-device MOVE is gone, wholly or in part. */
  lemma TakenAway(before: Tree, there: Tree, after: Tree, source: Path, destination: Path, staging: Path, whole: bool)
    requires SwapPlan(before, source, destination, staging)
    requires Fits(before, there, source, destination, staging, true, false, true)
    requires staging !in there && Pruned(there, after, source) && (whole ==> after == Without(there, source))
    ensures staging !in after
    ensures Fits(before, after, source, destination, staging, true, false, true)
    ensures whole ==> Sub(after, source) == map[]
  {
    if Incomparable(source, destination) {
      SourceTakenAway(before, there, after, source, destination, staging);
    } else {
      PrunedOutside(there, after, source);
      OutsideChain(before, there, after, {source, staging, destination}, {source});
      OutsideWider(before, after, {source, staging, destination} + {source}, {source, staging, destination});
    }
  }

  /** A destination that was missing before staging is still missing after it, and cannot hold the source. */
  lemma MissingDestination(before: Tree, source: Path, destination: Path, staging: Path, renamed: bool)
    requires SwapPlan(before, source, destination, staging) && destination !in before
    ensures Incomparable(source, destination) && destination !in StagedTree(before, source, staging, renamed)
  {
    if destination <= source {
      NothingBelow(before, destination, source);
    }
    StagedFacts(before, source, destination, staging, renamed);
    SameEntry(StagedTree(before, source, staging, renamed), before, destination, destination);
  }

  /** Staging leaves a destination that existed, and the directory both are in. */
  lemma ReadyToSwap(before: Tree, source: Path, destination: Path, staging: Path, renamed: bool)
    requires SwapPlan(before, source, destination, staging)
    requires !renamed ==> Copyable(before, source)
    ensures var there := StagedTree(before, source, staging, renamed);
            && staging in there
            && (destination in before ==> destination in there)
            && (FileTree.WellFormed(there) ==> IsDir(there, Parent(destination)))
  {
    PlanApart(before, source, destination, staging);
    var there := StagedTree(before, source, staging, renamed);
    assert staging + [] == staging && staging[|staging|..] == [] && source + [] == source;
  }

  lemma NothingToPrune(before: Tree, after: Tree, at: Path)
    requires WellFormed(before) && at != [] && at !in before && Pruned(before, after, at)
    ensures after == before
  {
    FreshIsEmpty(before, at);
    forall p ensures p in after <==> p in before {
      assert p in before ==> p in Without(before, at);
    }
  }

  /** The way out of a copy whose last rename fails: the old destination removed, then the staging entry. */
  ghost function AbandonedCopy(before: Tree, source: Path, destination: Path, staging: Path): Tree {
    Without(Without(StagedTree(before, source, staging, false), destination), staging)
  }

  /**
   Replacing an existing destination is not atomic: if the rename behind a COPY fails after
   the old destination has been removed, dropping the guard leaves the tree without it.
   (With no destination to replace, `Transfer` does leave the tree as it was.)
   */
  lemma OverwriteLosesDestination(before: Tree, source: Path, destination: Path, staging: Path)
    requires SwapPlan(before, source, destination, staging) && destination in before
    ensures AbandonedCopy(before, source, destination, staging) == Without(before, destination) != before
  {
    GraftedBeside(before, staging, Keep(Sub(before, source)));
    WithoutTwice(StagedTree(before, source, staging, false), destination, staging);
    assert destination !in Without(before, destination);
  }

  lemma CarriesItself(before: Tree, source: Path)
    requires Copyable(before, source)
    ensures [] in Carried(before, source, false)
  {
    assert source + [] == source;
  }

  lemma GoneEverywhere(after: Tree, sub: Tree, source: Path, staging: Path, destination: Path)
    requires [] in sub && source !in after && staging !in after && destination !in after
    ensures !Conserved(after, sub, source, staging, destination)
  {
    assert source + [] == source && staging + [] == staging && destination + [] == destination;
  }

  /** On that way out the source survives exactly when it does not lie in the destination. */
  lemma AbandonedCopyConservesIff(before: Tree, source: Path, destination: Path, staging: Path)
    requires SwapPlan(before, source, destination, staging) && destination in before && Copyable(before, source)
    ensures var after := AbandonedCopy(before, source, destination, staging);
            Conserved(after, Carried(before, source, false), source, staging, destination) <==> !(destination <= source)
  {
    if destination <= source {
      hide Carried, AbandonedCopy, SameOutside, Fits;
      OverwriteLosesDestination(before, source, destination, staging);
      CarriesItself(before, source);
      GoneEverywhere(Without(before, destination), Carried(before, source, false), source, staging, destination);
    } else {
      var middle := Without(StagedTree(before, source, staging, false), destination);
      SwapFailedAfterCopy(before, middle, Without(middle, staging), source, destination, staging, false);
    }
  }

  /** A copied MOVE leaves the whole source at the destination exactly when it held no special file. */
  lemma CrossDeviceIsWholeIff(before: Tree, source: Path, destination: Path, staging: Path)
    requires SwapPlan(before, source, destination, staging) && Copyable(before, source)
    ensures var there := StagedTree(before, source, staging, false);
            Sub(Moved(Without(there, destination), staging, destination), destination) == Sub(before, source) <==>
            forall q | q in Sub(before, source) :: !Sub(before, source)[q].Special?
  {
    hide StagedTree, Moved, Graft, Without, Sub, SameOutside, FileTree.WellFormed;
    PlanApart(before, source, destination, staging);
    StagedFacts(before, source, destination, staging, false);
    SwappedFacts(StagedTree(before, source, staging, false), source, destination, staging);
    var sub := Sub(before, source);
    assert forall q | q in sub :: q in Keep(sub) <==> !sub[q].Special?;
  }

  lemma TakenFromItself(after: Tree, source: Path, destination: Path)
    requires destination <= source && source in after
    ensures !Holds(Without(after, source), destination, Sub(after, destination))
  {
    var r := source[|destination|..];
    assert destination + r == source && r in Sub(after, destination);
    assert source !in Without(after, source);
  }

  /**
   A MOVE across devices onto a folder its source is in cannot end well: either its last call
   finds no source to remove, or removing it takes away part of what was just brought.
   */
  lemma MoveOntoAncestorDevours(before: Tree, source: Path, destination: Path, staging: Path)
    requires SwapPlan(before, source, destination, staging) && destination <= source
    ensures var carried := Carried(before, source, false);
            var after := Moved(Without(StagedTree(before, source, staging, false), destination), staging, destination);
            source in after ==> !Holds(Without(after, source), destination, carried)
  {
    hide Moved, Graft, Sub, Without, Holds, StagedTree, Carried, SameOutside, FileTree.WellFormed;
    PlanApart(before, source, destination, staging);
    StagedFacts(before, source, destination, staging, false);
    SwappedFacts(StagedTree(before, source, staging, false), source, destination, staging);
    var after := Moved(Without(StagedTree(before, source, staging, false), destination), staging, destination);
    if source in after { TakenFromItself(after, source, destination); }
  }

  // ---------------------------------------------------------------------------
  // What is left behind
  // ---------------------------------------------------------------------------

  /**
   A staging entry left behind is the renamed source, or a part of the copy: files and
   directories, and entries of the source unless the copy ran into itself. And no symbolic
   link is anywhere where there was none, unless a renamed source holds one.
   */
  ghost predicate Tidy(before: Tree, after: Tree, source: Path, staging: Path, renamed: bool) {
    && (staging in after ==>
          if renamed then Sub(after, staging) == Sub(before, source)
          else
            && Material(Sub(after, staging))
            && (!(source <= staging) ==> Partial(Sub(after, staging), Sub(before, source))))
    && ((renamed ==> HasNoLink(Sub(before, source))) ==> FewerLinks(before, after))
  }

  lemma PrunedHasFewerLinks(before: Tree, middle: Tree, after: Tree, at: Path)
    requires FewerLinks(before, middle) && Pruned(middle, after, at)
    ensures FewerLinks(before, after)
  {
  }

  lemma MovedHasFewerLinks(before: Tree, middle: Tree, from: Path, to: Path)
    requires FewerLinks(before, middle) && HasNoLink(Sub(middle, from))
    ensures FewerLinks(before, Moved(middle, from, to))
  {
    var after := Moved(middle, from, to);
    forall p | IsLink(after, p) ensures IsLink(before, p) {
      assert !(to <= p) && IsLink(middle, p);
    }
  }

  lemma SubAt(tree: Tree, at: Path, p: Path)
    requires at <= p && p in tree
    ensures p[|at|..] in Sub(tree, at) && Sub(tree, at)[p[|at|..]] == tree[p]
  {
    assert p == at + p[|at|..];
  }

  lemma GrownHasFewerLinks(before: Tree, after: Tree, at: Path)
    requires Growing(before, after, at)
    ensures FewerLinks(before, after)
  {
    forall p | IsLink(after, p) ensures IsLink(before, p) {
      assert !(at <= p) by {
        if at <= p { SubAt(after, at, p); }
      }
      assert p in Without(after, at);
    }
  }

  lemma PrunedIsTidy(before: Tree, middle: Tree, after: Tree, source: Path, staging: Path)
    requires Pruned(middle, after, staging)
    requires Material(Sub(middle, staging)) && FewerLinks(before, middle)
    requires !(source <= staging) ==> Partial(Sub(middle, staging), Sub(before, source))
    ensures Tidy(before, after, source, staging, false)
  {
    PrunedHasFewerLinks(before, middle, after, staging);
    LeftoverOfPruned(middle, after, staging);
  }

  /** Staging failed, and the guard has been dropped. */
  lemma StageFailedTidy(before: Tree, middle: Tree, after: Tree, source: Path, staging: Path, renamed: bool)
    requires Growing(before, middle, staging) && (renamed ==> middle == before && staging !in before)
    requires !(source <= staging) ==> Partial(Sub(middle, staging), Sub(before, source))
    requires Pruned(middle, after, staging)
    ensures Tidy(before, after, source, staging, renamed)
  {
    GrownHasFewerLinks(before, middle, staging);
    PrunedIsTidy(before, middle, after, source, staging);
  }

  lemma CopyIsTidy(before: Tree, source: Path, destination: Path, staging: Path)
    requires SwapPlan(before, source, destination, staging)
    ensures var there := StagedTree(before, source, staging, false);
            && FewerLinks(before, there) && Material(Sub(there, staging)) && HasNoLink(Sub(there, staging))
            && Partial(Sub(there, staging), Sub(before, source))
  {
    var sub := Keep(Sub(before, source));
    GraftReads(before, staging, sub);
    GraftedBeside(before, staging, sub);
    GrownHasFewerLinks(before, Graft(before, staging, sub), staging);
  }

  lemma RenameIsTidy(before: Tree, source: Path, destination: Path, staging: Path)
    requires SwapPlan(before, source, destination, staging) && HasNoLink(Sub(before, source))
    ensures var there := StagedTree(before, source, staging, true);
            FewerLinks(before, there) && HasNoLink(Sub(there, staging))
  {
    StagedFacts(before, source, destination, staging, true);
    MovedHasFewerLinks(before, before, source, staging);
  }

  lemma StagedIsMoved(before: Tree, source: Path, staging: Path)
    ensures StagedTree(before, source, staging, true) == Moved(before, source, staging)
  {
  }

  /** The swap failed, and the guard has been dropped. */
  lemma RollBackTidy(before: Tree, middle: Tree, after: Tree, source: Path, destination: Path, staging: Path,
                     renamed: bool)
    requires SwapPlan(before, source, destination, staging)
    requires Pruned(StagedTree(before, source, staging, renamed), middle, destination)
    requires if renamed then after == middle || after == Moved(middle, staging, source)
             else Pruned(middle, after, staging)
    ensures Tidy(before, after, source, staging, renamed)
  {
    hide StagedTree, Graft, Moved, Sub, Pruned, Partial, FewerLinks;
    PlanApart(before, source, destination, staging);
    var there := StagedTree(before, source, staging, renamed);
    SubOfPruned(there, middle, destination, staging);
    if renamed {
      assert there == Moved(before, source, staging) by { StagedIsMoved(before, source, staging); }
      RenameRolledSubs(before, middle, source, destination, staging);
      RolledBackOrNot(before, middle, source, destination, staging);
      if HasNoLink(Sub(before, source)) {
        RenameIsTidy(before, source, destination, staging);
        PrunedHasFewerLinks(before, there, middle, destination);
        if after != middle { MovedHasFewerLinks(before, middle, staging, source); }
      }
    } else {
      CopyIsTidy(before, source, destination, staging);
      PrunedHasFewerLinks(before, there, middle, destination);
      PrunedIsTidy(before, middle, after, source, staging);
    }
  }

  /** The swap succeeded, and possibly some of the source has been taken away. */
  lemma SwappedTidy(before: Tree, after: Tree, source: Path, destination: Path, staging: Path, renamed: bool)
    requires SwapPlan(before, source, destination, staging)
    requires var there := StagedTree(before, source, staging, renamed);
             Pruned(Moved(Without(there, destination), staging, destination), after, source)
    ensures Tidy(before, after, source, staging, renamed)
  {
    hide StagedTree, Graft, Moved, Sub, Without, Partial, FewerLinks, Material;
    PlanApart(before, source, destination, staging);
    var there := StagedTree(before, source, staging, renamed);
    var cleared := Without(there, destination);
    SwappedPlaces(before, source, destination, staging, renamed);
    if renamed ==> HasNoLink(Sub(before, source)) {
      if renamed {
        RenameIsTidy(before, source, destination, staging);
      } else {
        CopyIsTidy(before, source, destination, staging);
      }
      WithoutIsPruned(there, destination);
      PrunedHasFewerLinks(before, there, cleared, destination);
      SubOfWithout(there, destination, staging);
      MovedHasFewerLinks(before, cleared, staging, destination);
      PrunedHasFewerLinks(before, Moved(cleared, staging, destination), after, source);
    }
  }

  // ---------------------------------------------------------------------------
  // The transfer
  // ---------------------------------------------------------------------------

  /** A MOVE within one device is a rename. */
  predicate ByRename(disk: Disk, source: Path, staging: Path, move: bool)
    requires staging != [] && (move ==> source != [])
  {
    move && SameDevice(disk.devices, source, staging)
  }

  lemma NotBelow(a: Path, p: Path)
    requires p != [] && a != p && !(a <= Parent(p))
    ensures !(a <= p)
  {
    assert |a| < |p| ==> p[..|p| - 1][..|a|] == p[..|a|];
  }

  lemma RenamedApart(tree: Tree, source: Path, staging: Path)
    requires CopyPlan(tree, source, staging) && CanRename(tree, source, staging)
    ensures !(source <= staging)
  {
    NotBelow(source, staging);
  }

  /** Move or copy the source to the staging path; a MOVE across filesystems falls back to a copy. */
  method Stage(disk: Disk, staged: Staged, source: Path, staging: Path, move: bool)
    returns (r: IoResult, removeSourceAfter: bool)
    requires disk.Valid() && CopyPlan(disk.tree, source, staging) && (move ==> source != [])
    requires staged.path == staging && staged.restoreTo == None
    modifies disk, staged`restoreTo
    ensures disk.Valid() && disk.faults >= old(disk.faults)
    ensures staged.restoreTo == if r.IoOk? && ByRename(disk, source, staging, move) then Some(source) else None
    ensures r.IoOk? ==> removeSourceAfter == (move && !ByRename(disk, source, staging, move))
    ensures r.IoOk? ==> disk.tree == StagedTree(old(disk.tree), source, staging, ByRename(disk, source, staging, move))
    ensures r.IoOk? && !ByRename(disk, source, staging, move) ==> Copyable(old(disk.tree), source)
    ensures r.IoOk? ==> !(source <= staging) && disk.faults == old(disk.faults) && disk.log == old(disk.log)
    ensures r.IoErr? ==> Growing(old(disk.tree), disk.tree, staging)
    ensures r.IoErr? && !(source <= staging) ==> Partial(Sub(disk.tree, staging), Sub(old(disk.tree), source))
    ensures r.IoErr? && ByRename(disk, source, staging, move) ==> disk.tree == old(disk.tree)
    ensures r.IoErr? && disk.faults == old(disk.faults) ==>
              !(IsDir(old(disk.tree), Parent(staging)) && !(source <= staging)
                && (ByRename(disk, source, staging, move) || Copyable(old(disk.tree), source)))
    ensures (&& r.IoErr? && disk.faults == old(disk.faults) && !ByRename(disk, source, staging, move)
             && IsDir(old(disk.tree), Parent(staging)) && !(source <= staging)) ==>
              r.error == CopyError(old(disk.tree), source)
  {
    hide Moved, Graft, Without, Sub, Keep, Growing, Partial, Copyable, FileTree.WellFormed;
    removeSourceAfter := false;
    NothingThere(disk.tree, staging, Sub(disk.tree, source));
    if move {
      ghost var before := disk.tree;
      r := disk.Rename(source, staging);
      if r.IoOk? {
        RenamedApart(before, source, staging);
        staged.restoreTo := Some(source);
      } else if r.error == CrossDevice {
        removeSourceAfter := true;
        r := CopyEntry.CopyEntry(disk, source, staging);
      }
    } else {
      r := CopyEntry.CopyEntry(disk, source, staging);
    }
  }

  /** What Transfer needs to succeed if no call fails. */
  ghost predicate Feasible(before: Tree, source: Path, destination: Path, move: bool, renamed: bool)
    requires destination != []
  {
    && IsDir(before, Parent(destination)) && !(source <= destination)
    && (renamed || (Copyable(before, source) && (move ==> !(destination <= source))))
  }

  /**
   Why a staging entry may be left: clearing it away is the very call that failed, or the
   directory a renamed source has to go back to went with the old destination.
   */
  ghost predicate LeftForAReason(disk: Disk, since: nat, source: Path, destination: Path, staging: Path, renamed: bool)
    requires renamed ==> source != []
    reads disk
  {
    if renamed then
      disk.FailedLast(since, Renaming(staging, source)) || (destination <= source && !IsDir(disk.tree, Parent(source)))
    else
      disk.RemovalFailed(since, staging)
  }

  // ---------------------------------------------------------------------------
  // The old destination
  // ---------------------------------------------------------------------------

  /** Nothing but the staging path has changed, which may hold a renamed source. */
  ghost predicate Untouched(before: Tree, after: Tree, source: Path, staging: Path, renamed: bool) {
    Without(after, staging) == before || (renamed && Without(after, staging) == Without(before, source))
  }

  /**
   The old destination is only touched once the source has been staged whole, and only lost if
   the first call to fail, number `first`, is one of the swap itself.
   */
  ghost predicate ReplacedLast(before: Tree, after: Tree, earlier: Log, log: Log, first: nat, faults: nat,
                               source: Path, destination: Path, staging: Path, renamed: bool) {
    || Untouched(before, after, source, staging, renamed)
    || (&& SwapFailed(log, first, faults, staging, destination) && Remembers(earlier, log, first)
        && !(source <= destination) && (renamed || Copyable(before, source)))
  }

  lemma {:induction false} MovedBackEntry(before: Tree, source: Path, staging: Path, p: Path)
    requires WellFormed(before) && source != [] && staging != [] && staging !in before && Incomparable(source, staging)
    ensures var back := Moved(Moved(before, source, staging), staging, source);
            (p in back <==> p in before) && (p in before ==> back[p] == before[p])
  {
    hide Moved, Sub;
    var there := Moved(before, source, staging);
    if source <= p {
      MovedReads(before, source, staging);
      MovedReads(there, staging, source);
      SameEntry(Moved(there, staging, source), before, source, p);
    } else if staging <= p {
      NothingBelow(before, staging, p);
      MovedFrom(there, staging, source, p);
    } else {
      MovedElsewhere(before, source, staging, p);
      MovedElsewhere(there, staging, source, p);
    }
  }

  /** A rename is undone by renaming back. */
  lemma MovedBack(before: Tree, source: Path, staging: Path)
    requires WellFormed(before) && source != [] && staging != [] && staging !in before && Incomparable(source, staging)
    ensures Moved(Moved(before, source, staging), staging, source) == before
  {
    hide Moved, Graft, Without, Sub, Incomparable, FileTree.WellFormed;
    var back := Moved(Moved(before, source, staging), staging, source);
    forall p ensures (p in back <==> p in before) && (p in before ==> back[p] == before[p]) {
      MovedBackEntry(before, source, staging, p);
    }
  }

  lemma MovedAside(before: Tree, source: Path, staging: Path)
    requires WellFormed(before) && staging != [] && staging !in before
    ensures Without(Moved(before, source, staging), staging) == Without(before, source)
  {
    hide Graft, Without, Sub, FileTree.WellFormed;
    FreshIsEmpty(before, staging);
    GraftReads(Without(before, source), staging, Sub(before, source));
    WithoutTwice(before, source, staging);
  }

  /** A swap that failed without taking anything, and the guard dropped after it. */
  lemma RolledBackUntouched(before: Tree, after: Tree, source: Path, destination: Path, staging: Path, renamed: bool)
    requires SwapPlan(before, source, destination, staging)
    requires var there := StagedTree(before, source, staging, renamed);
             if renamed then after == there || after == Moved(there, staging, source) else Pruned(there, after, staging)
    ensures Untouched(before, after, source, staging, renamed)
  {
    hide Moved, Graft, Without, Sub, Keep, Pruned, SameOutside, FileTree.WellFormed;
    PlanApart(before, source, destination, staging);
    FreshIsEmpty(before, staging);
    if renamed {
      MovedBack(before, source, staging);
      MovedAside(before, source, staging);
    } else {
      GraftedBeside(before, staging, Keep(Sub(before, source)));
      PrunedOutside(StagedTree(before, source, staging, false), after, staging);
    }
  }

  /** Then the destination is as it was. */
  lemma UntouchedDestination(before: Tree, after: Tree, source: Path, destination: Path, staging: Path, renamed: bool)
    requires EndsFit(before, source, destination, staging) && Incomparable(source, destination)
    requires Untouched(before, after, source, staging, renamed)
    ensures Sub(after, destination) == Sub(before, destination)
  {
    StagingIsOutside(before, source, destination, staging);
    SubOfWithout(after, staging, destination);
    SubOfWithout(before, source, destination);
  }

  lemma LeftSince(disk: Disk, early: nat, since: nat, source: Path, destination: Path, staging: Path, renamed: bool)
    requires (renamed ==> source != []) && early <= since
    requires LeftForAReason(disk, since, source, destination, staging, renamed)
    ensures LeftForAReason(disk, early, source, destination, staging, renamed)
  {
  }

  lemma FitsMissing(before: Tree, after: Tree, source: Path, destination: Path, staging: Path, move: bool,
                    renamed: bool)
    requires SwapPlan(before, source, destination, staging) && Incomparable(source, destination)
    requires Fits(before, after, source, destination, staging, move, renamed, false)
    requires destination !in before && staging !in after
    ensures after == before
  {
    NothingToPrune(before, after, destination);
  }

  /** The guard is dropped after the swap has failed. */
  method RollBack(disk: Disk, guard: Staged, ghost before: Tree, source: Path, destination: Path, staging: Path,
                  move: bool)
    requires disk.Valid() && SwapPlan(before, source, destination, staging)
    requires var renamed := ByRename(disk, source, staging, move);
             && Pruned(StagedTree(before, source, staging, renamed), disk.tree, destination)
             && guard.restoreTo == if renamed then Some(source) else None
    requires guard.path == staging && !guard.kept
    modifies disk
    ensures disk.Valid() && disk.faults >= old(disk.faults)
    ensures var renamed := ByRename(disk, source, staging, move);
            && Fits(before, disk.tree, source, destination, staging, move, renamed, false)
            && Tidy(before, disk.tree, source, staging, renamed)
            && (staging in disk.tree ==> LeftForAReason(disk, old(disk.faults), source, destination, staging, renamed))
    ensures destination !in before && staging !in disk.tree ==> disk.tree == before
    ensures var renamed := ByRename(disk, source, staging, move);
            old(disk.tree) == StagedTree(before, source, staging, renamed) ==>
              Untouched(before, disk.tree, source, staging, renamed)
    ensures Remembers(old(disk.log), disk.log, old(disk.faults))
  {
    hide Fits, Tidy, SameOutside, Sub, Graft, Moved, Without, Keep, Copyable, Pruned, Untouched, Remembers,
      FileTree.WellFormed;
    ghost var middle := disk.tree;
    guard.Drop(disk);
    if middle == StagedTree(before, source, staging, ByRename(disk, source, staging, move)) {
      RolledBackUntouched(before, disk.tree, source, destination, staging, ByRename(disk, source, staging, move));
    }
    RollBackTidy(before, middle, disk.tree, source, destination, staging, ByRename(disk, source, staging, move));
    if guard.restoreTo.Some? {
      SwapFailedAfterRename(before, middle, disk.tree, source, destination, staging);
      if !CanRename(middle, staging, source) { StuckOnlyWithout(before, middle, source, destination, staging); }
    } else {
      SwapFailedAfterCopy(before, middle, disk.tree, source, destination, staging, move);
    }
    if destination !in before && staging !in disk.tree {
      MissingDestination(before, source, destination, staging, false);
      FitsMissing(before, disk.tree, source, destination, staging, move, ByRename(disk, source, staging, move));
    }
  }

  /** The guard is dropped after staging has failed. */
  method CallOff(disk: Disk, guard: Staged, ghost before: Tree, source: Path, destination: Path, staging: Path,
                 move: bool)
    requires disk.Valid() && EndsFit(before, source, destination, staging) && (move ==> source != [])
    requires Growing(before, disk.tree, staging) && (ByRename(disk, source, staging, move) ==> disk.tree == before)
    requires !(source <= staging) ==> Partial(Sub(disk.tree, staging), Sub(before, source))
    requires guard.path == staging && !guard.kept && guard.restoreTo == None
    modifies disk
    ensures disk.Valid() && disk.faults >= old(disk.faults)
    ensures var renamed := ByRename(disk, source, staging, move);
            && Fits(before, disk.tree, source, destination, staging, move, renamed, false)
            && Tidy(before, disk.tree, source, staging, renamed)
            && (staging in disk.tree ==> !renamed && disk.RemovalFailed(old(disk.faults), staging))
    ensures Without(disk.tree, staging) == before && (staging !in disk.tree ==> disk.tree == before)
    ensures Untouched(before, disk.tree, source, staging, ByRename(disk, source, staging, move))
  {
    hide Fits, Tidy, SameOutside, Sub, Without, Pruned, Partial, Material, FileTree.WellFormed;
    ghost var renamed := ByRename(disk, source, staging, move);
    ghost var middle := disk.tree;
    guard.Drop(disk);
    PrunedOutside(middle, disk.tree, staging);
    StageFailedTidy(before, middle, disk.tree, source, staging, renamed);
    StageFailed(before, disk.tree, source, destination, staging, move, renamed);
  }

  /** The swap of a source that has been staged. If it fails, the guard is dropped; if not, it is kept. */
  method SwapOrRollBack(disk: Disk, guard: Staged, ghost before: Tree, source: Path, destination: Path, staging: Path,
                        move: bool, existed: bool) returns (r: IoResult)
    requires disk.Valid() && SwapPlan(before, source, destination, staging) && (existed ==> destination in before)
    requires var renamed := ByRename(disk, source, staging, move);
             && disk.tree == StagedTree(before, source, staging, renamed) && (!renamed ==> Copyable(before, source))
             && guard.restoreTo == if renamed then Some(source) else None
    requires guard.path == staging && !guard.kept
    modifies disk, guard`kept
    ensures disk.Valid() && disk.faults >= old(disk.faults)
    ensures r.IoOk? ==> disk.tree == Moved(Without(old(disk.tree), destination), staging, destination)
    ensures r.IoErr? ==>
              var renamed := ByRename(disk, source, staging, move);
              && Fits(before, disk.tree, source, destination, staging, move, renamed, false)
              && Tidy(before, disk.tree, source, staging, renamed)
              && (staging in disk.tree ==>
                    LeftForAReason(disk, old(disk.faults), source, destination, staging, renamed))
              && (Untouched(before, disk.tree, source, staging, renamed)
                  || (SwapFailed(disk.log, old(disk.faults), disk.faults, staging, destination)
                      && Remembers(old(disk.log), disk.log, old(disk.faults))))
    ensures r.IoErr? && staging !in disk.tree && destination !in before ==> disk.tree == before
    ensures r.IoErr? && (existed || destination !in before) ==> disk.faults > old(disk.faults)
  {
    hide Fits, Tidy, Sub, Graft, Moved, Without, Keep, Copyable, Pruned, StagedTree, Untouched, LeftForAReason,
      Remembers, FileTree.WellFormed;
    ghost var renamed := ByRename(disk, source, staging, move);
    PlanApart(before, source, destination, staging);
    if destination !in before { MissingDestination(before, source, destination, staging, renamed); }
    ReadyToSwap(before, source, destination, staging, renamed);
    r := Swap(disk, staging, destination, existed);
    if r.IoErr? {
      ghost var log, faults := disk.log, disk.faults;
      RollBack(disk, guard, before, source, destination, staging, move);
      RemembersOn(old(disk.log), log, disk.log, old(disk.faults), faults);
      if SwapFailed(log, old(disk.faults), faults, staging, destination) {
        SwapStillFailed(log, disk.log, old(disk.faults), faults, disk.faults, staging, destination);
      }
      if staging in disk.tree {
        LeftSince(disk, old(disk.faults), faults, source, destination, staging, renamed);
      }
    } else {
      guard.Keep();
    }
  }

  /** Staging and the swap. If one of them fails, the guard is dropped; if not, it is kept. */
  method Replace(disk: Disk, source: Path, destination: Path, staging: Path, move: bool, existed: bool)
    returns (r: IoResult, removeSourceAfter: bool)
    requires disk.Valid() && EndsFit(disk.tree, source, destination, staging) && (move ==> source != [])
    requires existed ==> destination in disk.tree
    modifies disk
    ensures disk.Valid() && disk.faults >= old(disk.faults)
    ensures r.IoOk? ==> SwapPlan(old(disk.tree), source, destination, staging)
    ensures r.IoOk? ==> removeSourceAfter == (move && !ByRename(disk, source, staging, move))
    ensures r.IoOk? && !ByRename(disk, source, staging, move) ==> Copyable(old(disk.tree), source)
    ensures r.IoOk? ==>
              var there := StagedTree(old(disk.tree), source, staging, ByRename(disk, source, staging, move));
              disk.tree == Moved(Without(there, destination), staging, destination)
    ensures r.IoErr? ==>
              var renamed := ByRename(disk, source, staging, move);
              && Fits(old(disk.tree), disk.tree, source, destination, staging, move, renamed, false)
              && Tidy(old(disk.tree), disk.tree, source, staging, renamed)
              && (staging in disk.tree ==>
                    LeftForAReason(disk, old(disk.faults), source, destination, staging, renamed))
    ensures r.IoErr? ==>
              ReplacedLast(old(disk.tree), disk.tree, old(disk.log), disk.log, old(disk.faults), disk.faults, source,
                           destination, staging, ByRename(disk, source, staging, move))
    ensures r.IoErr? && source <= destination ==> Without(disk.tree, staging) == old(disk.tree)
    ensures r.IoErr? && staging !in disk.tree && destination !in old(disk.tree) ==> disk.tree == old(disk.tree)
    ensures r.IoErr? && disk.faults == old(disk.faults) && (existed || destination !in old(disk.tree)) ==>
              && disk.tree == old(disk.tree)
              && !Feasible(old(disk.tree), source, destination, move, ByRename(disk, source, staging, move))
    ensures (&& r.IoErr? && disk.faults == old(disk.faults) && (existed || destination !in old(disk.tree))
             && !ByRename(disk, source, staging, move)
             && IsDir(old(disk.tree), Parent(destination)) && !(source <= destination)) ==>
              r.error == CopyError(old(disk.tree), source)
  {
    hide Fits, Tidy, Sub, Graft, Moved, Without, Keep, Copyable, Pruned, Partial, Growing, StagedTree, SwapFailed,
      Untouched, Remembers, FileTree.WellFormed;
    ghost var before := disk.tree;
    ghost var renamed := ByRename(disk, source, staging, move);
    StagingIsOutside(before, source, destination, staging);
    var guard := new Staged(staging);
    r, removeSourceAfter := Stage(disk, guard, source, staging, move);
    if r.IoErr? {
      CallOff(disk, guard, before, source, destination, staging, move);
      return;
    }
    r := SwapOrRollBack(disk, guard, before, source, destination, staging, move, existed);
  }

  /** What follows the swap: a source that was copied in place of a rename is removed. */
  method Finish(disk: Disk, ghost before: Tree, source: Path, destination: Path, ghost staging: Path,
                removeSourceAfter: bool, ghost renamed: bool) returns (r: IoResult)
    requires disk.Valid() && SwapPlan(before, source, destination, staging)
    requires var there := StagedTree(before, source, staging, renamed);
             disk.tree == Moved(Without(there, destination), staging, destination)
    requires removeSourceAfter ==> !renamed
    modifies disk
    ensures disk.Valid() && disk.faults >= old(disk.faults) && staging !in disk.tree
    ensures var move := removeSourceAfter || renamed;
            Fits(before, disk.tree, source, destination, staging, move, renamed, true)
    ensures Tidy(before, disk.tree, source, staging, renamed)
    ensures r.IoErr? ==> removeSourceAfter
    ensures r.IoErr? ==> disk.RemovalFailed(old(disk.faults), source) || destination <= source
    ensures r.IoOk? && (removeSourceAfter || renamed) && Incomparable(source, destination) ==>
              Sub(disk.tree, source) == map[]
  {
    hide Fits, Tidy, Sub, Graft, Moved, Without, StagedTree, Pruned, FileTree.WellFormed;
    ghost var complete := disk.tree;
    Succeeded(before, source, destination, staging, removeSourceAfter || renamed, renamed);
    SwappedPlaces(before, source, destination, staging, renamed);
    NothingPruned(complete, source);
    r := IoOk;
    if removeSourceAfter {
      PlanApart(before, source, destination, staging);
      r := disk.RemoveEntry(source);
      TakenAway(before, complete, disk.tree, source, destination, staging, r.IoOk?);
    }
    SwappedTidy(before, disk.tree, source, destination, staging, renamed);
  }

  /**
   COPY or MOVE, from staging to the end. Whichever call fails, the ends fit; if none does,
   an error leaves the tree as it was, and whatever is feasible succeeds. A destination in the
   source, let through by a failing `is_dir`, ends in an error before the swap.
   */
  method Transfer(disk: Disk, source: Path, destination: Path, staging: Path, move: bool, existed: bool)
    returns (r: IoResult, ghost swapped: bool)
    requires disk.Valid() && EndsFit(disk.tree, source, destination, staging) && (move ==> source != [])
    requires existed ==> destination in disk.tree
    modifies disk
    ensures disk.Valid() && disk.faults >= old(disk.faults)
    ensures Fits(old(disk.tree), disk.tree, source, destination, staging, move,
                 ByRename(disk, source, staging, move), swapped)
    ensures Tidy(old(disk.tree), disk.tree, source, staging, ByRename(disk, source, staging, move))
    ensures !swapped ==>
              ReplacedLast(old(disk.tree), disk.tree, old(disk.log), disk.log, old(disk.faults), disk.faults, source,
                           destination, staging, ByRename(disk, source, staging, move))
    ensures r.IoOk? ==> swapped
    ensures source <= destination ==> !swapped && Without(disk.tree, staging) == old(disk.tree)
    ensures r.IoErr? && swapped ==> move && !ByRename(disk, source, staging, move)
    ensures r.IoErr? && swapped ==> disk.RemovalFailed(old(disk.faults), source) || destination <= source
    ensures r.IoErr? && disk.faults == old(disk.faults) && (existed || destination !in old(disk.tree)) ==>
              !Feasible(old(disk.tree), source, destination, move, ByRename(disk, source, staging, move))
    ensures (&& !swapped && disk.faults == old(disk.faults) && (existed || destination !in old(disk.tree))
             && !ByRename(disk, source, staging, move)
             && IsDir(old(disk.tree), Parent(destination)) && !(source <= destination)) ==>
              r == IoErr(CopyError(old(disk.tree), source))
    ensures r.IoOk? && !ByRename(disk, source, staging, move) ==> Copyable(old(disk.tree), source)
    ensures r.IoOk? && move && Incomparable(source, destination) ==> Sub(disk.tree, source) == map[]
    ensures !swapped && disk.faults == old(disk.faults) && (existed || destination !in old(disk.tree)) ==>
              disk.tree == old(disk.tree)
    ensures !swapped && staging !in disk.tree && destination !in old(disk.tree) ==> disk.tree == old(disk.tree)
    ensures staging in disk.tree ==>
              LeftForAReason(disk, old(disk.faults), source, destination, staging,
                             ByRename(disk, source, staging, move))
  {
    hide Fits, Tidy, ReplacedLast, Sub, Graft, Moved, Without, Copyable, StagedTree, SameDevice, FileTree.WellFormed;
    ghost var before := disk.tree;
    var removeSourceAfter: bool;
    r, removeSourceAfter := Replace(disk, source, destination, staging, move, existed);
    swapped := r.IoOk?;
    if r.IoOk? {
      r := Finish(disk, before, source, destination, staging, removeSourceAfter, ByRename(disk, source, staging, move));
    }
  }
}
