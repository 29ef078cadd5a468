/**
 The filesystem calls webdav.rs makes. Every one may fail for reasons the program cannot
 see; a failing call does what POSIX lets it do before it gives up, and `exists` and `is_dir`
 answer "no". Such faults are counted and logged, so that a contract can say that there is no
 other reason for an error, or for a wrong answer.
 */
module Disk {
  import opened ByteStrings
  import opened FileTree
  import opened Wrappers
  import SafePath

  datatype IoError = CrossDevice | NotFound | AlreadyExists | PermissionDenied | InvalidInput | OtherError

  datatype IoResult = IoOk | IoErr(error: IoError)

  /** What a call that failed for no visible reason was about to do. */
  datatype Fault =
    | Looking(path: Path) | LinkCheck(path: Path) | Removal(path: Path) | Renaming(from: Path, to: Path)
    | AnyOther

  /** The failures so far, by their number. */
  type Log = map<nat, Fault>

  /** The first `faults` entries of the log are still there. */
  ghost predicate Remembers(before: Log, after: Log, faults: nat) {
    forall k | k in before && k < faults :: k in after && after[k] == before[k]
  }

  lemma RemembersOn(a: Log, b: Log, c: Log, faults: nat, later: nat)
    requires faults <= later && Remembers(a, b, faults) && Remembers(b, c, later)
    ensures Remembers(a, c, faults)
  {
  }

  /** Since the log had `count` entries, only calls have failed whose failure is taken for an answer. */
  ghost predicate OnlyLooked(before: Log, count: nat, after: Log, faults: nat) {
    && count <= faults && Remembers(before, after, count)
    && forall k | count <= k < faults :: k in after && (after[k].Looking? || after[k].LinkCheck?)
  }

  lemma LookedOn(a: Log, first: nat, b: Log, second: nat, c: Log, third: nat)
    requires OnlyLooked(a, first, b, second) && OnlyLooked(b, second, c, third)
    ensures OnlyLooked(a, first, c, third)
  {
  }

  lemma StillOnlyLooked(a: Log, count: nat, b: Log, faults: nat, c: Log)
    requires OnlyLooked(a, count, b, faults) && Remembers(b, c, faults)
    ensures OnlyLooked(a, count, c, faults)
  {
  }

  /** The device behind a directory. */
  type Devices = Path -> nat

  /** Whether `rename` stays on one device. */
  predicate SameDevice(devices: Devices, from: Path, to: Path)
    requires from != [] && to != []
  {
    devices(Parent(from)) == devices(Parent(to))
  }

  datatype Kind = FileKind | DirectoryKind | SymlinkKind | SpecialKind

  function KindOf(node: Node): Kind {
    match node
    case File(_) => FileKind
    case Directory => DirectoryKind
    case Symlink(_) => SymlinkKind
    case Special => SpecialKind
  }

  function KindAt(tree: Tree, path: Path): Kind
    requires path == [] || path in tree
  {
    if path in tree then KindOf(tree[path]) else DirectoryKind
  }

  // ---------------------------------------------------------------------------
  // Calls that follow symbolic links
  // ---------------------------------------------------------------------------

  /** Where a call that follows symbolic links ends up. */
  function Followed(tree: Tree, path: Path): (end: Option<Path>)
    ensures !IsLink(tree, path) ==> end == if path == [] || path in tree then Some(path) else None
  {
    if path != [] && IsLink(tree, path) then
      var target := tree[path].target;
      var start := if target != [] && target[0] == SLASH then [] else Parent(path);
      match SafePath.Walk(tree, start, Split(target, SLASH), SafePath.MAX_LINKS - 1)
      case Success(end) => Some(end)
      case Failure(_) => None
    else if path == [] || path in tree then Some(path)
    else None
  }

  predicate FollowedToDir(tree: Tree, path: Path) {
    Followed(tree, path).Some? && IsDir(tree, Followed(tree, path).value)
  }

  /** Opening `path` for writing reaches `end`, creating it if it is missing. */
  predicate OpensAt(tree: Tree, path: Path, end: Path) {
    Followed(if end in tree then tree else tree[end := File([])], path) == Some(end)
  }

  /** Only behind a symbolic link is the file opened not the file named. */
  lemma OpensThere(tree: Tree, path: Path, end: Path)
    requires path != [] && !IsLink(tree, path)
    ensures OpensAt(tree, path, end) <==> end == path
  {
  }

  /** `File::create` empties what it opens; a device or a pipe it leaves alone. */
  function Emptied(tree: Tree, end: Path): Tree {
    if end in tree && tree[end].Special? then tree else tree[end := File([])]
  }

  // ---------------------------------------------------------------------------
  // What stands in the way of a call
  // ---------------------------------------------------------------------------

  /** An existing directory may be replaced only while empty, and only by a directory. */
  predicate CanRename(tree: Tree, from: Path, to: Path) {
    && from != [] && from in tree && to != [] && IsDir(tree, Parent(to)) && !(from <= Parent(to))
    && (to in tree && to != from ==>
          if tree[to].Directory? then tree[from].Directory? && Sub(tree, to).Keys == {[]}
          else !tree[from].Directory?)
  }

  predicate CanCreate(tree: Tree, path: Path) {
    path != [] && IsDir(tree, Parent(path)) && (path in tree ==> tree[path].File?)
  }

  /** What `open` for writing accepts: also a device or a pipe. */
  predicate CanOpen(tree: Tree, end: Path) {
    end != [] && IsDir(tree, Parent(end)) && (end in tree ==> tree[end].File? || tree[end].Special?)
  }

  lemma PutIsWellFormed(tree: Tree, path: Path, node: Node)
    requires WellFormed(tree) && path != [] && IsDir(tree, Parent(path))
    requires path in tree ==> !tree[path].Directory?
    ensures WellFormed(tree[path := node])
  {
    forall p | p in tree[path := node] ensures p != [] && IsDir(tree[path := node], Parent(p)) {
      assert IsDir(tree, Parent(p));
    }
  }

  class Disk {
    const devices: Devices
    /** How many entries there is room for. */
    const room: nat
    var tree: Tree

    /** How many calls have failed although nothing stood in their way, and which. */
    ghost var faults: nat
    ghost var log: Log

    ghost predicate Valid()
      reads this
    {
      WellFormed(tree)
    }

    /** How many more entries fit. */
    ghost function Spare(): nat
      reads this
    {
      if |tree| < room then room - |tree| else 0
    }

    constructor (tree: Tree, devices: Devices, room: nat)
      requires WellFormed(tree)
      ensures Valid() && this.tree == tree && this.devices == devices && this.room == room && faults == 0
    {
      this.tree := tree;
      this.devices := devices;
      this.room := room;
      faults, log := 0, map[];
    }

    ghost predicate FailedLast(since: nat, fault: Fault)
      reads this
    {
      faults > since && faults - 1 in log && log[faults - 1] == fault
    }

    /** One more call has failed. */
    ghost predicate Logged(before: Log, count: nat, fault: Fault)
      reads this
    {
      faults == count + 1 && log == before[count := fault]
    }

    /** The last failure was that of removing `path`, or of finding out what there is to remove. */
    ghost predicate RemovalFailed(since: nat, path: Path)
      reads this
    {
      FailedLast(since, Removal(path)) || FailedLast(since, Looking(path))
    }

    /** `Path::exists`: follows symbolic links, and answers "no" if it fails. */
    method Exists(path: Path) returns (yes: bool)
      modifies this`faults, this`log
      ensures yes ==> Followed(tree, path).Some?
      ensures !yes && faults == old(faults) ==> Followed(tree, path).None?
      ensures if faults == old(faults) then log == old(log)
              else !yes && Logged(old(log), old(faults), Looking(path))
      ensures OnlyLooked(old(log), old(faults), log, faults)
    {
      if * { return Followed(tree, path).Some?; }
      faults, log := faults + 1, log[faults := Looking(path)];
      yes := false;
    }

    /** `Path::is_dir`: the same for directories. */
    method IsDirectory(path: Path) returns (yes: bool)
      modifies this`faults, this`log
      ensures yes ==> FollowedToDir(tree, path)
      ensures !yes && faults == old(faults) ==> !FollowedToDir(tree, path)
      ensures if faults == old(faults) then log == old(log)
              else !yes && Logged(old(log), old(faults), Looking(path))
      ensures OnlyLooked(old(log), old(faults), log, faults)
    {
      if * { return FollowedToDir(tree, path); }
      faults, log := faults + 1, log[faults := Looking(path)];
      yes := false;
    }

    /** The last check of `resolve_parent`: a failing `symlink_metadata` is passed over. */
    method IsSymlink(path: Path) returns (yes: bool)
      modifies this`faults, this`log
      ensures yes ==> IsLink(tree, path)
      ensures !yes && faults == old(faults) ==> !IsLink(tree, path)
      ensures if faults == old(faults) then log == old(log)
              else !yes && Logged(old(log), old(faults), LinkCheck(path))
      ensures OnlyLooked(old(log), old(faults), log, faults)
    {
      if * { return IsLink(tree, path); }
      faults, log := faults + 1, log[faults := LinkCheck(path)];
      yes := false;
    }

    /** `symlink_metadata`. */
    method Stat(path: Path) returns (r: Result<Kind, IoError>)
      modifies this`faults, this`log
      ensures faults >= old(faults) && (r.Success? ==> faults == old(faults) && log == old(log))
      ensures r.Failure? && faults == old(faults) ==> path != [] && path !in tree && r.error == NotFound
      ensures r.Success? ==> (path == [] || path in tree) && r.value == KindAt(tree, path)
    {
      if * { return if path == [] || path in tree then Success(KindAt(tree, path)) else Failure(NotFound); }
      faults, log := faults + 1, log[faults := AnyOther];
      var error: IoError := *;
      r := Failure(error);
    }

    /** Across devices the answer is `EXDEV`, which is no fault. */
    method Rename(from: Path, to: Path) returns (r: IoResult)
      requires Valid() && from != [] && to != []
      modifies this
      ensures Valid() && faults >= old(faults)
      ensures r.IoOk? ==> CanRename(old(tree), from, to) && SameDevice(devices, from, to)
      ensures r.IoOk? ==> tree == Moved(old(tree), from, to)
      ensures r.IoErr? ==> tree == old(tree)
      ensures if faults == old(faults) then log == old(log)
              else r.IoErr? && Logged(old(log), old(faults), Renaming(from, to))
      ensures r.IoErr? && faults == old(faults) && SameDevice(devices, from, to) ==> !CanRename(old(tree), from, to)
      ensures r == IoErr(CrossDevice) ==> faults == old(faults) && !SameDevice(devices, from, to)
      ensures faults == old(faults) && CanRename(old(tree), from, to) && !SameDevice(devices, from, to) ==>
                r == IoErr(CrossDevice)
    {
      var works: bool := *;
      var early: bool := *;
      if works && !SameDevice(devices, from, to) && (early || CanRename(tree, from, to)) { return IoErr(CrossDevice); }
      if works && CanRename(tree, from, to) {
        MovedIsWellFormed(tree, from, to);
        tree := Moved(tree, from, to);
        return IoOk;
      }
      if !works { faults, log := faults + 1, log[faults := Renaming(from, to)]; }
      var error: IoError := *;
      r := IoErr(if error == CrossDevice then OtherError else error);
    }

    method CreateDir(path: Path) returns (r: IoResult)
      requires Valid()
      modifies this
      ensures Valid() && faults >= old(faults) && (r.IoOk? ==> faults == old(faults) && log == old(log))
      ensures r.IoErr? && faults == old(faults) ==> path == [] || path in old(tree) || !IsDir(old(tree), Parent(path))
      ensures r.IoOk? ==> path != [] && path !in old(tree) && IsDir(old(tree), Parent(path))
      ensures r.IoOk? ==> tree == old(tree)[path := Directory] && Spare() < old(Spare())
      ensures r.IoErr? ==> tree == old(tree)
    {
      var works: bool := *;
      works := works && |tree| < room;
      if !works { faults, log := faults + 1, log[faults := AnyOther]; }
      if works && path != [] && path !in tree && IsDir(tree, Parent(path)) {
        PutIsWellFormed(tree, path, Directory);
        tree := tree[path := Directory];
        return IoOk;
      }
      var error: IoError := *;
      r := IoErr(error);
    }

    /** `File::create`, which follows symbolic links: a file already at the end is emptied. */
    method CreateFile(path: Path) returns (r: IoResult, ghost end: Path)
      requires Valid() && path != []
      modifies this
      ensures Valid() && faults >= old(faults)
      ensures r.IoErr? && faults == old(faults) && !IsLink(old(tree), path) ==> !CanCreate(old(tree), path)
      ensures r.IoOk? ==> OpensAt(old(tree), path, end) && CanOpen(old(tree), end) && tree == Emptied(old(tree), end)
      ensures r.IoOk? ==> faults == old(faults) && log == old(log)
      ensures r.IoErr? ==> tree == old(tree)
    {
      var works: bool := *;
      var there: Path := *;
      if !IsLink(tree, path) { there := path; }
      works := works && (there in tree || |tree| < room);
      if !works { faults, log := faults + 1, log[faults := AnyOther]; }
      end := there;
      if works && OpensAt(tree, path, there) && CanOpen(tree, there) {
        PutIsWellFormed(tree, there, File([]));
        tree := Emptied(tree, there);
        return IoOk, end;
      }
      var error: IoError := *;
      r := IoErr(error);
    }

    /** `write_all` on an open file; after a failure the content is arbitrary. */
    method Append(path: Path, chunk: Bytes) returns (r: IoResult)
      requires Valid() && path in tree && tree[path].File?
      modifies this
      ensures Valid() && faults >= old(faults) && (r.IoErr? ==> faults > old(faults))
      ensures r.IoOk? ==> tree == old(tree)[path := File(old(tree)[path].content + chunk)]
      ensures r.IoErr? ==> exists content :: tree == old(tree)[path := File(content)]
    {
      if * {
        PutIsWellFormed(tree, path, File(tree[path].content + chunk));
        tree := tree[path := File(tree[path].content + chunk)];
        return IoOk;
      }
      faults, log := faults + 1, log[faults := AnyOther];
      var content: Bytes := *;
      PutIsWellFormed(tree, path, File(content));
      tree := tree[path := File(content)];
      var error: IoError := *;
      r := IoErr(error);
    }

    /** `flush`: what was buffered may turn out unwritable. */
    method Flush(path: Path) returns (r: IoResult)
      requires Valid() && path in tree && tree[path].File?
      modifies this
      ensures Valid() && faults >= old(faults) && (r.IoErr? ==> faults > old(faults))
      ensures r.IoOk? ==> tree == old(tree)
      ensures r.IoErr? ==> exists content :: tree == old(tree)[path := File(content)]
    {
      if * { return IoOk; }
      faults, log := faults + 1, log[faults := AnyOther];
      var content: Bytes := *;
      PutIsWellFormed(tree, path, File(content));
      tree := tree[path := File(content)];
      var error: IoError := *;
      r := IoErr(error);
    }

    /** `fs::copy`: a failure leaves no file, or one with arbitrary content. */
    method Copy(source: Path, destination: Path) returns (r: IoResult)
      requires Valid() && !IsLink(tree, destination)
      modifies this
      ensures Valid() && Spare() <= old(Spare())
      ensures faults >= old(faults) && (r.IoOk? ==> faults == old(faults) && log == old(log))
      ensures r.IoErr? && faults == old(faults) ==>
                !(source in old(tree) && old(tree)[source].File? && CanCreate(old(tree), destination))
      ensures r.IoOk? ==> source in old(tree) && old(tree)[source].File? && CanCreate(old(tree), destination)
      ensures r.IoOk? ==> tree == old(tree)[destination := old(tree)[source]]
      ensures r.IoErr? && tree != old(tree) ==>
                && source in old(tree) && old(tree)[source].File? && CanCreate(old(tree), destination)
                && exists content :: tree == old(tree)[destination := File(content)]
    {
      var works: bool := *;
      works := works && (destination in tree || |tree| < room);
      var readable := source in tree && tree[source].File? && CanCreate(tree, destination);
      if works && readable {
        PutIsWellFormed(tree, destination, tree[source]);
        tree := tree[destination := tree[source]];
        return IoOk;
      }
      if !works {
        faults, log := faults + 1, log[faults := AnyOther];
        var partial: bool := *;
        if partial && readable {
          var content: Bytes := *;
          PutIsWellFormed(tree, destination, File(content));
          tree := tree[destination := File(content)];
        }
      }
      var error: IoError := *;
      r := IoErr(error);
    }

    method RemoveFile(path: Path) returns (r: IoResult)
      requires Valid()
      modifies this
      ensures Valid() && faults >= old(faults)
      ensures r.IoErr? && faults == old(faults) ==> path !in old(tree) || old(tree)[path].Directory?
      ensures r.IoOk? ==> path in old(tree) && !old(tree)[path].Directory? && tree == Without(old(tree), path)
      ensures r.IoErr? ==> tree == old(tree)
      ensures if faults == old(faults) then log == old(log)
              else r.IoErr? && Logged(old(log), old(faults), Removal(path))
    {
      var works: bool := *;
      if works && path in tree && !tree[path].Directory? {
        WithoutIsWellFormed(tree, path);
        tree := Without(tree, path);
        return IoOk;
      }
      if !works { faults, log := faults + 1, log[faults := Removal(path)]; }
      var error: IoError := *;
      r := IoErr(error);
    }

    /** `remove_dir_all`: a fault leaves part of the subtree; of a symbolic link, only the link itself goes. */
    method RemoveDirAll(path: Path) returns (r: IoResult)
      requires Valid()
      modifies this
      ensures Valid() && faults >= old(faults)
      ensures r.IoErr? && faults == old(faults) ==>
                tree == old(tree) && (path !in old(tree) || !(old(tree)[path].Directory? || old(tree)[path].Symlink?))
      ensures r.IoOk? ==> path in old(tree) && tree == Without(old(tree), path)
      ensures Pruned(old(tree), tree, path)
      ensures if faults == old(faults) then log == old(log)
              else r.IoErr? && Logged(old(log), old(faults), Removal(path))
    {
      var works: bool := *;
      if works && path in tree && (tree[path].Directory? || tree[path].Symlink?) {
        WithoutIsWellFormed(tree, path);
        tree := Without(tree, path);
        return IoOk;
      }
      if !works {
        faults, log := faults + 1, log[faults := Removal(path)];
        var left: Tree := *;
        if Pruned(tree, left, path) && WellFormed(left) { tree := left; }
      }
      var error: IoError := *;
      r := IoErr(error);
    }

    /** The names in a directory, in an order nothing is known about. */
    method ReadDir(directory: Path) returns (r: Result<seq<Bytes>, IoError>)
      modifies this`faults, this`log
      ensures faults >= old(faults) && (r.Success? ==> faults == old(faults) && log == old(log))
      ensures r.Failure? && faults == old(faults) ==> !IsDir(tree, directory)
      ensures r.Success? ==> IsDir(tree, directory)
      ensures r.Success? ==> forall name :: name in r.value <==> directory + [name] in tree
      ensures r.Success? ==> forall i, j | 0 <= i < j < |r.value| :: r.value[i] != r.value[j]
    {
      var works: bool := *;
      if !works { faults, log := faults + 1, log[faults := AnyOther]; }
      if works && IsDir(tree, directory) {
        var children := set p | p in tree && |p| == |directory| + 1 && directory <= p :: p[|directory|];
        assert forall name :: directory + [name] in tree ==> (directory + [name])[|directory|] == name;
        assert forall p | |p| == |directory| + 1 && directory <= p :: p == directory + [p[|directory|]];
        var names: seq<Bytes> := [];
        ghost var all := children;
        while children != {}
          invariant forall name :: name in all <==> name in children || name in names
          invariant forall name | name in names :: name !in children
          invariant forall i, j | 0 <= i < j < |names| :: names[i] != names[j]
          decreases children
        {
          var name :| name in children;
          names, children := names + [name], children - {name};
        }
        return Success(names);
      }
      var error: IoError := *;
      r := Failure(error);
    }

    /** `next_entry` or any other call that only reads may fail at any time. */
    method Hiccup() returns (r: IoResult)
      modifies this`faults, this`log
      ensures if r.IoOk? then faults == old(faults) && log == old(log) else faults > old(faults)
    {
      if * { return IoOk; }
      faults, log := faults + 1, log[faults := AnyOther];
      var error: IoError := *;
      r := IoErr(error);
    }

    /** `remove_entry` of webdav.rs. Taken for a file, a directory cannot be removed. */
    method RemoveEntry(path: Path) returns (r: IoResult)
      requires Valid()
      modifies this
      ensures Valid() && faults >= old(faults)
      ensures r.IoErr? && faults == old(faults) ==> tree == old(tree) && path !in old(tree)
      ensures r.IoOk? ==> path in old(tree) && tree == Without(old(tree), path)
      ensures Pruned(old(tree), tree, path)
      ensures faults == old(faults) || RemovalFailed(old(faults), path)
      ensures r.IoErr? && path in old(tree) && !FailedLast(old(faults), Removal(path)) ==>
                IsDir(old(tree), path) && tree == old(tree)
      ensures Remembers(old(log), log, old(faults))
      ensures forall k | old(faults) <= k < faults :: k in log && (log[k] == Looking(path) || log[k] == Removal(path))
    {
      hide Followed;
      var directory := IsDirectory(path);
      if directory {
        r := RemoveDirAll(path);
      } else {
        r := RemoveFile(path);
      }
    }
  }
}
