/** safe_path.rs: the two resolvers every request path goes through. */
module SafePath {
  import opened ByteStrings
  import opened FileTree
  import opened Wrappers
  import Utf8

  /** Linux gives up a path lookup after this many symbolic links. */
  const MAX_LINKS: nat := 40

  datatype WalkError = Missing | NotADirectory | TooManyLinks

  datatype SafePathError = Traversal | NotFound | SymlinkEscape | InvalidPath | Io

  const DOTDOT: Bytes := [DOT, DOT]

  predicate Skipped(component: Bytes) {
    component == [] || component == [DOT]
  }

  /** `realpath`: follow `rest` from the directory `at`, resolving `..` and symbolic links. */
  function Walk(tree: Tree, at: Path, rest: seq<Bytes>, links: nat): Result<Path, WalkError>
    decreases links, |rest|
  {
    if rest == [] then Success(at)
    else if Skipped(rest[0]) then Walk(tree, at, rest[1..], links)
    else if rest[0] == DOTDOT then Walk(tree, if at == [] then at else Parent(at), rest[1..], links)
    else
      var next := at + [rest[0]];
      if next !in tree then Failure(Missing)
      else match tree[next]
        case Symlink(target) =>
          if links == 0 then Failure(TooManyLinks)
          else
            var start := if target != [] && target[0] == SLASH then [] else at;
            Walk(tree, start, Split(target, SLASH) + rest[1..], links - 1)
        case Directory => Walk(tree, next, rest[1..], links)
        case _ => if |rest| == 1 then Success(next) else Failure(NotADirectory)
  }

  function Canonicalize(tree: Tree, path: seq<Bytes>): Result<Path, SafePathError> {
    match Walk(tree, [], path, MAX_LINKS)
    case Success(p) => Success(p)
    case Failure(Missing) => Failure(NotFound)
    case Failure(_) => Failure(Io)
  }

  /** The checks both resolvers make on the raw relative path. */
  function Screen(relative: Bytes): Option<SafePathError> {
    if 0 in relative then Some(InvalidPath)
    else if relative != [] && (relative[0] == SLASH || relative[0] == BACKSLASH) then Some(Traversal)
    else if |relative| >= 2 && relative[1] == COLON then Some(Traversal)
    else None
  }

  function Resolve(tree: Tree, root: seq<Bytes>, relative: Bytes): Result<Path, SafePathError> {
    if Screen(relative).Some? then Failure(Screen(relative).value)
    else match Canonicalize(tree, root)
      case Failure(e) => Failure(e)
      case Success(canonicalRoot) =>
        if relative == [] || relative == [DOT] then Success(canonicalRoot)
        else match Canonicalize(tree, root + Split(relative, SLASH))
          case Failure(e) => Failure(e)
          case Success(joined) => if canonicalRoot <= joined then Success(joined) else Failure(Traversal)
  }

  /** `Path::components`: empty and `.` components vanish, `..` stays. */
  function Components(pieces: seq<Bytes>): seq<Bytes> {
    if pieces == [] then []
    else if Skipped(pieces[0]) then Components(pieces[1..])
    else [pieces[0]] + Components(pieces[1..])
  }

  /** `char::is_control` over UTF-8: U+0000-001F, U+007F and U+0080-009F. */
  predicate HasControl(name: Bytes) {
    exists i | 0 <= i < |name| ::
      name[i] < 0x20 || name[i] == 0x7F || (name[i] == 0xC2 && i + 1 < |name| && 0x80 <= name[i + 1] <= 0x9F)
  }

  function ValidateFilename(name: Bytes): Option<SafePathError> {
    if name == [] then Some(InvalidPath)
    else if name == [DOT] || name == DOTDOT then Some(Traversal)
    else if HasControl(name) || SLASH in name || BACKSLASH in name then Some(InvalidPath)
    else None
  }

  /** `resolve_parent` up to its last check: the canonical parent followed by the file name. */
  function Aim(tree: Tree, root: seq<Bytes>, relative: Bytes): Result<Path, SafePathError> {
    if Screen(relative).Some? then Failure(Screen(relative).value)
    else match Canonicalize(tree, root)
      case Failure(e) => Failure(e)
      case Success(canonicalRoot) =>
        var joined := Components(root + Split(relative, SLASH));
        if joined == [] then Failure(InvalidPath)
        else match Canonicalize(tree, joined[..|joined| - 1])
          case Failure(e) => Failure(e)
          case Success(parent) =>
            var filename := joined[|joined| - 1];
            if !(canonicalRoot <= parent) then Failure(Traversal)
            else if filename == DOTDOT then Failure(InvalidPath)
            else if ValidateFilename(filename).Some? then Failure(ValidateFilename(filename).value)
            else Success(parent + [filename])
  }

  /** The last check looks for a symbolic link; this is what it comes to when that call does not fail. */
  function ResolveParent(tree: Tree, root: seq<Bytes>, relative: Bytes): Result<Path, SafePathError> {
    match Aim(tree, root, relative)
    case Failure(e) => Failure(e)
    case Success(target) => if IsLink(tree, target) then Failure(SymlinkEscape) else Success(target)
  }

  // ---------------------------------------------------------------------------
  // Containment
  // ---------------------------------------------------------------------------

  /** A path whose every step down from the filesystem root is a real directory. */
  ghost predicate RealDirectory(tree: Tree, path: Path) {
    forall i | 0 <= i <= |path| :: IsDir(tree, path[..i])
  }

  /** An entry reached without passing any symbolic link. */
  ghost predicate Real(tree: Tree, path: Path) {
    path == [] || (RealDirectory(tree, Parent(path)) && path in tree && !tree[path].Symlink?)
  }

  lemma RealDirectoryParts(tree: Tree, path: Path)
    requires path != []
    ensures RealDirectory(tree, path) <==> RealDirectory(tree, Parent(path)) && IsDir(tree, path)
  {
    assert path[..|path|] == path;
    forall i | 0 <= i <= |path| - 1 ensures Parent(path)[..i] == path[..i] {}
  }

  lemma {:induction false} WalkIsReal(tree: Tree, at: Path, rest: seq<Bytes>, links: nat)
    requires RealDirectory(tree, at)
    requires Walk(tree, at, rest, links).Success?
    ensures Real(tree, Walk(tree, at, rest, links).value)
    decreases links, |rest|
  {
    if at != [] { RealDirectoryParts(tree, at); }
    if rest == [] {
    } else if Skipped(rest[0]) {
      WalkIsReal(tree, at, rest[1..], links);
    } else if rest[0] == DOTDOT {
      WalkIsReal(tree, if at == [] then at else Parent(at), rest[1..], links);
    } else {
      var next := at + [rest[0]];
      assert Parent(next) == at;
      RealDirectoryParts(tree, next);
      match tree[next]
      case Symlink(target) =>
        var start: Path := if target != [] && target[0] == SLASH then [] else at;
        WalkIsReal(tree, start, Split(target, SLASH) + rest[1..], links - 1);
      case Directory => WalkIsReal(tree, next, rest[1..], links);
      case _ =>
    }
  }

  /** Whatever `resolve` returns lies under the canonical root and is reached without symbolic links. */
  lemma ResolveIsContained(tree: Tree, root: seq<Bytes>, relative: Bytes)
    requires Resolve(tree, root, relative).Success?
    ensures Canonicalize(tree, root).Success? && Canonicalize(tree, root).value <= Resolve(tree, root, relative).value
    ensures Real(tree, Resolve(tree, root, relative).value)
  {
    WalkIsReal(tree, [], root, MAX_LINKS);
    if relative != [] && relative != [DOT] {
      WalkIsReal(tree, [], root + Split(relative, SLASH), MAX_LINKS);
    }
  }

  /**
   Whatever `resolve_parent` returns names an entry in a real place under the canonical root,
   even if its last check fails and is passed over; if it does not fail, the entry is no link.
   */
  lemma ResolveParentIsContained(tree: Tree, root: seq<Bytes>, relative: Bytes)
    requires Aim(tree, root, relative).Success?
    ensures var t := Aim(tree, root, relative).value;
            && t != [] && Real(tree, Parent(t)) && SLASH !in t[|t| - 1] && t[|t| - 1] != DOTDOT
            && Canonicalize(tree, root).Success? && Canonicalize(tree, root).value <= Parent(t)
            && (ResolveParent(tree, root, relative).Success? <==> !IsLink(tree, t))
  {
    var joined := Components(root + Split(relative, SLASH));
    var t := Aim(tree, root, relative).value;
    assert Parent(t) == Canonicalize(tree, joined[..|joined| - 1]).value;
    WalkIsReal(tree, [], joined[..|joined| - 1], MAX_LINKS);
  }

  // ---------------------------------------------------------------------------
  // Create, then read
  // ---------------------------------------------------------------------------

  predicate Plain(name: Bytes) {
    !Skipped(name) && name != DOTDOT && SLASH !in name
  }

  ghost predicate AllPlain(names: seq<Bytes>) {
    forall i | 0 <= i < |names| :: Plain(names[i])
  }

  /** What may be put at `path` without closing a way that was open. */
  ghost predicate Placeable(tree: Tree, path: Path, node: Node) {
    && !node.Symlink?
    && !IsLink(tree, path)
    && (path in tree && tree[path].Directory? ==> node.Directory?)
  }

  lemma {:induction false} WalkAfterPlacing(tree: Tree, path: Path, node: Node, at: Path, rest: seq<Bytes>, links: nat)
    requires Placeable(tree, path, node)
    requires Walk(tree, at, rest, links).Success?
    ensures Walk(tree[path := node], at, rest, links) == Walk(tree, at, rest, links)
    decreases links, |rest|
  {
    if rest == [] {
    } else if Skipped(rest[0]) {
      WalkAfterPlacing(tree, path, node, at, rest[1..], links);
    } else if rest[0] == DOTDOT {
      WalkAfterPlacing(tree, path, node, if at == [] then at else Parent(at), rest[1..], links);
    } else {
      var next := at + [rest[0]];
      match tree[next]
      case Symlink(target) =>
        var start: Path := if target != [] && target[0] == SLASH then [] else at;
        WalkAfterPlacing(tree, path, node, start, Split(target, SLASH) + rest[1..], links - 1);
      case Directory => WalkAfterPlacing(tree, path, node, next, rest[1..], links);
      case _ =>
    }
  }

  /** One more plain name after a walk that ended in a directory. */
  lemma {:induction false} WalkOneMore(tree: Tree, at: Path, rest: seq<Bytes>, links: nat, name: Bytes)
    requires Plain(name) && Walk(tree, at, rest, links).Success?
    requires var parent := Walk(tree, at, rest, links).value;
             IsDir(tree, parent) && parent + [name] in tree && !tree[parent + [name]].Symlink?
    ensures Walk(tree, at, rest + [name], links) == Success(Walk(tree, at, rest, links).value + [name])
    decreases links, |rest|
  {
    var longer := rest + [name];
    if rest == [] {
      assert longer[1..] == [];
    } else {
      assert longer[0] == rest[0] && longer[1..] == rest[1..] + [name];
      if Skipped(rest[0]) {
        WalkOneMore(tree, at, rest[1..], links, name);
      } else if rest[0] == DOTDOT {
        WalkOneMore(tree, if at == [] then at else Parent(at), rest[1..], links, name);
      } else {
        var next := at + [rest[0]];
        match tree[next]
        case Symlink(target) =>
          var start: Path := if target != [] && target[0] == SLASH then [] else at;
          AppendAssociates(Split(target, SLASH), rest[1..], [name]);
          WalkOneMore(tree, start, Split(target, SLASH) + rest[1..], links - 1, name);
        case Directory => WalkOneMore(tree, next, rest[1..], links, name);
        case _ =>
      }
    }
  }

  lemma {:induction false} ComponentsAppendPlain(pieces: seq<Bytes>, names: seq<Bytes>)
    requires AllPlain(names)
    ensures Components(pieces + names) == Components(pieces) + names
    decreases |pieces| + |names|
  {
    if pieces != [] {
      ComponentsAppendPlain(pieces[1..], names);
      assert (pieces + names)[1..] == pieces[1..] + names;
    } else if names != [] {
      ComponentsAppendPlain([], names[1..]);
      assert [] + names == names && [] + names[1..] == names[1..];
      assert names == [names[0]] + names[1..];
    }
  }

  /** A walk over normalised components that ends in a directory is also the walk over the raw ones. */
  lemma {:induction false} WalkRaw(tree: Tree, at: Path, pre: seq<Bytes>, raw: seq<Bytes>, links: nat)
    requires Walk(tree, at, pre + Components(raw), links).Success?
    requires IsDir(tree, Walk(tree, at, pre + Components(raw), links).value)
    ensures Walk(tree, at, pre + raw, links) == Walk(tree, at, pre + Components(raw), links)
    decreases links, |pre| + |raw|, |raw|
  {
    var tidy := pre + Components(raw);
    var all := pre + raw;
    if pre == [] {
      assert all == raw && tidy == Components(raw);
      if raw != [] && Skipped(raw[0]) {
        assert [] + Components(raw[1..]) == tidy && [] + raw[1..] == raw[1..];
        WalkRaw(tree, at, [], raw[1..], links);
      } else if raw != [] {
        assert [raw[0]] + Components(raw[1..]) == tidy && [raw[0]] + raw[1..] == raw;
        WalkRaw(tree, at, [raw[0]], raw[1..], links);
      }
    } else {
      assert all[0] == tidy[0] == pre[0] && all[1..] == pre[1..] + raw && tidy[1..] == pre[1..] + Components(raw);
      if Skipped(pre[0]) {
        WalkRaw(tree, at, pre[1..], raw, links);
      } else if pre[0] == DOTDOT {
        WalkRaw(tree, if at == [] then at else Parent(at), pre[1..], raw, links);
      } else {
        var next := at + [pre[0]];
        match tree[next]
        case Symlink(target) =>
          var start: Path := if target != [] && target[0] == SLASH then [] else at;
          var pieces := Split(target, SLASH);
          AppendAssociates(pieces, pre[1..], raw);
          AppendAssociates(pieces, pre[1..], Components(raw));
          WalkRaw(tree, start, pieces + pre[1..], raw, links - 1);
        case Directory => WalkRaw(tree, next, pre[1..], raw, links);
        case _ =>
      }
    }
  }

  lemma AimParts(tree: Tree, root: seq<Bytes>, relative: Bytes)
    requires Aim(tree, root, relative).Success?
    ensures var t := Aim(tree, root, relative).value;
            var joined := Components(root + Split(relative, SLASH));
            && joined != [] && t != []
            && Walk(tree, [], joined[..|joined| - 1], MAX_LINKS) == Success(Parent(t))
            && t[|t| - 1] == joined[|joined| - 1]
  {
  }

  /** The parent `resolve_parent` finds for plain names, walked over the raw root. */
  lemma ParentWalk(tree: Tree, root: seq<Bytes>, names: seq<Bytes>)
    requires names != [] && AllPlain(names)
    requires ResolveParent(tree, root, Join(names, SLASH)).Success?
    requires IsDir(tree, Parent(ResolveParent(tree, root, Join(names, SLASH)).value))
    ensures var t := ResolveParent(tree, root, Join(names, SLASH)).value;
            && t != [] && t[|t| - 1] == names[|names| - 1]
            && Walk(tree, [], root + names[..|names| - 1], MAX_LINKS) == Success(Parent(t))
  {
    hide Walk, Split, Components, Screen, ValidateFilename;
    var front := names[..|names| - 1];
    AimParts(tree, root, Join(names, SLASH));
    SplitJoin(names, SLASH);
    ComponentsAppendPlain(root, names);
    ComponentsAppendPlain(root, front);
    var joined := Components(root) + names;
    assert joined[..|joined| - 1] == Components(root) + front;
    assert [] + Components(root + front) == Components(root + front) && [] + (root + front) == root + front;
    WalkRaw(tree, [], [], root + front, MAX_LINKS);
  }

  /**
   If `resolve_parent` hands out `t` for slash-joined plain names and a non-link is then put
   at `t`, `resolve` on the same text gives exactly `t`, and `t` is under the canonical root.
   Placing presumes that the parent is a directory, and that a directory already at `t` is
   not replaced by something else.
   */
  lemma CreateThenRead(tree: Tree, root: seq<Bytes>, names: seq<Bytes>, node: Node)
    requires names != [] && AllPlain(names)
    requires ResolveParent(tree, root, Join(names, SLASH)).Success?
    requires var t := ResolveParent(tree, root, Join(names, SLASH)).value;
             IsDir(tree, Parent(t)) && Placeable(tree, t, node)
    ensures var t := ResolveParent(tree, root, Join(names, SLASH)).value;
            && Resolve(tree[t := node], root, Join(names, SLASH)) == Success(t)
            && Canonicalize(tree[t := node], root).value <= t
  {
    hide Walk, Split, Components, ValidateFilename;
    var relative := Join(names, SLASH);
    var t := ResolveParent(tree, root, relative).value;
    var front := names[..|names| - 1];
    ParentWalk(tree, root, names);
    WalkAfterPlacing(tree, t, node, [], root, MAX_LINKS);
    WalkAfterPlacing(tree, t, node, [], root + front, MAX_LINKS);
    assert Parent(t) + [names[|names| - 1]] == t;
    WalkOneMore(tree[t := node], [], root + front, MAX_LINKS, names[|names| - 1]);
    assert root + front + [names[|names| - 1]] == root + names;
    SplitJoin(names, SLASH);
    JoinNonEmpty(names, SLASH);
    assert relative != [DOT] by {
      SplitJoin([[DOT]], SLASH);
    }
  }

  // ---------------------------------------------------------------------------
  // No links, no aliases
  // ---------------------------------------------------------------------------

  ghost predicate LinkFree(tree: Tree, path: Path) {
    forall i | 0 < i <= |path| :: !IsLink(tree, path[..i])
  }

  lemma LinkFreePrefix(tree: Tree, path: Path, length: nat)
    requires LinkFree(tree, path) && length <= |path|
    ensures LinkFree(tree, path[..length])
  {
    forall i | 0 < i <= length ensures path[..length][..i] == path[..i] {}
  }

  lemma LinkFreeEnd(tree: Tree, path: Path)
    requires LinkFree(tree, path) && path != []
    ensures !IsLink(tree, path)
  {
    assert path[..|path|] == path;
  }

  lemma {:induction false} WalkWithoutLinks(tree: Tree, at: Path, names: seq<Bytes>, links: nat)
    requires AllPlain(names) && Walk(tree, at, names, links).Success?
    requires LinkFree(tree, at + names)
    ensures Walk(tree, at, names, links).value == at + names
    decreases |names|
  {
    if names != [] {
      var next := at + [names[0]];
      assert (at + names)[..|at| + 1] == next;
      assert next + names[1..] == at + names;
      if tree[next].Directory? {
        WalkWithoutLinks(tree, next, names[1..], links);
      }
    }
  }

  lemma PlainComponents(names: seq<Bytes>)
    requires AllPlain(names)
    ensures Components(names) == names
  {
    ComponentsAppendPlain([], names);
    assert [] + names == names;
  }

  lemma PlainPieces(root: Path, names: seq<Bytes>)
    requires AllPlain(root) && AllPlain(names) && names != []
    ensures Components(root + Split(Join(names, SLASH), SLASH)) == root + names && AllPlain(root + names)
    ensures names[|names| - 1] != DOTDOT
  {
    SplitJoin(names, SLASH);
    PlainComponents(root + names);
  }

  lemma PlainParentWalk(tree: Tree, root: Path, names: seq<Bytes>)
    requires names != [] && AllPlain(names) && AllPlain(root)
    requires Aim(tree, root, Join(names, SLASH)).Success?
    ensures var t := Aim(tree, root, Join(names, SLASH)).value;
            && t != [] && Walk(tree, [], Parent(root + names), MAX_LINKS) == Success(Parent(t))
            && t[|t| - 1] == names[|names| - 1]
  {
    hide Walk, Split, Components, Screen, ValidateFilename, Join;
    AimParts(tree, root, Join(names, SLASH));
    PlainPieces(root, names);
    assert (root + names)[|root + names| - 1] == names[|names| - 1];
  }

  lemma PlainWalkEnd(tree: Tree, path: Path, t: Path, links: nat)
    requires path != [] && AllPlain(path) && LinkFree(tree, Parent(path))
    requires t != [] && Walk(tree, [], Parent(path), links) == Success(Parent(t)) && t[|t| - 1] == path[|path| - 1]
    ensures t == path
  {
    assert [] + Parent(path) == Parent(path);
    WalkWithoutLinks(tree, [], Parent(path), links);
    assert t == Parent(t) + [t[|t| - 1]] == path;
  }

  /** With no symbolic link on the way, `resolve_parent` names the place the text spells out. */
  lemma NoLinksNoAlias(tree: Tree, root: Path, names: seq<Bytes>)
    requires names != [] && AllPlain(names) && AllPlain(root)
    requires LinkFree(tree, Parent(root + names))
    requires Aim(tree, root, Join(names, SLASH)).Success?
    ensures Aim(tree, root, Join(names, SLASH)).value == root + names
  {
    hide Walk, Aim, Join, LinkFree;
    PlainParentWalk(tree, root, names);
    PlainWalkEnd(tree, root + names, Aim(tree, root, Join(names, SLASH)).value, MAX_LINKS);
  }

  // ---------------------------------------------------------------------------
  // How a walk goes
  // ---------------------------------------------------------------------------

  lemma {:induction false} WalkDownFrom(tree: Tree, at: Path, names: seq<Bytes>, rest: seq<Bytes>, links: nat)
    requires AllPlain(names) && RealDirectory(tree, at + names)
    ensures Walk(tree, at, names + rest, links) == Walk(tree, at + names, rest, links)
    decreases |names|
  {
    if names == [] {
      assert names + rest == rest && at + names == at;
    } else {
      var next := at + [names[0]];
      assert next + names[1..] == at + names && (names + rest)[1..] == names[1..] + rest;
      assert (at + names)[..|at| + 1] == next;
      WalkDownFrom(tree, next, names[1..], rest, links);
    }
  }

  /** Down real directories a walk follows the names. */
  lemma WalkDown(tree: Tree, folder: Path, rest: seq<Bytes>, links: nat)
    requires AllPlain(folder) && RealDirectory(tree, folder)
    ensures Walk(tree, [], folder + rest, links) == Walk(tree, folder, rest, links)
  {
    assert [] + folder == folder;
    WalkDownFrom(tree, [], folder, rest, links);
  }

  /** In a folder: `.` and an empty component stay, `..` leads back. */
  lemma WalkDots(tree: Tree, folder: Path, name: Bytes, rest: seq<Bytes>, links: nat)
    requires AllPlain(folder + [name]) && RealDirectory(tree, folder + [name])
    ensures Walk(tree, [], folder + [name, DOTDOT] + rest, links) == Walk(tree, [], folder + rest, links)
    ensures Walk(tree, [], folder + [name, [DOT]] + rest, links) == Walk(tree, [], folder + [name] + rest, links)
    ensures Walk(tree, [], folder + [name, []] + rest, links) == Walk(tree, [], folder + [name] + rest, links)
  {
    var inner := folder + [name];
    RealDirectoryParts(tree, inner);
    assert Parent(inner) == folder && folder == inner[..|folder|];
    forall i | 0 <= i < |folder| ensures Plain(folder[i]) {
      assert folder[i] == inner[i];
    }
    WalkDown(tree, folder, rest, links);
    WalkDown(tree, inner, rest, links);
    forall c: Bytes | true ensures folder + [name, c] + rest == inner + ([c] + rest) && ([c] + rest)[1..] == rest {}
    WalkDown(tree, inner, [DOTDOT] + rest, links);
    WalkDown(tree, inner, [[DOT]] + rest, links);
    WalkDown(tree, inner, [[]] + rest, links);
  }

  /** A symbolic link: its target takes its place, from the root if it begins with a slash. */
  lemma WalkLink(tree: Tree, folder: Path, name: Bytes, rest: seq<Bytes>, links: nat)
    requires AllPlain(folder + [name]) && RealDirectory(tree, folder) && IsLink(tree, folder + [name])
    ensures var target := tree[folder + [name]].target;
            Walk(tree, [], folder + [name] + rest, links) ==
              if links == 0 then Failure(TooManyLinks)
              else if target != [] && target[0] == SLASH then
                Walk(tree, [], Split(target, SLASH) + rest, links - 1)
              else Walk(tree, [], folder + (Split(target, SLASH) + rest), links - 1)
  {
    var target := tree[folder + [name]].target;
    forall i | 0 <= i < |folder| ensures Plain(folder[i]) {
      assert folder[i] == (folder + [name])[i];
    }
    assert Plain((folder + [name])[|folder|]);
    assert folder + [name] + rest == folder + ([name] + rest) && ([name] + rest)[1..] == rest;
    WalkDown(tree, folder, [name] + rest, links);
    if links > 0 { WalkDown(tree, folder, Split(target, SLASH) + rest, links - 1); }
  }

  /** Nothing there, or a file with something behind it. */
  lemma WalkStops(tree: Tree, folder: Path, name: Bytes, rest: seq<Bytes>, links: nat)
    requires AllPlain(folder + [name]) && RealDirectory(tree, folder)
    ensures folder + [name] !in tree ==> Walk(tree, [], folder + [name] + rest, links) == Failure(Missing)
    ensures folder + [name] in tree && (tree[folder + [name]].File? || tree[folder + [name]].Special?) ==>
              Walk(tree, [], folder + [name] + rest, links)
              == if rest == [] then Success(folder + [name]) else Failure(NotADirectory)
  {
    forall i | 0 <= i < |folder| ensures Plain(folder[i]) {
      assert folder[i] == (folder + [name])[i];
    }
    assert Plain((folder + [name])[|folder|]);
    assert folder + [name] + rest == folder + ([name] + rest) && ([name] + rest)[1..] == rest;
    WalkDown(tree, folder, [name] + rest, links);
  }

  // ---------------------------------------------------------------------------
  // What the resolvers accept
  // ---------------------------------------------------------------------------

  /** With no link on the way, a walk leads to what is there, and only there. */
  lemma WalkThere(tree: Tree, path: Path, links: nat)
    requires WellFormed(tree) && AllPlain(path) && LinkFree(tree, path)
    ensures Walk(tree, [], path, links).Success? <==> path == [] || path in tree
    ensures Walk(tree, [], path, links).Success? ==> Walk(tree, [], path, links).value == path
  {
    assert [] + path == path;
    if Walk(tree, [], path, links).Success? {
      WalkWithoutLinks(tree, [], path, links);
      WalkIsReal(tree, [], path, links);
    }
    if path in tree {
      var folder, name := Parent(path), path[|path| - 1];
      forall i | 0 <= i <= |folder| ensures IsDir(tree, folder[..i]) {
        AncestorIsDir(tree, folder[..i], folder);
      }
      assert path == folder + [name] && path == path[..|path|];
      WalkDown(tree, folder, [name], links);
    }
  }

  /** The checks on the raw path, on names. */
  lemma ScreenOf(names: seq<Bytes>)
    requires AllPlain(names)
    ensures Screen(Join(names, SLASH)).None? <==>
              && (forall i | 0 <= i < |names| :: 0 !in names[i])
              && (names != [] ==> names[0][0] != '\\' as int && (|names[0]| > 1 ==> names[0][1] != ':' as int))
    ensures Join(names, SLASH) != [DOT] && (Join(names, SLASH) == [] <==> names == [])
    ensures names != [] ==> Split(Join(names, SLASH), SLASH) == names
  {
    hide Split;
    var relative := Join(names, SLASH);
    JoinBytes(names, SLASH, 0);
    if names != [] {
      JoinStart(names, SLASH);
      SplitJoin(names, SLASH);
      SplitJoin([[DOT]], SLASH);
      assert names != [[DOT]];
    }
  }

  /** With no link on the way `resolve` gives what is there, under any plain names that pass its checks. */
  lemma ResolveExactly(tree: Tree, root: Path, names: seq<Bytes>)
    requires WellFormed(tree) && AllPlain(root) && AllPlain(names) && LinkFree(tree, root + names)
    ensures Resolve(tree, root, Join(names, SLASH)).Success? <==>
              && (root + names == [] || root + names in tree)
              && (forall i | 0 <= i < |names| :: 0 !in names[i])
              && (names != [] ==> names[0][0] != '\\' as int && (|names[0]| > 1 ==> names[0][1] != ':' as int))
    ensures Resolve(tree, root, Join(names, SLASH)).Success? ==>
              Resolve(tree, root, Join(names, SLASH)).value == root + names
  {
    hide Walk, Screen, Split, LinkFree;
    ScreenOf(names);
    WalkThere(tree, root + names, MAX_LINKS);
    LinkFreePrefix(tree, root + names, |root|);
    assert (root + names)[..|root|] == root && (names == [] ==> root + names == root);
    WalkThere(tree, root, MAX_LINKS);
    if names != [] && root + names in tree {
      assert root <= Parent(root + names);
      AncestorIsDir(tree, root, Parent(root + names));
    }
  }

  /** `validate_filename` on a plain name: no control character and no backslash. */
  lemma ValidNameIs(name: Bytes)
    requires Plain(name)
    ensures ValidateFilename(name).None? <==>
              forall k | 0 <= k < |name| ::
                && name[k] >= 0x20 && name[k] != 0x7F && name[k] != '\\' as int
                && !(name[k] == 0xC2 && k + 1 < |name| && 0x80 <= name[k + 1] <= 0x9F)
  {
  }

  /** The canonical root and parent of a place with no link on the way. */
  lemma ParentThere(tree: Tree, root: Path, path: Path)
    requires WellFormed(tree) && AllPlain(path) && LinkFree(tree, path) && root < path
    ensures Canonicalize(tree, Parent(path)).Success? <==> Parent(path) == [] || Parent(path) in tree
    ensures Canonicalize(tree, Parent(path)).Success? ==>
              Canonicalize(tree, Parent(path)) == Success(Parent(path)) && Canonicalize(tree, root) == Success(root)
    ensures !IsLink(tree, path)
  {
    hide Walk, LinkFree;
    LinkFreeEnd(tree, path);
    LinkFreePrefix(tree, path, |root|);
    LinkFreePrefix(tree, path, |path| - 1);
    assert path[..|root|] == root && root <= Parent(path);
    WalkThere(tree, root, MAX_LINKS);
    WalkThere(tree, Parent(path), MAX_LINKS);
    if Parent(path) in tree && Parent(path) != root {
      assert root <= Parent(Parent(path));
      AncestorIsDir(tree, root, Parent(Parent(path)));
    }
  }

  /** `resolve_parent` on a path whose components are known, but for what makes it fail. */
  lemma AimOf(tree: Tree, root: seq<Bytes>, relative: Bytes, path: Path)
    requires Components(root + Split(relative, SLASH)) == path && path != [] && path[|path| - 1] != DOTDOT
    ensures Aim(tree, root, relative).Success? <==>
              && Screen(relative).None? && ValidateFilename(path[|path| - 1]).None?
              && Canonicalize(tree, root).Success? && Canonicalize(tree, Parent(path)).Success?
              && Canonicalize(tree, root).value <= Canonicalize(tree, Parent(path)).value
    ensures Aim(tree, root, relative).Success? ==>
              Aim(tree, root, relative).value == Canonicalize(tree, Parent(path)).value + [path[|path| - 1]]
  {
    hide Canonicalize, Screen, Split, Components, ValidateFilename;
  }

  lemma ResolveParentParts(tree: Tree, root: Path, names: seq<Bytes>)
    requires WellFormed(tree) && AllPlain(root) && AllPlain(names) && LinkFree(tree, root + names) && names != []
    ensures ResolveParent(tree, root, Join(names, SLASH)).Success? <==>
              && (Parent(root + names) == [] || Parent(root + names) in tree)
              && Screen(Join(names, SLASH)).None? && ValidateFilename(names[|names| - 1]).None?
    ensures ResolveParent(tree, root, Join(names, SLASH)).Success? ==>
              ResolveParent(tree, root, Join(names, SLASH)).value == root + names
  {
    hide Aim, Canonicalize, Screen, Split, LinkFree, Components, ValidateFilename, WellFormed, AllPlain, Join;
    var path := root + names;
    PlainPieces(root, names);
    ParentThere(tree, root, path);
    AimOf(tree, root, Join(names, SLASH), path);
    assert path[|path| - 1] == names[|names| - 1];
    assert path == Parent(path) + [path[|path| - 1]];
    assert root <= Parent(path);
  }

  /**
   With no link on the way `resolve_parent` gives the place, there or not, if the folder it
   is in is there, the names pass the checks of `resolve`, and no character of the last one
   is a control character or a backslash.
   */
  lemma ResolveParentExactly(tree: Tree, root: Path, names: seq<Bytes>)
    requires WellFormed(tree) && AllPlain(root) && AllPlain(names) && LinkFree(tree, root + names) && names != []
    ensures ResolveParent(tree, root, Join(names, SLASH)).Success? <==>
              && (Parent(root + names) == [] || Parent(root + names) in tree)
              && (forall i | 0 <= i < |names| :: 0 !in names[i])
              && names[0][0] != '\\' as int && (|names[0]| > 1 ==> names[0][1] != ':' as int)
              && var last := names[|names| - 1];
                 forall k | 0 <= k < |last| ::
                   && last[k] >= 0x20 && last[k] != 0x7F && last[k] != '\\' as int
                   && !(last[k] == 0xC2 && k + 1 < |last| && 0x80 <= last[k + 1] <= 0x9F)
    ensures ResolveParent(tree, root, Join(names, SLASH)).Success? ==>
              ResolveParent(tree, root, Join(names, SLASH)).value == root + names
  {
    hide ResolveParent, Screen, LinkFree, ValidateFilename, WellFormed;
    ResolveParentParts(tree, root, names);
    ScreenOf(names);
    ValidNameIs(names[|names| - 1]);
  }

  // ---------------------------------------------------------------------------
  // Names as text
  // ---------------------------------------------------------------------------

  lemma ControlCharacter(c: char, rest: Bytes)
    ensures HasControl(Utf8.CharBytes(c) + rest) <==>
              (c as int) < 0x20 || 0x7F <= c as int <= 0x9F || HasControl(rest)
  {
    var bytes, n := Utf8.CharBytes(c), |Utf8.CharBytes(c)|;
    var s := bytes + rest;
    Utf8.CharShape(c);
    assert forall i | 0 <= i < n :: s[i] == bytes[i];
    assert forall i | 0 <= i < |rest| :: s[n + i] == rest[i];
    if (c as int) < 0x20 || 0x7F <= c as int <= 0x9F {
      assert s[0] < 0x20 || s[0] == 0x7F || (s[0] == 0xC2 && 0x80 <= s[1] <= 0x9F);
    } else {
      assert s[0] >= 0x20 && s[0] != 0x7F && (s[0] == 0xC2 ==> s[1] > 0x9F);
    }
  }

  lemma NoControl()
    ensures !HasControl([])
  {
  }

  /** `char::is_control`, character by character: U+0000-001F, U+007F and U+0080-009F. */
  lemma {:induction false} ControlCharacters(text: string)
    ensures HasControl(Utf8.Encoded(text)) <==>
              exists i :: 0 <= i < |text| && ((text[i] as int) < 0x20 || 0x7F <= text[i] as int <= 0x9F)
  {
    hide HasControl, Utf8.CharBytes;
    if text != [] {
      ControlCharacter(text[0], Utf8.Encoded(text[1..]));
      ControlCharacters(text[1..]);
      assert forall i | 1 <= i < |text| :: text[i] == text[1..][i - 1];
    } else {
      NoControl();
    }
  }
}
