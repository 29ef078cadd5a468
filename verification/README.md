# NasFiles: lock table, staged writes, path safety and QR arithmetic

This project models the parts of NasFiles that hold state or do arithmetic that is easy to
get wrong, and proves what they are for:

* the WebDAV engine (`webdav.rs`): the table of exclusive write locks, the guards every
  mutating handler passes, and PUT, MKCOL, DELETE, COPY, MOVE, LOCK and UNLOCK as whole steps
  over a filesystem in which every call may fail, also those whose failure the program takes
  for an answer, up to whole runs of arbitrary requests;
* names and containment: the DAV URL parser and printer, and the two resolvers of
  `safe_path.rs` in a tree with symbolic links;
* the SigV4 canonical query string (`sigv4.rs`);
* the QR arithmetic of `qr.ts` and the Base32 decoder of `totp.ts`.

`dafny verify dfyconfig.toml` checks everything. Handlers, loops and tables that change state
are methods and classes whose contracts relate the new state to the old one; what the program
promises is then proved about those relations. The contract of each handler is one predicate
of `Outcomes`, over the moments before and after it; a run is a chain of such steps.

## How the files fit together

| files | part of the program |
|---|---|
| `Wrappers`, `ByteStrings`, `Utf8` | options and results, `split`/`join`, UTF-8 and lossy decoding |
| `PercentCoding`, `DavPath` | percent-encoding, `DavTarget`, lock keys |
| `FileTree`, `Disk`, `SafePath` | the filesystem as a finite map, its failing calls, the two resolvers |
| `CopyEntry`, `Staging`, `Transfer`, `Upload` | the work-list copy, the staging guard, COPY/MOVE, the body of PUT |
| `Locks`, `LockRuns`, `Timeouts`, `WriteGuard` | the lock table, runs of it, the Timeout header, what a passed lock check buys |
| `Outcomes`, `HandlerProofs`, `WebDav` | what each handler may do, the lemmas behind that, the handlers |
| `Serving`, `History` | runs of arbitrary requests, and what every run keeps |
| `Requests` | what each method answers to names in a URL, in terms of places, bytes and characters |
| `SigV4` | the canonical query string |
| `Gf256`, `PowersOfTwo`, `ReedSolomon`, `BitStrings`, `QrData`, `QrPlacement`, `Base32` | QR and TOTP |

The functions that specify the parser, the resolvers, the lock tests and the handlers are
characterised once more without them: `Requests` says for every method, over the texts in a
URL, the place they name and the locks on names, which status it answers and what the tree is
then; characters, alphabets, digits, separators and constants are compared with literal text.

## What is assumed

* Handlers do not interleave. In LOCK the check and the insert are separate critical sections
  (`webdav.rs:453` and `webdav.rs:483`); exclusivity and the write guard hold for whole
  handler steps. Within a step the clock may advance between any two uses.
* The clock never goes back (`Instant`). Exclusivity does not even need that.
* A new UUID occurs in no name on the disk and in no token or path of a lock
  (`WriteGuard.Unused`); apart from that it is arbitrary. `Serving.FreshUuid` shows that such a
  value always exists.
* Any filesystem call may fail for reasons the program cannot see. `Disk.faults` counts such
  failures and `Disk.log` keeps them by number, so that contracts can say when a handler
  succeeds if there is none, and which call must have failed for something to be left behind
  or lost.
  `EXDEV` is not among them: each directory has a device, and a rename between two devices
  gives that answer.
* `exists()` and `is_dir()` answer "no" when they fail, and `resolve_parent` passes over a
  failure of its last check, the one for a symbolic link (`safe_path.rs:165-170`). What they
  answered in a step is recorded (`Outcomes.Seen`): a "yes" is right, a wrong "no" takes a
  failure (`Outcomes.Honest`). They follow symbolic links, as does the `File::create` of LOCK.
* A disk has room for some number of entries, whatever it is (`Disk.room`); making one more is
  a failing call. Only the end of a copy that runs into itself rests on this.
* `rename` is atomic. A failing `remove_dir_all` leaves any part of its own subtree, a failing
  copy or write leaves arbitrary content in the file it was writing.
* The write guard of a step speaks of users no folder of whom lies in another
  (`WriteGuard.SeparateRoots`), and of targets with no symbolic link on the way to them
  (`WriteGuard.ClearWay`); there may be links anywhere else. Over a run, both follow from its
  start: no link above, at or below a folder that a request may write (`History.Orderly`).
  Everything else is proved with symbolic links present.
* Strings are UTF-8 byte sequences.

## What the proofs found

* Section 7.4 of RFC 4918 wants a depth-0 lock on a collection to guard adding and removing
  members. A lock stands in the way of a request for a member exactly when it has depth
  infinity (`LockRuns.MembersGuardedIffInfinite`, with an input in
  `LockRuns.DepthZeroLeavesMembersOpen`).
* COPY and MOVE onto an existing destination are not atomic, but they replace it last. If the
  last rename fails, the old destination is already gone
  (`Transfer.OverwriteLosesDestination`). It takes such a failure: the old destination is as it
  was unless the source could be brought and the first call to fail, look-ups apart, was one of
  the swap, that is removing the destination, looking at it for that, or that rename
  (`HandlerProofs.DestinationLostOnlyInSwap`). Even then nothing there is altered or added,
  only missing, and when no destination existed and the clean-up works, the tree is as it was.
* On that same way out a copied source survives exactly when it does not lie in the
  destination (`Transfer.AbandonedCopyConservesIff`); the conservation clauses leave the other
  case out for everything that is not a rename. A MOVE across devices onto a folder its source
  is in cannot even succeed whole (`Transfer.MoveOntoAncestorDevours`).
* LOCK on an existing file empties it when `exists()` fails at `webdav.rs:465` and
  `File::create` then works. That is the only way: a granted lock leaves the file as it was
  unless that very call failed (`HandlerProofs.LockEmptiesIff`, with an input in
  `HandlerProofs.LockCanEmpty`).
* When `is_dir()` fails at `webdav.rs:1230`, a COPY or MOVE of a folder into itself is let
  through; there is no other way for the staging path to lie in the source
  (`HandlerProofs.StagingInsideIff`, with an input in `HandlerProofs.CopyRunsIntoItself`). Such a
  copy always finds more of its own output to copy (`CopyEntry.ChaseContinues`), so that it can
  only end in an error, when the disk is full if not before; it changes nothing but the staging
  entry, which the guard then removes unless that fails, too.
* A symbolic link on the way defeats the write guard. The link "~/l" to "~/d" makes a PUT of
  "~/l/f" write what a lock on "~/d/f" covers, and nothing stops it
  (`WriteGuard.LinkDefeatsGuard`). A request for one name is stopped by every lock that covers
  another exactly when that one is at or below it (`WriteGuard.EveryCoverBlocksIff`).
* A MOVE across filesystems drops special files without an error; it leaves the whole source at
  the destination exactly when there are none (`Transfer.CrossDeviceIsWholeIff`).
* The header of the staging section in `webdav.rs` says that every write is staged. MKCOL and
  the empty file LOCK creates are not; the model follows the code.
* Lock keys start with the root key, and the home root of every user is `~`. A lock taken in one
  user's home blocks, in every other home, exactly the paths it would block in its own, although
  the places are apart (`WriteGuard.HomeLocksCollide`).
* `reedSolomonGenerator` returns its list lowest coefficient first without the constant term,
  while `reedSolomonRemainder` reads a list highest first. For every degree a block over
  GF(2^8) can have, the divider is the standard one exactly for degrees 0 and 1
  (`ReedSolomon.DividerIsStandardOnlyBelowTwo`), and only for degree 1 do all data get the
  check symbols of ISO/IEC 18004; the single codeword 1 tells the others apart
  (`ReedSolomon.CheckSymbolsAreStandardIff`). Each of the two loops does what it is for on its own.
* `u8::from_str_radix` takes a leading `+`, so the decoder in `sigv4.rs` reads `%+5` as byte 5.
  The canonical query is a complete normal form for that decoder.
* A name whose second byte is a colon, first below a root, is taken for a drive letter: nothing
  can be read or written there, on any system (`SafePath.ResolveExactly`,
  `SafePath.ResolveParentExactly`). A name with a control character can be read, and copied
  from, but neither written, moved nor deleted (`Requests.TransferAnswers`).
* `decodeBase32` drops padding at the very end, then white space; a secret with padding and then
  white space is refused (`Base32.PaddingThenSpace`).

## Model

| member | source | states |
|---|---|---|
| `Locks.LockTable.Purge` | crates/nasfiles-server/src/webdav.rs:273-278 | every access first keeps exactly the locks whose time has not come, and those as they are |
| `Locks.LockTable.Conflict` | crates/nasfiles-server/src/webdav.rs:285-293 | answers with one of the live locks that block the key and are not named, and with none exactly if there is none |
| `Locks.LockTable.ActiveFor` | crates/nasfiles-server/src/webdav.rs:295-303 | lists exactly the live locks covering a path |
| `Locks.LockTable.Insert` | crates/nasfiles-server/src/webdav.rs:305-309 | files the lock under its token, on top of the live ones |
| `Locks.LockTable.Refresh` | crates/nasfiles-server/src/webdav.rs:311-321 | renews a live lock that covers the path, and refuses an expired, unknown or foreign one |
| `Locks.LockTable.Remove` | crates/nasfiles-server/src/webdav.rs:323-331 | removes a live lock filed under the token exactly when its own path is the one named |
| `Locks.LockTable.RemoveUnder` | crates/nasfiles-server/src/webdav.rs:334-338 | drops what has expired and what lies at or below the path; `Locks.RemovedUnderNames` says which locks these are |
| `Locks.RemovedUnderNames` | crates/nasfiles-server/src/webdav.rs:333-338 | a lock on names is left exactly if it is live and its names do not extend those given; a lock on a folder above stays |
| `Locks.ConflictNames` | crates/nasfiles-server/src/webdav.rs:285-293 | a lock on names is reported exactly if it is live, its token is not presented, and its names extend those asked for, or, with depth infinity, are extended by them |
| `Locks.CoversNames` | crates/nasfiles-server/src/webdav.rs:279-284 | a lock covers its own names and, with depth infinity, all that extend them, and nothing else |
| `Locks.AncestorsComparable` | crates/nasfiles-server/src/webdav.rs:362-367 | two ancestors of one path are equal or one is above the other, from the byte test alone |
| `Locks.OverlapBlocks` | crates/nasfiles-server/src/webdav.rs:279-293 | a lock that covers something a second lock would cover blocks the path of the second |
| `Locks.BlocksIsOverlap` | crates/nasfiles-server/src/webdav.rs:279-293 | `conflict` is exact: a lock blocks a depth-infinity request if and only if some path would be covered by both |
| `Locks.InsertKeepsExclusive` | crates/nasfiles-server/src/webdav.rs:453-483 | filing a lock that nothing blocks leaves no path covered twice |
| `LockRuns.LocksAreExclusive` | crates/nasfiles-server/src/webdav.rs:272-344 | over every run of whole handlers, at every instant, no path is covered by two live locks |
| `LockRuns.ExpiredStaysDead` | crates/nasfiles-server/src/webdav.rs:311-321 | an expired token is never live again unless a LOCK files it anew; no refresh revives it |
| `LockRuns.StepAgrees` | crates/nasfiles-server/src/webdav.rs:273-338 | each call answers as a table that never purges and filters on expiry would |
| `LockRuns.LazyPurgingIsInvisible` | crates/nasfiles-server/src/webdav.rs:272-338 | over every run under an ordered clock, all answers are those of the table that never purges |
| `LockRuns.MembersGuardedIffInfinite` | crates/nasfiles-server/src/webdav.rs:279-293 | whatever else the table holds, a lock on a collection stands in the way of a request for a member exactly when it has depth infinity |
| `LockRuns.DepthZeroLeavesMembersOpen` | crates/nasfiles-server/src/webdav.rs:279-293 | a collection locked with depth 0 and a member of it that the table lets anyone write |
| `DavPath.ParsePath` | crates/nasfiles-server/src/webdav.rs:173-207 | the parser, with its trimming and its loop, computes the target or the error of the specification |
| `DavPath.BuildHref` | crates/nasfiles-server/src/webdav.rs:210-224 | the printing loop computes the percent-encoded path, with a final slash for collections |
| `DavPath.ParsedSegments` | crates/nasfiles-server/src/webdav.rs:181-207 | every parsed target comes from a list of ordinary names: non-empty, UTF-8, no dot segments, separators or NUL |
| `DavPath.OrdinaryIff` | crates/nasfiles-server/src/webdav.rs:186-198 | an accepted name is the UTF-8 of a text that is not empty, "." or ".." and has no slash, backslash or NUL |
| `DavPath.UrlReads` | crates/nasfiles-server/src/webdav.rs:173-207 | a URL of such texts, every byte written as it is or as an escape in either case, with or without a slash at the end, leads to exactly those names |
| `DavPath.UrlRefuses` | crates/nasfiles-server/src/webdav.rs:186-198 | one piece that spells no such text, and the URL is a bad request |
| `DavPath.UrlSkips` | crates/nasfiles-server/src/webdav.rs:181-185 | empty pieces, between slashes or at the end, make no difference |
| `DavPath.UrlPrefix` | crates/nasfiles-server/src/webdav.rs:173-180 | "/webdav" is the root, and what is neither that nor below it is not found |
| `DavPath.HrefRoundTrip` | crates/nasfiles-server/src/webdav.rs:173-224 | parsing the printed URL of any parsed target, as collection or not, gives the target back |
| `DavPath.HrefInjective` | crates/nasfiles-server/src/webdav.rs:173-224 | different targets never share a URL |
| `DavPath.HrefSpelled` | crates/nasfiles-server/src/webdav.rs:210-224 | what is printed: "/webdav", a slash and the encoded name for each name, and a last slash for a collection |
| `DavPath.KeyOrderIsTreeOrder` | crates/nasfiles-server/src/webdav.rs:239-245 | equal keys mean equal targets, and the byte test on keys holds exactly when one list of names properly extends the other |
| `DavPath.JoinOrder` | crates/nasfiles-server/src/webdav.rs:362-367 | the same on lists of any names an entry may have: the byte test is the proper-prefix relation, and joining is injective |
| `PercentCoding.DecodeStrictBytes` | crates/nasfiles-server/src/webdav.rs:1444-1460 | the index loop decodes every escape and refuses a truncated or non-hexadecimal one |
| `PercentCoding.EncodeBytes` | crates/nasfiles-server/src/webdav.rs:1471-1482 | the encoding loop (also `uri_encode`) writes unreserved bytes as they are and the rest as upper-case escapes |
| `PercentCoding.DecodeStrictEncode` | crates/nasfiles-server/src/webdav.rs:1444-1482 | decoding what was encoded gives the bytes back |
| `PercentCoding.HexDigitsAre` | crates/nasfiles-server/src/webdav.rs:1462-1482 | the digits of an escape are those of "0123456789abcdef" and "0123456789ABCDEF"; the second are written |
| `PercentCoding.EncodeSpelled` | crates/nasfiles-server/src/webdav.rs:1471-1482 | the encoder writes letters, decimal digits and "-._~" as they are, a slash if told to, any other byte as an escape in upper case, byte by byte |
| `PercentCoding.DecodeStrictIff` | crates/nasfiles-server/src/webdav.rs:1444-1460 | the strict decoder reads a string exactly from its spellings: each byte as it is, percent sign apart, or as an escape in either case |
| `SafePath.ResolveIsContained` | crates/nasfiles-core/src/safe_path.rs:43-91 | whatever `resolve` returns lies under the canonical root and is reached without passing a symbolic link |
| `SafePath.ResolveParentIsContained` | crates/nasfiles-core/src/safe_path.rs:106-173 | whatever `resolve_parent` returns names an entry of a real directory under the canonical root, also when its last check fails and is passed over; if it does not fail, the entry is no link |
| `SafePath.CreateThenRead` | crates/nasfiles-core/src/safe_path.rs:43-173 | if `resolve_parent` gives `t` for slash-joined plain names and a non-link is put there, `resolve` gives exactly `t` |
| `SafePath.NoLinksNoAlias` | crates/nasfiles-core/src/safe_path.rs:106-173 | without links on the way to the parent, `resolve_parent` leads to the folder followed by the names |
| `SafePath.ResolveExactly` | crates/nasfiles-core/src/safe_path.rs:43-91 | with no link on the way, `resolve` gives the folder followed by the names exactly if that is there, no name holds a NUL, and the first neither begins with a backslash nor has a colon as its second byte |
| `SafePath.ResolveParentExactly` | crates/nasfiles-core/src/safe_path.rs:106-190 | with no link on the way, `resolve_parent` gives the place exactly if the folder it is in is there, the names pass those checks, and the last has no control character and no backslash, byte by byte |
| `SafePath.ControlCharacters` | crates/nasfiles-core/src/safe_path.rs:187-187 | a name holds a control character exactly if one of its characters is U+0000-001F or U+007F-009F |
| `SafePath.WalkDots` | crates/nasfiles-core/src/safe_path.rs:62-77 | in a real directory "." and nothing stay where they are, and ".." undoes a name |
| `SafePath.WalkLink` | crates/nasfiles-core/src/safe_path.rs:62-77 | a link is replaced by its target, seen from the folder it is in or, after a slash, from the root, as long as the limit lasts |
| `SafePath.WalkStops` | crates/nasfiles-core/src/safe_path.rs:62-77 | a walk ends at what is missing, and at a file with something behind it |
| `CopyEntry.CopyFile` | crates/nasfiles-server/src/webdav.rs:1314-1317 | one copied file appears at its place; a failure changes nothing but that file |
| `CopyEntry.CopyChild` | crates/nasfiles-server/src/webdav.rs:1329-1344 | one round of the inner loop: links are refused, directories made and queued, files copied, special files passed over; unless a call fails, only a link is an error |
| `CopyEntry.CopyDirectory` | crates/nasfiles-server/src/webdav.rs:1327-1345 | the inner loop, in whatever order names are yielded, reaches exactly the children of one directory; every directory among them is queued, also in a copy into itself |
| `CopyEntry.CopyTree` | crates/nasfiles-server/src/webdav.rs:1325-1347 | the loop over the work list ends; it succeeds only on a source that does not hold the destination, with the whole tree copied |
| `CopyEntry.CopyEntry` | crates/nasfiles-server/src/webdav.rs:1306-1348 | success means an exact recursive copy of the files and directories of a source without links and without the destination; unless a call fails, such a source is copied; nothing outside the destination ever changes, and what a failure leaves there are entries of that source, the content of files apart |
| `CopyEntry.EmptyWorkListIsComplete` | crates/nasfiles-server/src/webdav.rs:1326-1347 | an empty work list means that every entry of the source has had its turn |
| `CopyEntry.ChaseContinues` | crates/nasfiles-server/src/webdav.rs:1326-1345 | in a copy into itself, one round of the outer loop leaves a directory to be copied whose copy lies in the source again |
| `Staging.StagingIsOutside` | crates/nasfiles-server/src/webdav.rs:998-1002 | a missing sibling of the destination lies in the source exactly when the destination does, and never holds it |
| `Staging.Staged.Drop` | crates/nasfiles-server/src/webdav.rs:980-996 | a kept entry stays; a renamed one goes back and any other is removed, unless that very call fails, or the `is_dir` in front of it, or there is no way back |
| `Transfer.Swap` | crates/nasfiles-server/src/webdav.rs:1280-1285 | the old destination is replaced by the staged entry, also if `exists` did not see it; or at most part of it is gone, and only if one of these very calls is the first to fail |
| `Transfer.Stage` | crates/nasfiles-server/src/webdav.rs:1254-1278 | rename for a MOVE, copy for a COPY or across filesystems; it fails if the destination lies in the source; a failure touches only the staging path |
| `Transfer.Replace` | crates/nasfiles-server/src/webdav.rs:1254-1286 | staging and the swap: done as a whole, or called off with the old destination untouched, unless the source was staged and a call of the swap was the first to fail |
| `Transfer.Finish` | crates/nasfiles-server/src/webdav.rs:1286-1291 | after the swap the destination stays complete, whatever becomes of the removal of a copied source, which leaves a part of it at most |
| `Transfer.Transfer` | crates/nasfiles-server/src/webdav.rs:1254-1291 | whichever call fails, the `exists` before it included: every file and directory of the source is complete at source, staging path or destination, and nothing else changes; an old destination is touched only once the source has been staged, and lost only if a call of the swap is the first to fail; an entry is left at the staging path only if clearing it away failed last, or its way back is gone, and it holds nothing but what was being brought; no symbolic link appears that the source did not hold; if no call fails, an error changes nothing, and every rename and every source that can be copied succeeds; a destination in the source ends in an error that touches only the staging path |
| `Transfer.RollBack` | crates/nasfiles-server/src/webdav.rs:1280-1285 | after a failed swap the guard puts a renamed source back, or removes the staged copy, unless that call fails |
| `Transfer.MovedBack` | crates/nasfiles-server/src/webdav.rs:980-990 | renaming the staged entry back undoes the rename |
| `Transfer.SwapOrRollBack` | crates/nasfiles-server/src/webdav.rs:1280-1286 | once the source is staged, the swap succeeds, or is rolled back with nothing but the staging path changed unless one of its own calls failed first |
| `Transfer.SwapFailedAfterRename` | crates/nasfiles-server/src/webdav.rs:980-996 | a swap that fails after a rename leaves the entry restored or whole at the staging path, even if the restore fails |
| `Transfer.SwapFailedAfterCopy` | crates/nasfiles-server/src/webdav.rs:1280-1285 | a swap that fails after a copy leaves the source untouched |
| `Transfer.SourceTakenAway` | crates/nasfiles-server/src/webdav.rs:1288-1291 | however much of the source a failing removal leaves, the destination is complete |
| `Transfer.OverwriteLosesDestination` | crates/nasfiles-server/src/webdav.rs:1280-1285 | replacing an existing destination is not atomic: one way out leaves the tree without it |
| `Transfer.AbandonedCopyConservesIff` | crates/nasfiles-server/src/webdav.rs:1280-1285 | on the way out of a copy whose last rename fails, the source survives exactly when it does not lie in the destination |
| `Transfer.MoveOntoAncestorDevours` | crates/nasfiles-server/src/webdav.rs:1280-1291 | a MOVE across devices onto a folder its source is in ends in an error, or without a part of what it brought |
| `Transfer.CrossDeviceIsWholeIff` | crates/nasfiles-server/src/webdav.rs:1326-1347 | a copied MOVE leaves the whole source at the destination exactly when it held no special file |
| `Upload.Stream` | crates/nasfiles-server/src/webdav.rs:1053-1071 | the chunk loop writes all chunks in order; despite saturating counting it refuses only bodies longer than the limit and passes none |
| `Upload.ReceivedIs` | crates/nasfiles-server/src/webdav.rs:1053-1065 | the bytes received are those of the chunks, in their order |
| `Upload.OneReason` | crates/nasfiles-server/src/webdav.rs:1053-1062 | a body that breaks off within the limit is not too large, and not whole |
| `Upload.StoreBody` | crates/nasfiles-server/src/webdav.rs:1044-1076 | all or nothing: success replaces the target by all bytes received, an error leaves the tree as it was, up to one file at the staging path if removing that is the call that failed; if no call fails, every whole body within the limit is stored; a directory is never replaced |
| `WriteGuard.CoverBelowBlocks` | crates/nasfiles-server/src/webdav.rs:285-293 | a lock covering anything at or below a name list blocks that list |
| `WriteGuard.ParsedIsWellParsed` | crates/nasfiles-server/src/webdav.rs:173-207 | every target the parser returns is one the handlers are proved for |
| `WriteGuard.PlaceOrder` | crates/nasfiles-server/src/webdav.rs:1377-1393 | where no folder lies in another, a place at or below another has names that extend the names of the other |
| `WriteGuard.GuardHolds` | crates/nasfiles-server/src/webdav.rs:285-293 | changes confined to places whose names nothing blocked touch no covered path of a lock that was not named, in any tree, whatever the entries are called |
| `WriteGuard.EveryCoverBlocksIff` | crates/nasfiles-server/src/webdav.rs:279-293 | a request for one name is stopped by every lock that covers another exactly when the other is at or below it |
| `WriteGuard.LinkDefeatsGuard` | crates/nasfiles-server/src/webdav.rs:1377-1393 | a tree with one link, a lock of depth 0 and a target that leads to what it covers without being blocked |
| `WriteGuard.FreshSiblingUnblocked` | crates/nasfiles-server/src/webdav.rs:998-1002 | a lock that covers an entry staged beside a target under a fresh name covers the target |
| `WriteGuard.HomeLocksCollide` | crates/nasfiles-server/src/fs/roots.rs:45-63 | a lock in one home blocks in any other home exactly the paths it would block in its own, though no place is shared |
| `WebDav.Server.ResolveWriteTarget` | crates/nasfiles-server/src/webdav.rs:1377-1393 | where a write goes, or a refusal that says nothing about locks; a link is handed out only if looking for one failed; unless a call fails, 403 for no name or no right and 409 if the target leads nowhere or to a link; `Requests.WritesTo` says where that is |
| `WebDav.Server.ResolveMutatingExisting` | crates/nasfiles-server/src/webdav.rs:1395-1419 | an entry that exists and is no link, whatever fails |
| `WebDav.Server.ResolveExisting` | crates/nasfiles-server/src/webdav.rs:1362-1375 | the path a readable target resolves to; unless a call fails, 403 for no right and 404 for nothing there; `Requests.ReadsFrom` says where that is |
| `WebDav.Server.Put` | crates/nasfiles-server/src/webdav.rs:1008-1083 | a success is 201 or 204 and means that the target holds the bytes received; otherwise the tree is as it was, up to one file beside it if removing that is the call that failed; the status tells whether the target was seen to exist, which a failing `exists` alone gets wrong; limit, declared length and locks are heeded; only expired locks go; if no call fails, every allowed upload succeeds |
| `WebDav.Server.ResolveFillable` | crates/nasfiles-server/src/webdav.rs:1015-1027 | what PUT checks before the locks: unless a call fails, refused exactly if the target leads to no place that may be filled |
| `WebDav.Server.StoreUpload` | crates/nasfiles-server/src/webdav.rs:1044-1083 | the same from the staging file on |
| `WebDav.Server.Mkcol` | crates/nasfiles-server/src/webdav.rs:1085-1111 | success is 201 and exactly one new directory, anything else changes nothing; unless a call fails, it succeeds exactly if the place is free, in a directory and not blocked |
| `WebDav.Server.ResolveVacant` | crates/nasfiles-server/src/webdav.rs:1085-1100 | what MKCOL checks before the locks, with the status for each check that fails |
| `WebDav.Server.Delete` | crates/nasfiles-server/src/webdav.rs:1113-1142 | success is 204 and removes the subtree and exactly its locks; a failure leaves the tree, or part of the subtree if removing it is the call that failed, and every live lock; if no call fails, it succeeds exactly if the entry exists and nothing blocks it |
| `WebDav.Server.RemoveAt` | crates/nasfiles-server/src/webdav.rs:1133-1141 | the same once the locks have been checked |
| `WebDav.Server.CopyOrMove` | crates/nasfiles-server/src/webdav.rs:1195-1304 | the two ends are those the targets resolve to and the staging path is the one beside the destination; everything `Transfer` promises, whatever `is_dir` and `exists` answered, an old destination lost only if the first call of the whole request to fail, look-ups apart, is one of the swap; exactly the locks of a moved source, and of a replaced destination that was seen, dropped; a status that tells whether it was seen; if no call fails, success exactly if both ends resolve and lie apart, Overwrite allows it, the source can be carried and no lock hinders it |
| `WebDav.Server.CarryOut` | crates/nasfiles-server/src/webdav.rs:1254-1304 | the same from the staging entry on |
| `WebDav.Server.Admit` | crates/nasfiles-server/src/webdav.rs:1203-1252 | the checks before the first write: both paths, both locks, the Overwrite header; what they let through wrongly takes a failing `is_dir`, `exists` or look for a link |
| `WebDav.Server.ResolveEnds` | crates/nasfiles-server/src/webdav.rs:1203-1233 | two ends that differ, the destination in a directory; if it lies in the source, `is_dir` on the source was the call that failed last |
| `WebDav.Server.CheckEnds` | crates/nasfiles-server/src/webdav.rs:1235-1243 | refused exactly when a live lock that was not named blocks the destination, or the source of a MOVE |
| `WebDav.Server.Lock` | crates/nasfiles-server/src/webdav.rs:423-490 | a grant is an unblocked new lock under a token not in the table, or the renewed live lock of the first token; a resource that was not seen is created empty, or emptied if `exists` on it was the call that failed; no other live lock is touched; if no call fails, a lock is given exactly when one of the two is there to give |
| `WebDav.Server.Acquire` | crates/nasfiles-server/src/webdav.rs:453-490 | the same for a request with a body |
| `WebDav.Server.Renew` | crates/nasfiles-server/src/webdav.rs:441-451 | renews exactly a live lock of that token that covers the path, and touches no other |
| `WebDav.Server.Grant` | crates/nasfiles-server/src/webdav.rs:475-483 | the new lock is in the table under its token, expiring its timeout after the grant, and every other live lock is still there |
| `WebDav.Server.Unlock` | crates/nasfiles-server/src/webdav.rs:510-539 | succeeds exactly if the token is that of a live lock filed for that path; then that lock is gone, and no other live one |
| `Timeouts.FirstUnderstoodDecides` | crates/nasfiles-server/src/webdav.rs:403-421 | of any list the first entry that is understood decides, cut to 3600 seconds; without one, without a header, or with one that is not visible ASCII, 600 |
| `Timeouts.EntryIs` | crates/nasfiles-server/src/webdav.rs:408-417 | an entry is understood exactly if it is "infinite" in any mixture of cases, for an hour, or "Second-" and a decimal number that fits 64 bits, for so many seconds |
| `Timeouts.TimeoutIs` | crates/nasfiles-server/src/webdav.rs:403-421 | no header gives 600 seconds; such an entry with blanks around it gives its seconds, and never more than 3600 |
| `Timeouts.GrantedTimeoutIsKept` | crates/nasfiles-server/src/webdav.rs:346-421 | a client that sends back the timeout of its lock as the server prints it gets the same one |
| `HandlerProofs.StagingInsideIff` | crates/nasfiles-server/src/webdav.rs:1226-1233 | the self and descendant check lets a staging path in the source through exactly when the destination lies in that directory and `is_dir` did not say that it is one |
| `HandlerProofs.CopyRunsIntoItself` | crates/nasfiles-server/src/webdav.rs:1226-1252 | an input for which that happens |
| `HandlerProofs.LockEmptiesIff` | crates/nasfiles-server/src/webdav.rs:464-473 | a granted lock empties an existing file exactly when `exists` on that file was the last call to fail |
| `HandlerProofs.LockCanEmpty` | crates/nasfiles-server/src/webdav.rs:464-473 | an input for which that happens |
| `HandlerProofs.DestinationLostOnlyInSwap` | crates/nasfiles-server/src/webdav.rs:1254-1285 | if an existing destination has lost anything although the swap did not succeed, the source could be brought, and the first call to fail, look-ups apart, was one of the swap |
| `HandlerProofs.GrantIsSound` | crates/nasfiles-server/src/webdav.rs:453-483 | checking at one moment and filing a fresh token at a later one keeps the table exclusive and every other live lock |
| `HandlerProofs.TransferGuarded` | crates/nasfiles-server/src/webdav.rs:1235-1243 | whatever point a COPY or MOVE got to, every covered path it changed, its staging entry included, was covered by a lock the request named, if no link is on the way to its own targets |
| `Serving.Handle` | crates/nasfiles-server/src/webdav.rs:120-147 | any single request, from its raw path on, does what its handler promises, or nothing if the path cannot be read |
| `Serving.Serve` | crates/nasfiles-server/src/webdav.rs:120-147 | over every run of requests: each step does what its handler promises, and starts from the tree, the lock table and the clock the step before has left |
| `Serving.EveryStepIsGuarded` | crates/nasfiles-server/src/webdav.rs:285-293 | whatever a step changed and a lock live throughout covers, the request presented that lock's token, if no link is on the way to its own targets |
| `Requests.WritesTo` | crates/nasfiles-server/src/webdav.rs:1377-1393 | with no link on the way, a write goes to the folder of the first name followed by the others, exactly if the folder that is in is there, the second name has no colon as its second byte, and the last no control character |
| `Requests.ReadsFrom` | crates/nasfiles-server/src/webdav.rs:1362-1375 | a read goes to what is there, in the folder readable under the first name, whichever folders may be written |
| `Requests.StoppedIff` | crates/nasfiles-server/src/webdav.rs:279-293 | a request for names is stopped exactly by a live lock not presented, on them, on names that extend them, or with depth infinity on names they extend |
| `Requests.PutAnswers` | crates/nasfiles-server/src/webdav.rs:1008-1083 | if no call fails, PUT to the names of a place answers 403, 409, 405, 423, 413 or 400 in exactly the cases listed, with nothing changed, and otherwise 201 or 204 with exactly the bytes received at the place |
| `Requests.MkcolAnswers` | crates/nasfiles-server/src/webdav.rs:1085-1111 | the same for MKCOL: 403, 409, 405, 423, or 201 with one new directory at the place |
| `Requests.DeleteAnswers` | crates/nasfiles-server/src/webdav.rs:1113-1142 | the same for DELETE: 403, 404, 423, or 204 with the place and all below it gone, and nothing else |
| `Requests.TransferAnswers` | crates/nasfiles-server/src/webdav.rs:1195-1304 | the same for COPY and MOVE, whether or not the source of a COPY may be written: 403, 404, 409, 423, 412, or 201 or 204 with exactly the tree a copy or move should leave, path by path; 403 for a link in the source of a copy, and 400 for a device or pipe |
| `Requests.LockAnswers` | crates/nasfiles-server/src/webdav.rs:423-490 | the same for LOCK: 403, 409, 400, 412, 423, or 200 or 201 with the lock on these names in the table, with the owner, depth and time asked for, and what was missing created empty |
| `Requests.UnlockAnswers` | crates/nasfiles-server/src/webdav.rs:510-539 | the same for UNLOCK, whatever fails: 403, 400, 409, or 204 exactly for the token of a live lock taken on these very names |
| `Requests.BadPathAnswers` | crates/nasfiles-server/src/webdav.rs:120-136 | 404 for a path outside "/webdav", 400 for a name that will not do, and nothing happens |
| `Requests.BadDestinationAnswers` | crates/nasfiles-server/src/webdav.rs:1203-1213 | the same for the Destination header, missing or bad, of a COPY or MOVE; 403 comes first if the source has no name |
| `Requests.LocksAreTaken` | crates/nasfiles-server/src/webdav.rs:475-483 | over every run that starts without locks, every lock is on the names of some target |
| `Requests.MadeUpNames` | crates/nasfiles-server/src/webdav.rs:998-1002 | staging entries are called ".webdav-upload-" or ".webdav-stage-", the UUID, a dash and the name; tokens are "opaquelocktoken:" and the UUID |
| `History.StepAddsNoLinks` | crates/nasfiles-server/src/webdav.rs:120-147 | no step of a user whose folders hold no symbolic link makes one, whatever it leaves behind |
| `History.RunIsGuarded` | crates/nasfiles-server/src/webdav.rs:285-293 | the same at every step of every run whose start has no link above, at or below the folders its requests may write; no two locks ever cover one path, and no link is made |
| `History.StepKeepsLock` | crates/nasfiles-server/src/webdav.rs:305-338 | a step that does not end a lock keeps it, and changes its time only by renewing it; what ends it, expiry and UNLOCK apart, is a successful DELETE, MOVE or replacement of a target whose names are those of the lock or a beginning of them |
| `History.StepDropsLocks` | crates/nasfiles-server/src/webdav.rs:1292-1297 | and such a DELETE, MOVE or replacement does end it |
| `History.StepElsewhere` | crates/nasfiles-server/src/webdav.rs:120-147 | no step changes anything outside the folders its user may write, whatever fails |
| `History.LockSurvives` | crates/nasfiles-server/src/webdav.rs:305-338 | in every run a lock stays in the table until it expires, is unlocked, or its resource, or a folder that is in by its names, is deleted, moved or replaced |
| `History.LockProtects` | crates/nasfiles-server/src/webdav.rs:272-344 | in every such run, from the moment a lock is there until something ends it, nothing it covers changes: neither by those who may write there and do not present its token, nor by those whose folders have nothing to do with it |
| `SigV4.CanonicalQueryString` | crates/nasfiles-core/src/sigv4.rs:59-82 | the loop, sort and join compute the specified string; the three lemmas that follow say what it looks like |
| `SigV4.CanonicalIsSorted` | crates/nasfiles-core/src/sigv4.rs:76-81 | every piece between two "&" stands before the next: its key is a prefix of the other or smaller in the first byte in which they differ, or the keys are the same and that holds of the values |
| `SigV4.CanonicalShowsParameters` | crates/nasfiles-core/src/sigv4.rs:64-82 | the pieces are the parameters, each as often as it occurs, encoded, with "=" between |
| `SigV4.AtMostIsLexical` | crates/nasfiles-core/src/sigv4.rs:76-76 | the order of the sort is the lexical order of bytes |
| `SigV4.ParametersSpelled` | crates/nasfiles-core/src/sigv4.rs:64-73 | the parameters of a query are those of its pieces between "&"; an empty piece has none, one without "=" the empty value, and any other is cut at its first "=" |
| `SigV4.DecodeReadsText` | crates/nasfiles-core/src/sigv4.rs:85-103 | every spelling of a text, escapes in either case, is read as that text, a "+" as itself |
| `SigV4.SortedIsUnique` | crates/nasfiles-core/src/sigv4.rs:76-76 | sorted lists with the same members are equal, so the result does not depend on the sort |
| `SigV4.CanonicalIsCompleteNormalForm` | crates/nasfiles-core/src/sigv4.rs:59-103 | two raw queries give the same string if and only if they carry the same multiset of decoded pairs |
| `SigV4.CanonicalIsIdempotent` | crates/nasfiles-core/src/sigv4.rs:59-103 | the canonical string is its own canonical string, undecodable bytes included |
| `SigV4.PieceOrderIsIrrelevant` | crates/nasfiles-core/src/sigv4.rs:64-76 | reordering the parameters changes nothing |
| `PercentCoding.DecodeLenientBytes` | crates/nasfiles-core/src/sigv4.rs:85-103 | the decoder takes every parsable escape and leaves any other percent sign alone |
| `PercentCoding.DecodeLenientEncode` | crates/nasfiles-core/src/sigv4.rs:43-103 | decoding what was encoded gives the bytes back |
| `PercentCoding.DecodeLenientReads` | crates/nasfiles-core/src/sigv4.rs:85-103 | the lenient decoder reads every spelling of a string, too, and goes on behind it |
| `PercentCoding.DecodeLenientOther` | crates/nasfiles-core/src/sigv4.rs:91-100 | a percent sign that begins no escape stands for itself; "+" may take the place of the first digit |
| `Utf8.LossyIsValid` | crates/nasfiles-core/src/sigv4.rs:102-102 | lossy decoding always gives UTF-8 |
| `Utf8.ValidIff` | crates/nasfiles-server/src/webdav.rs:1459-1459 | what passes for UTF-8 is exactly the encodings of texts |
| `Utf8.LossyOfText` | crates/nasfiles-core/src/sigv4.rs:102-102 | text is kept as it is, and what is put for the rest is U+FFFD |
| `Utf8.IllFormedIsMaximal` | crates/nasfiles-core/src/sigv4.rs:102-102 | what is replaced is a run no character begins with, of one byte or the beginning of a character, as long as that can be said |
| `Gf256.GfMultiply` | web/src/lib/qr.ts:303-311 | the shift-and-reduce loop computes the product the field laws are proved about |
| `Gf256.GfPow` | web/src/lib/qr.ts:313-317 | the power loop computes the iterated product |
| `Gf256.MulCommutes` | web/src/lib/qr.ts:303-311 | the product commutes |
| `Gf256.MulAssociates` | web/src/lib/qr.ts:303-311 | the product associates |
| `Gf256.MulAddsRight` | web/src/lib/qr.ts:303-311 | the product distributes over xor |
| `Gf256.NoZeroDivisors` | web/src/lib/qr.ts:303-311 | a product is zero only if a factor is |
| `PowersOfTwo.NoShortCycle` | web/src/lib/qr.ts:303-317 | 2 has order 255: none of its powers from 2^1 to 2^254 is 1 |
| `PowersOfTwo.FieldIs` | web/src/lib/qr.ts:303-311 | sums are bitwise, and multiplying by 2 shifts and, past 255, reduces by 0x11D |
| `ReedSolomon.MultiplyInPlace` | web/src/lib/qr.ts:293-297 | one round of the outer loop multiplies the ascending list by (x + 2^i) in place |
| `ReedSolomon.ReedSolomonGenerator` | web/src/lib/qr.ts:291-299 | the loops leave the ascending coefficients of the product of all (x + 2^i), and the slice drops the first |
| `ReedSolomon.GeneratorIsProduct` | web/src/lib/qr.ts:291-299 | at every x, for every degree, the list evaluates to the product of the factors |
| `ReedSolomon.GeneratorRootsExactly` | web/src/lib/qr.ts:291-299 | its roots are exactly the powers it was built from |
| `ReedSolomon.ReedSolomonRemainder` | web/src/lib/qr.ts:278-289 | the shift-register loops compute the specified remainder for data of any length |
| `ReedSolomon.RemainderDivides` | web/src/lib/qr.ts:278-289 | data(x) times x^degree is a quotient times the monic polynomial of the list, plus that remainder |
| `ReedSolomon.RemainderIsUnique` | web/src/lib/qr.ts:278-289 | no other quotient and remainder do that |
| `ReedSolomon.PolyMulIsProduct` | web/src/lib/qr.ts:278-289 | the product the division speaks of multiplies values, at every point |
| `ReedSolomon.CodewordVanishes` | web/src/lib/qr.ts:278-289 | data and check symbols together vanish wherever the polynomial divided by does |
| `ReedSolomon.RemainderIsLinear` | web/src/lib/qr.ts:278-289 | the remainder is xor-linear in the data |
| `ReedSolomon.DividerIsStandardIff` | web/src/lib/qr.ts:278-300 | the list used for division is the standard divider exactly when the generator is a palindrome |
| `ReedSolomon.DividerIsStandardOnlyBelowTwo` | web/src/lib/qr.ts:278-300 | for every degree up to 254, the most a block can have, that is only degree 0 and 1 |
| `ReedSolomon.CheckSymbolsAreStandardIff` | web/src/lib/qr.ts:278-300 | up to that degree, all data get the check symbols of the standard only for degree 1; the codeword 1 tells the others apart |
| `QrData.AppendBits` | web/src/lib/qr.ts:259-261 | pushes the low bits, highest first |
| `QrData.PackBits` | web/src/lib/qr.ts:73-80 | bytes whose bits are the bit string |
| `QrData.PadCodewords` | web/src/lib/qr.ts:81-87 | appends the two pad codewords in turn up to the capacity |
| `QrData.EncodeData` | web/src/lib/qr.ts:64-87 | for a payload that fits, exactly the capacity is filled; the first codeword is mode 4 and the high half of the length, every further one a low half and the next high half, the rest 236 and 17 in turn; reading mode, length and bytes gives the payload back |
| `QrData.CodewordsAre` | web/src/lib/qr.ts:64-80 | the same of the packed bits |
| `QrData.SegmentReads` | web/src/lib/qr.ts:64-69 | anything that starts with the segment of a short payload reads back as that payload |
| `QrPlacement.PlaceOne` | web/src/lib/qr.ts:207-209 | a reserved cell is skipped, another is dark exactly if the next bit is there and 1 |
| `QrPlacement.DrawStrip` | web/src/lib/qr.ts:203-211 | a pair of columns takes the stream in walking order |
| `QrPlacement.DrawCodewords` | web/src/lib/qr.ts:190-213 | the k-th free cell of the walk is dark exactly if bit k of the codewords, the most significant bit of each first, is there and 1, and no other cell changes |
| `QrPlacement.OrderCells` | web/src/lib/qr.ts:201-213 | the walk passes every cell outside column 6 exactly once |
| `QrPlacement.WalkIsComplete` | web/src/lib/qr.ts:190-213 | with column 6 reserved, the cells used are exactly the unreserved ones, each once |
| `QrPlacement.WalkInOrder` | web/src/lib/qr.ts:201-213 | the order of the free cells: pairs of columns from the right, column 6 left out, up and down in turn, the right cell of a row first |
| `QrPlacement.ReadingDeterminesStream` | web/src/lib/qr.ts:196-208 | the symbol determines the stream up to its capacity and light padding |
| `Base32.DecodeBase32` | web/src/lib/totp.ts:84-101 | the cleaned text decodes to exactly the leading 8 * floor(5n / 8) bits of its concatenated 5-bit values; any other text is refused |
| `Base32.AlphabetIs` | web/src/lib/totp.ts:85-91 | the value of a character is its position in "ABCDEFGHIJKLMNOPQRSTUVWXYZ234567" |
| `Base32.SpaceIs` | web/src/lib/totp.ts:86-86 | the white space that is dropped, character by character |
| `Base32.DecodedBits` | web/src/lib/totp.ts:93-98 | bit k of what is decoded is bit k of the five-bit positions |
| `Base32.PaddingThenSpace` | web/src/lib/totp.ts:84-92 | a good secret with padding and white space behind it is accepted exactly if one of the two is missing |
| `Base32.DecodeCleaned` | web/src/lib/totp.ts:87-100 | the loop, on text that has been cleaned |
| `Base32.LowBits` | web/src/lib/totp.ts:93-94 | despite the wrap-around at 32 bits, the pending bits of the accumulator are right |
| `Base32.TakeEight` | web/src/lib/totp.ts:95-98 | the byte taken out is the leading eight pending bits, and the rest stays pending |

## Left out

- LockRuns.LocksAreExclusive: whole handlers only; two LOCK requests whose checks both run before either insert are not modelled.
- Serving.Serve: sequential requests only, for the same reason.
- History.RunIsGuarded: symbolic links on the way, or writable folders inside one another, can give one place two lock keys (`WriteGuard.LinkDefeatsGuard`). A place that two users reach under different root keys has a key for each, and a lock taken by one of them says nothing to the other.
- History.LockProtects: for the same reason, requests that can write at the place are to reach it under the name the lock was taken for.
- WebDav.Server.CopyOrMove: conservation is not stated for a COPY, or a MOVE across devices, onto a folder the source lies in, where it is false; cancellation between the staging rename and the setting of `restore_to` (`webdav.rs:1262-1264`) is not modelled.
- ReedSolomon.DividerIsStandardOnlyBelowTwo: stated up to degree 254, since a block over GF(2^8) has at most 255 codewords; beyond that the powers of 2 repeat.
- QrPlacement.DrawCodewords: symbols are square, of odd size 7 or more, as all nine versions are.
- QrData.EncodeData: the length is written in 8 bits; the branch for 16 bits cannot be taken, because the type of versions ends at 9.
- Base32.DecodeBase32: `toUpperCase` is a parameter, any function from a character to its capitals.
- Requests.TransferAnswers: a MOVE across devices onto a folder its source is in is left open, see `Transfer.MoveOntoAncestorDevours`; what is answered when a call fails is said by the outcome of each handler instead.
- SafePath.CreateThenRead: the lookup gives up after 40 symbolic links, as Linux does; permissions on directories are not modelled.
- Running out of space and missing permissions are failing calls like any other.
- `roots::resolve_root`: capabilities are replaced by a map from root keys to folders for reading and one for writing; any refusal reads as "forbidden". The first request for a home creates its folder (`roots.rs:53-59`), before any check and also if the request is then refused; that write is not part of this model.
- Parsing the `If`, `Lock-Token`, `Depth`, `Overwrite` and `Destination` headers, and the check of the destination host; their results are parameters.
- PROPFIND, GET, HEAD, XML and HTTP plumbing, authentication, ETags, and the wording of responses.
- HMAC, SHA-256 and the rest of signature verification: library cryptography.
- QR function patterns, masks, format bits, block interleaving and the choice of the symbol; only the loops named above are modelled.
- The remaining Rust crates and the user interface: job queue, search, SFTP, S3, shares, configuration, database.
