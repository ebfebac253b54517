# filewalker, modelled in Dafny

`filewalker` is a Rust crate whose one type, `FileWalker`, walks a directory tree
depth-first and lazily. It keeps an explicit stack of partly consumed directory
listings (`Vec<ReadDir>`); the last one is the directory being scanned. Each call of
`next_result` takes items from the top listing. It skips hidden names when asked to,
pushes the listing of a subdirectory, returns a non-directory entry (only regular
files when `file_only` is set) and pops an exhausted listing. An I/O error is
reported for that one call and does not end the walk. `Iterator::next` maps the
result of `next_result` to the iterator's item.

The model takes the filesystem as data (`FileSystem`):

- a listing is a sequence of items, each a read error or an entry;
- an entry has a byte name and the outcome of its type query (error, directory,
  regular file, other kind);
- a directory also carries the outcome of opening its own listing.

A stack frame is a listing plus a cursor (`WalkStep.Frame`).

- `WalkStep.Scan` is one call of `next_result` as a function of the stack and the two
  flags. `WalkStep.ScanConsumesOne` says what every call consumed and returned.
- `Walker.FileWalker` is the object itself: a class with the `stack` and the two flags.
  Its `NextResult` keeps the source's labelled outer loop over the top frame and its
  inner loop over that frame's items, and is proved to compute `Scan`.
- `Traversal` gives a separate recursive, pre-order definition of what a walk must
  report (`StackEvents`). It proves that each call reports the head of it and leaves
  the rest on the new stack (`ScanKeepsPending`). It also proves that calling
  `next_result` until the stack is empty reports exactly that (`DrainReportsAll`).
- `Descending` holds the correction of the finding below.
- `Scenarios` works through a small tree with a file, a hidden file and a subdirectory.

Two places where the code is followed over its own comments:

- The doc comment of `next` (src/lib.rs:83) says an error makes it return `None`. The
  code returns `Some(Err(e))` (src/lib.rs:87), and so does `WalkStep.ToItem`.
- The comment at src/lib.rs:64 says the walk jumps into the subdirectory. The
  `break 'iter_dir` at src/lib.rs:66 leaves the outer loop instead, so the call returns
  `Ok(None)` (see Findings). The main model keeps that behaviour.

A read error is modelled as one consumed item of the listing. A listing that keeps
failing is a listing with several `ReadError` items in a row.

## Model

| member | source | states |
|---|---|---|
| `Walker.FileWalker.Open` | src/lib.rs:19-24 | fails with exactly the root's open error and makes no walker, or makes a fresh walker whose stack is the root listing with cursor 0 and both flags off |
| `Walker.FileWalker.constructor` | src/lib.rs:22-23 | a new walker holds one frame, the root listing at cursor 0, with hidden filtering and file-only off |
| `Walker.FileWalker.FilterHiddenItems` | src/lib.rs:28-31 | sets the hidden flag to the argument, returns the same walker, and leaves the stack and the file-only flag unchanged |
| `Walker.FileWalker.FileOnly` | src/lib.rs:34-37 | sets the file-only flag to the argument, returns the same walker, and leaves the stack and the hidden flag unchanged |
| `Walker.FileWalker.NextResult` | src/lib.rs:39-76 | the nested loops return exactly the result and leave exactly the stack that `Scan` gives for the old stack and the flags |
| `Walker.FileWalker.Next` | src/lib.rs:84-90 | yields `ToItem` of the `next_result` result and leaves the stack `Scan` gives |
| `Walker.FileWalker.NextResultDescending` | src/lib.rs:39-76 | the loops with `continue 'iter_dir` at the push compute `ScanDescending`, so `Ok(None)` comes only with an empty stack |
| `WalkStep.Scan` | src/lib.rs:39-76 | keeps every cursor within its listing, grows the stack by at most one frame, and on an empty stack returns `Ok(None)` and leaves it empty, so later calls keep returning it |
| `WalkStep.ScanConsumesOne` | src/lib.rs:42-73 | each call either ends the walk, having popped only frames whose remaining items were all passed over, or stops in one frame after popping the frames above it, each of which held only passed-over items from its cursor on. In that frame it passes over some items and then consumes the item it stops at. Passed over means a hidden entry under hidden filtering, or a non-directory entry with a known type that file-only rejects. Frames below are kept. A returned entry is a regular file, or another non-directory kind when file-only is off, and never hidden under hidden filtering. An error is that item's read, type or open error, with nothing pushed. `Ok(None)` on a non-empty stack means that item was a non-hidden directory and its listing was pushed at cursor 0 |
| `WalkStep.ScanPopsExhausted` | src/lib.rs:71-73 | an exhausted top listing is popped and the same call goes on with its parent |
| `WalkStep.ScanSkipsHidden` | src/lib.rs:50-55 | under hidden filtering a hidden entry is consumed and passed over before its type is looked at, whatever that type or its listing would be |
| `WalkStep.ScanReportsErrorAtTop` | src/lib.rs:48-62 | a read error, a type error or a failed subdirectory open is returned at once, with the failing item consumed, nothing pushed and the depth unchanged, so the next call resumes at the following sibling |
| `WalkStep.ScanPushesDirectory` | src/lib.rs:58-66 | an opened, non-hidden subdirectory is pushed at cursor 0 directly above its parent, the frames below unchanged and the parent's cursor past it, and the call returns `Ok(None)` at once |
| `WalkStep.ScanNonDirectory` | src/lib.rs:67-70 | a non-hidden, non-directory entry is returned exactly when file-only is off or it is a regular file; otherwise it is consumed and the scan goes on in the same listing |
| `WalkStep.ToItem` | src/lib.rs:84-90 | `None` exactly for `Ok(None)`; an error becomes `Some(Err(e))`, an entry `Some(Ok(e))` |
| `WalkStep.ToItemLosesNothing` | src/lib.rs:84-90 | the mapping is invertible: `FromItem(ToItem(r)) == r` |
| `Traversal.ScanKeepsPending` | src/lib.rs:42-75 | what one call reports, followed by what the new stack still has to report, equals what the old stack had to report under the recursive pre-order account |
| `Traversal.ScanLightens` | src/lib.rs:42-73 | every call on a non-empty stack strictly decreases a well-founded weight (one per frame plus every unconsumed item, an opened directory weighing more than its listing), so the walk ends |
| `Traversal.DrainReportsAll` | src/lib.rs:39-76 | calling `next_result` until the stack is empty reports exactly the pre-order account: every admitted entry once, every error once, in listing order |
| `Traversal.IteratorRunIsPrefix` | src/lib.rs:84-90 | what the iterator yields before its first `None` is a prefix of that account |
| `Traversal.ItemEventsAdmitted` | src/lib.rs:50-69 | no entry one item's walk reports is a directory, has a hidden name under hidden filtering, or is a non-regular file under file-only |
| `Traversal.SuffixEventsAdmitted` | src/lib.rs:50-69 | no entry the rest of a listing reports is a directory, has a hidden name under hidden filtering, or is a non-regular file under file-only |
| `Traversal.StackEventsAdmitted` | src/lib.rs:50-69 | no entry a stack has still to report is a directory, has a hidden name under hidden filtering, or is a non-regular file under file-only |
| `Traversal.HiddenEntryNotReported` | src/lib.rs:50-55 | under hidden filtering, draining the walker from a stack whose next item is a hidden entry reports the same as draining it with that entry already consumed: no error from its type or listing and, for a hidden directory, nothing inside it |
| `Descending.ScanDescending` | src/lib.rs:63-66 | with the correction, the call keeps cursors valid, decreases the weight, and returns `Ok(None)` only with an empty stack |
| `Descending.ScanDescendingKeepsPending` | src/lib.rs:42-75 | the corrected call also reports the head of the pre-order account and leaves the rest on the new stack |
| `Descending.IteratorRunDescendingReportsAll` | src/lib.rs:84-90 | with the correction, the iterator yields exactly the pre-order account before its first `None` |
| `Descending.IteratorStopsAtFirstSubdirectory` | src/lib.rs:63-66 | for a root holding directory `d` that holds file `f`, the iterator as written yields nothing, the account is `[f]`, and the corrected iterator yields `[f]` |
| `Scenarios.MixedRootReportsAll` | src/lib.rs:67-69 | a root with `a`, `.h` and directory `s` holding `b` reports `a`, `.h`, `b` without filters |
| `Scenarios.MixedRootReportsUnhidden` | src/lib.rs:50-55 | the same root reports only `a` and `b` under hidden filtering |
| `Scenarios.MixedRootIteratorStopsBeforeB` | src/lib.rs:66 | on that root the iterator as written yields `a` and `.h`, then stops at `s` before reaching `b` |

## Findings

| source | as written | input that shows it | evidently intended | confidence | as-written member | corrected member |
|---|---|---|---|---|---|---|
| src/lib.rs:66 | after pushing a subdirectory's listing, `break 'iter_dir` leaves the outer `while`, so `next_result` returns `Ok(None)` and `next` returns `None`. That is the end of iteration for any iterator consumer, such as the `take(50).flatten()` in examples/simple_discover.rs | a root holding only directory `d`, which holds regular file `f`: the first `next` returns `None` and `f` is never yielded | `continue 'iter_dir`, so the same call goes on into the pushed listing (the comments at src/lib.rs:64-65 say so) | high; not executed | `Descending.IteratorStopsAtFirstSubdirectory` | `Descending.IteratorRunDescendingReportsAll` |

## Left out

- Real filesystem calls (`read_dir`, `DirEntry::file_type`, `entry.path()`) are not modelled. Their outcomes are given in advance as data: each listing's items, each entry's type outcome, each directory's open outcome.
- The listing order the operating system returns is not modelled. A listing is an arbitrary given sequence, so no sibling order is assumed.
- The `OsStr` to byte conversion (src/lib.rs:3, 51-52) is not modelled. A name is a byte sequence from the start.
- Paths and their display are not modelled. An entry's identity is its name and type.
- Symbolic links are not modelled. `file_type()` does not follow them, so a link is one `OtherKind` entry.
- The contents of an I/O error are not kept beyond an opaque code.
- Releasing listings when frames are popped or the walker is dropped is not modelled. That is Rust's automatic resource release, with no logic in this code.
- Thread safety is not modelled: the crate has no concurrency.
- examples/simple_discover.rs is not modelled. It is console output over standard iterator adaptors.
- The builder methods take and return the walker by value in Rust. Here they update the object in place and return it.
