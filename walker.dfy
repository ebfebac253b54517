/** The `FileWalker` object: its stack of partly consumed listings and its two
    filter flags, the builder methods that set the flags, and the two calls that
    advance the walk. */
module Walker {
  import opened Results
  import opened FileSystem
  import opened WalkStep
  import opened Traversal
  import opened Descending

  class FileWalker {
    /** One frame per open listing; the last frame is the directory being scanned. */
    var stack: Stack
    var filterHiddenFiles: bool
    var fileOnly: bool

    ghost predicate Valid()
      reads this
    {
      ValidStack(stack)
    }

    constructor (root: Listing)
      ensures Valid()
      ensures stack == [Frame(root, 0)] && !filterHiddenFiles && !fileOnly
    {
      stack := [Frame(root, 0)];
      filterHiddenFiles := false;
      fileOnly := false;
    }

    /** `FileWalker::open`: fails with the root's own error and produces no walker, or
        produces a walker whose stack holds exactly the root listing, both flags off. */
    static method Open(root: OpenOutcome) returns (r: Result<FileWalker, IoError>)
      ensures r.Err? <==> root.OpenError?
      ensures root.OpenError? ==> r == Err(root.error)
      ensures r.Ok? ==> fresh(r.value) && r.value.Valid()
      ensures r.Ok? ==> r.value.stack == [Frame(root.listing, 0)]
      ensures r.Ok? ==> !r.value.filterHiddenFiles && !r.value.fileOnly
    {
      match root
      case OpenError(e) =>
        r := Err(e);
      case Opened(listing) =>
        var walker := new FileWalker(listing);
        r := Ok(walker);
    }

    /** `filter_hidden_items(flag)`: sets the hidden filter and nothing else. */
    method FilterHiddenItems(flag: bool) returns (w: FileWalker)
      modifies this`filterHiddenFiles
      ensures w == this
      ensures filterHiddenFiles == flag
      ensures stack == old(stack) && fileOnly == old(fileOnly)
    {
      filterHiddenFiles := flag;
      w := this;
    }

    /** `file_only(flag)`: sets the regular-files-only filter and nothing else. */
    method FileOnly(flag: bool) returns (w: FileWalker)
      modifies this`fileOnly
      ensures w == this
      ensures fileOnly == flag
      ensures stack == old(stack) && filterHiddenFiles == old(filterHiddenFiles)
    {
      fileOnly := flag;
      w := this;
    }

    /** `next_result`, with the source's labelled outer loop over the top frame and
        inner loop over that frame's items. Its result and new stack are those of
        `Scan`; the flags do not change. */
    method NextResult() returns (r: Outcome)
      requires Valid()
      modifies this`stack
      ensures Valid()
      ensures (r, stack) == Scan(old(stack), filterHiddenFiles, fileOnly)
    {
      label IterDir:
      while stack != []
        invariant ValidStack(stack)
        invariant Scan(stack, filterHiddenFiles, fileOnly) == Scan(old(stack), filterHiddenFiles, fileOnly)
        decreases |stack|
      {
        ghost var depth := |stack|;
        while !Top(stack).Exhausted()
          invariant |stack| == depth && ValidStack(stack)
          invariant Scan(stack, filterHiddenFiles, fileOnly) == Scan(old(stack), filterHiddenFiles, fileOnly)
          decreases Top(stack).Remaining()
        {
          var item := Top(stack).Current();
          AdvanceTopValid(stack);
          stack := AdvanceTop(stack);
          match item
          case ReadError(e) =>
            return Err(e);
          case Found(entry) =>
            if filterHiddenFiles && IsHidden(entry.name) {
              continue;
            }
            var fileType := entry.fileType;
            if fileType.TypeError? {
              return Err(fileType.error);
            }
            if fileType.Directory? {
              match fileType.open {
                case OpenError(e) =>
                  return Err(e);
                case Opened(child) =>
                  stack := stack + [Frame(child, 0)];
                  break IterDir;
              }
            } else if Yields(entry, fileOnly) {
              return Ok(Some(entry));
            }
        }
        stack := Pop(stack);
      }
      return Ok(None);
    }

    /** `next_result` with `continue 'iter_dir` in place of `break 'iter_dir`: after
        pushing a subdirectory the same call goes on scanning it. Its result and new
        stack are those of `ScanDescending`, so `Ok(None)` leaves an empty stack. */
    method NextResultDescending() returns (r: Outcome)
      requires Valid()
      modifies this`stack
      ensures Valid()
      ensures (r, stack) == ScanDescending(old(stack), filterHiddenFiles, fileOnly)
    {
      label IterDir:
      while stack != []
        invariant ValidStack(stack)
        invariant ScanDescending(stack, filterHiddenFiles, fileOnly) == ScanDescending(old(stack), filterHiddenFiles, fileOnly)
        decreases StackWeight(stack)
      {
        ghost var weight := StackWeight(stack);
        while !Top(stack).Exhausted()
          invariant stack != [] && ValidStack(stack) && StackWeight(stack) <= weight
          invariant ScanDescending(stack, filterHiddenFiles, fileOnly) == ScanDescending(old(stack), filterHiddenFiles, fileOnly)
          decreases Top(stack).Remaining()
        {
          var item := Top(stack).Current();
          AdvanceTopValid(stack);
          AdvanceWeight(stack);
          stack := AdvanceTop(stack);
          match item
          case ReadError(e) =>
            return Err(e);
          case Found(entry) =>
            if filterHiddenFiles && IsHidden(entry.name) {
              continue;
            }
            var fileType := entry.fileType;
            if fileType.TypeError? {
              return Err(fileType.error);
            }
            if fileType.Directory? {
              match fileType.open {
                case OpenError(e) =>
                  return Err(e);
                case Opened(child) =>
                  PushWeight(stack, child);
                  stack := stack + [Frame(child, 0)];
                  continue IterDir;
              }
            } else if Yields(entry, fileOnly) {
              return Ok(Some(entry));
            }
        }
        stack := Pop(stack);
      }
      return Ok(None);
    }

    /** `Iterator::next`: one call of `next_result`, its result mapped by `ToItem`. */
    method Next() returns (item: Option<Event>)
      requires Valid()
      modifies this`stack
      ensures Valid()
      ensures item == ToItem(Scan(old(stack), filterHiddenFiles, fileOnly).0)
      ensures stack == Scan(old(stack), filterHiddenFiles, fileOnly).1
    {
      var r := NextResult();
      item := ToItem(r);
    }
  }
}
