/** One call of `FileWalker::next_result`, as a function of the walker's stack and
    its two flags, together with what that call promises.

    The stack holds one frame per open directory listing, the root's first and the
    listing being scanned last. A frame is a listing and a cursor: the items before
    the cursor have been consumed by the listing's iterator. */
module WalkStep {
  import opened Results
  import opened FileSystem

  /** What `next_result` returns: `io::Result<Option<DirEntry>>`. */
  type Outcome = Result<Option<Entry>, IoError>

  /** What the walker's `Iterator::next` yields: `io::Result<DirEntry>`. */
  type Event = Result<Entry, IoError>

  datatype Frame = Frame(listing: Listing, cursor: nat) {

    predicate Valid()
    {
      cursor <= |listing.items|
    }

    predicate Exhausted()
    {
      cursor >= |listing.items|
    }

    /** The number of items the listing's iterator has still to produce. */
    function Remaining(): nat
    {
      if cursor <= |listing.items| then |listing.items| - cursor else 0
    }

    /** The item the listing's iterator produces next. */
    function Current(): Item
      requires !Exhausted()
    {
      listing.items[cursor]
    }

    function Advanced(): Frame
    {
      Frame(listing, cursor + 1)
    }
  }

  type Stack = seq<Frame>

  ghost predicate ValidStack(s: Stack)
  {
    forall i | 0 <= i < |s| :: s[i].Valid()
  }

  function Top(s: Stack): Frame
    requires s != []
  {
    s[|s| - 1]
  }

  function Pop(s: Stack): Stack
    requires s != []
  {
    s[..|s| - 1]
  }

  /** The stack after the top listing's iterator has produced one item. */
  function AdvanceTop(s: Stack): Stack
    requires s != []
  {
    Pop(s) + [Top(s).Advanced()]
  }

  lemma AdvanceTopValid(s: Stack)
    requires s != [] && ValidStack(s) && !Top(s).Exhausted()
    ensures ValidStack(AdvanceTop(s))
    ensures |AdvanceTop(s)| == |s| && Pop(AdvanceTop(s)) == Pop(s)
    ensures Top(AdvanceTop(s)).Remaining() < Top(s).Remaining()
  {
    assert Pop(AdvanceTop(s)) == Pop(s);
  }

  /** Whether `next` would yield the non-directory entry `entry`:
      `(file_only && is_file) || !file_only`. */
  predicate Yields(entry: Entry, fileOnly: bool)
  {
    (fileOnly && entry.fileType == RegularFile) || !fileOnly
  }

  /** `next_result` as written. The outer loop of the source visits the top frame; its
      inner loop consumes that frame's items one by one. A hidden entry (when hidden
      filtering is on) or an entry `fileOnly` rejects is consumed and scanning goes on;
      a read error, a type error or a failed subdirectory open is returned at once with
      the item consumed; an opened subdirectory is pushed and the call ends with
      `Ok(None)` (the `break 'iter_dir`); an exhausted top frame is popped and the
      scan goes on with its parent; an empty stack gives `Ok(None)`. */
  function Scan(s: Stack, hidden: bool, fileOnly: bool): (r: (Outcome, Stack))
    requires ValidStack(s)
    ensures ValidStack(r.1)
    ensures |r.1| <= |s| + 1
    ensures s == [] ==> r == (Ok(None), [])
    decreases |s|, if s == [] then 0 else Top(s).Remaining()
  {
    if s == [] then (Ok(None), s)
    else if Top(s).Exhausted() then Scan(Pop(s), hidden, fileOnly)
    else
      AdvanceTopValid(s);
      var next := AdvanceTop(s);
      match Top(s).Current()
      case ReadError(e) => (Err(e), next)
      case Found(entry) =>
        if hidden && IsHidden(entry.name) then Scan(next, hidden, fileOnly)
        else
          if entry.fileType.TypeError? then (Err(entry.fileType.error), next)
          else if entry.fileType.Directory? then
            (match entry.fileType.open
             case OpenError(e) => (Err(e), next)
             case Opened(child) => (Ok(None), next + [Frame(child, 0)]))
          else if Yields(entry, fileOnly) then (Ok(Some(entry)), next)
          else Scan(next, hidden, fileOnly)
  }

  /** An exhausted top listing is popped and the same call goes on with its parent. */
  lemma ScanPopsExhausted(s: Stack, hidden: bool, fileOnly: bool)
    requires ValidStack(s) && s != [] && Top(s).Exhausted()
    ensures ValidStack(Pop(s))
    ensures Scan(s, hidden, fileOnly) == Scan(Pop(s), hidden, fileOnly)
  {
  }

  /** Under hidden filtering a hidden entry is consumed and passed over whatever its
      type query or its listing would give, so a hidden directory is never pushed. */
  lemma ScanSkipsHidden(s: Stack, hidden: bool, fileOnly: bool)
    requires ValidStack(s) && s != [] && !Top(s).Exhausted()
    requires Top(s).Current().Found? && hidden && IsHidden(Top(s).Current().entry.name)
    ensures ValidStack(AdvanceTop(s))
    ensures Scan(s, hidden, fileOnly) == Scan(AdvanceTop(s), hidden, fileOnly)
  {
    AdvanceTopValid(s);
  }

  /** A read error, a type error or a failed subdirectory open is returned at once; the
      failing item is consumed, nothing is pushed and the depth stays the same. */
  lemma ScanReportsErrorAtTop(s: Stack, hidden: bool, fileOnly: bool, e: IoError)
    requires ValidStack(s) && s != [] && !Top(s).Exhausted()
    requires var item := Top(s).Current();
      item == ReadError(e) ||
      (item.Found? && !(hidden && IsHidden(item.entry.name)) &&
       (item.entry.fileType == TypeError(e) || item.entry.fileType == Directory(OpenError(e))))
    ensures Scan(s, hidden, fileOnly) == (Err(e), AdvanceTop(s))
    ensures |AdvanceTop(s)| == |s|
  {
  }

  /** An opened subdirectory is pushed as the new top, directly above its parent whose
      cursor is already past it, and the call returns `Ok(None)` without going on. */
  lemma ScanPushesDirectory(s: Stack, hidden: bool, fileOnly: bool, child: Listing)
    requires ValidStack(s) && s != [] && !Top(s).Exhausted()
    requires var item := Top(s).Current();
      item.Found? && !(hidden && IsHidden(item.entry.name)) &&
      item.entry.fileType == Directory(Opened(child))
    ensures Scan(s, hidden, fileOnly) == (Ok(None), AdvanceTop(s) + [Frame(child, 0)])
    ensures |Scan(s, hidden, fileOnly).1| == |s| + 1
    ensures Scan(s, hidden, fileOnly).1[..|s| - 1] == s[..|s| - 1]
  {
    var t := AdvanceTop(s) + [Frame(child, 0)];
    assert t[..|s| - 1] == s[..|s| - 1];
  }

  /** A non-directory entry is returned exactly when `fileOnly` is off or it is a regular
      file; otherwise it is consumed and the scan goes on in the same listing. */
  lemma ScanNonDirectory(s: Stack, hidden: bool, fileOnly: bool)
    requires ValidStack(s) && s != [] && !Top(s).Exhausted()
    requires var item := Top(s).Current();
      item.Found? && !(hidden && IsHidden(item.entry.name)) &&
      (item.entry.fileType == RegularFile || item.entry.fileType == OtherKind)
    ensures ValidStack(AdvanceTop(s))
    ensures var entry := Top(s).Current().entry;
      Scan(s, hidden, fileOnly) ==
        if !fileOnly || entry.fileType == RegularFile then (Ok(Some(entry)), AdvanceTop(s))
        else Scan(AdvanceTop(s), hidden, fileOnly)
  {
    AdvanceTopValid(s);
  }

  /** `Iterator::next`: a found entry and an error are both yielded, `Ok(None)` ends
      the iteration. */
  function ToItem(r: Outcome): (item: Option<Event>)
    ensures item == None <==> r == Ok(None)
    ensures r.Err? ==> item == Some(Err(r.error))
    ensures r.Ok? && r.value.Some? ==> item == Some(Ok(r.value.value))
  {
    match r
    case Ok(Some(entry)) => Some(Ok(entry))
    case Err(e) => Some(Err(e))
    case Ok(None) => None
  }

  /** The inverse of `ToItem`: the result of `next_result` can be read back from
      what `next` yields. */
  function FromItem(item: Option<Event>): Outcome
  {
    match item
    case None => Ok(None)
    case Some(Ok(entry)) => Ok(Some(entry))
    case Some(Err(e)) => Err(e)
  }

  lemma ToItemLosesNothing(r: Outcome)
    ensures FromItem(ToItem(r)) == r
  {
  }

  /** Whether the result `r` of a step accounts for the item it consumed last and for
      the frames `pushed` it left above that item's frame. */
  ghost predicate Explains(r: Outcome, item: Item, pushed: Stack, hidden: bool, fileOnly: bool)
  {
    match r
    case Err(e) =>
      pushed == [] &&
      (item == ReadError(e) ||
       (item.Found? && !(hidden && IsHidden(item.entry.name)) &&
        (item.entry.fileType == TypeError(e) || item.entry.fileType == Directory(OpenError(e)))))
    case Ok(Some(entry)) =>
      pushed == [] && item == Found(entry) && !(hidden && IsHidden(entry.name)) &&
      (entry.fileType == RegularFile || (entry.fileType == OtherKind && !fileOnly))
    case Ok(None) =>
      item.Found? && !(hidden && IsHidden(item.entry.name)) &&
      item.entry.fileType.Directory? && item.entry.fileType.open.Opened? &&
      pushed == [Frame(item.entry.fileType.open.listing, 0)]
  }

  /** An item a call consumes without returning: a hidden entry under hidden filtering,
      or a non-directory entry with a known type that `fileOnly` rejects. */
  predicate PassedOver(item: Item, hidden: bool, fileOnly: bool)
  {
    item.Found? &&
    ((hidden && IsHidden(item.entry.name)) ||
     (!item.entry.fileType.TypeError? && !item.entry.fileType.Directory? && !Yields(item.entry, fileOnly)))
  }

  /** Every item of `l` at an index in `lo .. hi - 1` is passed over. */
  ghost predicate PassesOver(l: Listing, lo: int, hi: int, hidden: bool, fileOnly: bool)
  {
    forall k | lo <= k < hi && 0 <= k < |l.items| :: PassedOver(l.items[k], hidden, fileOnly)
  }

  /** Every frame of `s` from index `from` up holds, from its cursor on, only items that
      are passed over. */
  ghost predicate FramesPassOver(s: Stack, from: int, hidden: bool, fileOnly: bool)
  {
    forall j | from <= j < |s| && 0 <= j :: PassesOver(s[j].listing, s[j].cursor, |s[j].listing.items|, hidden, fileOnly)
  }

  /** The step from `s` ended the walk: it returned `Ok(None)` with an empty stack, and
      every item it popped was passed over. */
  ghost predicate Ended(s: Stack, r: Outcome, t: Stack, hidden: bool, fileOnly: bool)
  {
    r == Ok(None) && t == [] && FramesPassOver(s, 0, hidden, fileOnly)
  }

  /** The step from `s` to `t` with result `r` popped down to frame `d - 1`, each popped
      frame holding from its cursor on only passed-over items; in frame `d - 1` it passed
      over the items from the old cursor up to the last one before the new cursor, and
      that last one is the item `r` reports (or, for `Ok(None)`, the directory whose
      listing now sits on top). */
  ghost predicate ConsumedOne(s: Stack, r: Outcome, t: Stack, hidden: bool, fileOnly: bool)
  {
    var d := if r == Ok(None) then |t| - 1 else |t|;
    1 <= d <= |s| && t[..d - 1] == s[..d - 1] &&
    t[d - 1].listing == s[d - 1].listing &&
    s[d - 1].cursor < t[d - 1].cursor <= |t[d - 1].listing.items| &&
    PassesOver(s[d - 1].listing, s[d - 1].cursor, t[d - 1].cursor - 1, hidden, fileOnly) &&
    FramesPassOver(s, d, hidden, fileOnly) &&
    Explains(r, t[d - 1].listing.items[t[d - 1].cursor - 1], t[d..], hidden, fileOnly)
  }

  lemma ConsumedOneBelowPop(s: Stack, r: Outcome, t: Stack, hidden: bool, fileOnly: bool)
    requires s != [] && Top(s).Exhausted()
    requires Ended(Pop(s), r, t, hidden, fileOnly) || ConsumedOne(Pop(s), r, t, hidden, fileOnly)
    ensures Ended(s, r, t, hidden, fileOnly) || ConsumedOne(s, r, t, hidden, fileOnly)
  {
    if Ended(Pop(s), r, t, hidden, fileOnly) {
      assert FramesPassOver(s, 0, hidden, fileOnly) by {
        forall j | 0 <= j < |s| - 1 ensures Pop(s)[j] == s[j] {
        }
      }
    } else {
      var d := if r == Ok(None) then |t| - 1 else |t|;
      assert Pop(s)[..d - 1] == s[..d - 1];
      assert Pop(s)[d - 1] == s[d - 1];
      assert FramesPassOver(s, d, hidden, fileOnly) by {
        forall j | d <= j < |s| - 1 ensures Pop(s)[j] == s[j] {
        }
      }
    }
  }

  /** Passing over the item at `lo` extends a passed-over range down to `lo`. */
  lemma PassesOverExtend(l: Listing, lo: nat, hi: int, hidden: bool, fileOnly: bool)
    requires lo < |l.items| && PassedOver(l.items[lo], hidden, fileOnly)
    requires PassesOver(l, lo + 1, hi, hidden, fileOnly)
    ensures PassesOver(l, lo, hi, hidden, fileOnly)
  {
  }

  lemma FramesPassOverAdvance(s: Stack, from: int, hidden: bool, fileOnly: bool)
    requires s != [] && !Top(s).Exhausted() && PassedOver(Top(s).Current(), hidden, fileOnly)
    requires 0 <= from < |s| && FramesPassOver(AdvanceTop(s), from, hidden, fileOnly)
    ensures FramesPassOver(s, from, hidden, fileOnly)
  {
    var next := AdvanceTop(s);
    var n := |s| - 1;
    assert next[n] == s[n].Advanced();
    forall j | from <= j < n ensures next[j] == s[j] {
    }
    assert PassesOver(next[n].listing, next[n].cursor, |next[n].listing.items|, hidden, fileOnly);
    PassesOverExtend(s[n].listing, s[n].cursor, |s[n].listing.items|, hidden, fileOnly);
  }

  lemma ConsumedOneAfterAdvance(s: Stack, r: Outcome, t: Stack, hidden: bool, fileOnly: bool)
    requires s != [] && !Top(s).Exhausted() && PassedOver(Top(s).Current(), hidden, fileOnly)
    requires Ended(AdvanceTop(s), r, t, hidden, fileOnly) || ConsumedOne(AdvanceTop(s), r, t, hidden, fileOnly)
    ensures Ended(s, r, t, hidden, fileOnly) || ConsumedOne(s, r, t, hidden, fileOnly)
  {
    var next := AdvanceTop(s);
    var n := |s| - 1;
    if Ended(next, r, t, hidden, fileOnly) {
      FramesPassOverAdvance(s, 0, hidden, fileOnly);
    } else {
      var d := if r == Ok(None) then |t| - 1 else |t|;
      assert next[..d - 1] == s[..d - 1];
      if d - 1 == n {
        assert next[n] == s[n].Advanced();
        PassesOverExtend(s[n].listing, s[n].cursor, t[n].cursor - 1, hidden, fileOnly);
      } else {
        assert next[d - 1] == s[d - 1];
        FramesPassOverAdvance(s, d, hidden, fileOnly);
      }
    }
  }

  lemma ConsumedOneAtTop(s: Stack, r: Outcome, pushed: Stack, hidden: bool, fileOnly: bool)
    requires s != [] && ValidStack(s) && !Top(s).Exhausted()
    requires |pushed| == if r == Ok(None) then 1 else 0
    requires Explains(r, Top(s).Current(), pushed, hidden, fileOnly)
    ensures ConsumedOne(s, r, AdvanceTop(s) + pushed, hidden, fileOnly)
  {
    var t := AdvanceTop(s) + pushed;
    assert t[..|s| - 1] == s[..|s| - 1];
    assert t[|s|..] == pushed;
  }

  /** Every call either ends the walk, having popped only frames whose remaining items
      are all passed over, or stops in one frame `d - 1` after popping the frames above
      it (each holding only passed-over items from its cursor on) and passing over some
      items of it; the item it stops at accounts for the result:
      a returned entry is never a directory, never hidden under hidden filtering, and a
      regular file under `fileOnly`; an error is the read error, type error or open
      error of that item, with nothing pushed; `Ok(None)` on a non-empty result stack
      means that item was a directory whose listing was pushed directly above its parent
      with cursor 0. Frames below frame `d - 1` are unchanged. */
  lemma {:induction false} ScanConsumesOne(s: Stack, hidden: bool, fileOnly: bool)
    requires ValidStack(s)
    ensures var (r, t) := Scan(s, hidden, fileOnly);
      Ended(s, r, t, hidden, fileOnly) || ConsumedOne(s, r, t, hidden, fileOnly)
    decreases |s|, if s == [] then 0 else Top(s).Remaining()
  {
    if s == [] {
    } else if Top(s).Exhausted() {
      ScanConsumesOne(Pop(s), hidden, fileOnly);
      var (r, t) := Scan(Pop(s), hidden, fileOnly);
      ConsumedOneBelowPop(s, r, t, hidden, fileOnly);
    } else {
      AdvanceTopValid(s);
      var next := AdvanceTop(s);
      var (r, t) := Scan(s, hidden, fileOnly);
      var item := Top(s).Current();
      if PassedOver(item, hidden, fileOnly) {
        ScanConsumesOne(next, hidden, fileOnly);
        assert (r, t) == Scan(next, hidden, fileOnly);
        ConsumedOneAfterAdvance(s, r, t, hidden, fileOnly);
      } else {
        ConsumedOneAtTop(s, r, t[|s|..], hidden, fileOnly);
        assert t == next + t[|s|..];
      }
    }
  }
}
