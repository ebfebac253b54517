/** `next_result` with `continue 'iter_dir` in place of `break 'iter_dir`: after a
    subdirectory's listing is pushed, the same call goes on scanning it, so `Ok(None)`
    means that the walk is over. Beside it, the input on which the code as written
    ends the iteration early. */
module Descending {
  import opened Results
  import opened FileSystem
  import opened WalkStep
  import opened Traversal

  function ScanDescending(s: Stack, hidden: bool, fileOnly: bool): (r: (Outcome, Stack))
    requires ValidStack(s)
    ensures ValidStack(r.1)
    ensures r.0 == Ok(None) ==> r.1 == []
    ensures s != [] ==> StackWeight(r.1) < StackWeight(s)
    decreases StackWeight(s)
  {
    if s == [] then (Ok(None), s)
    else if Top(s).Exhausted() then ScanDescending(Pop(s), hidden, fileOnly)
    else
      AdvanceTopValid(s);
      AdvanceWeight(s);
      var next := AdvanceTop(s);
      match Top(s).Current()
      case ReadError(e) => (Err(e), next)
      case Found(entry) =>
        if hidden && IsHidden(entry.name) then ScanDescending(next, hidden, fileOnly)
        else
          if entry.fileType.TypeError? then (Err(entry.fileType.error), next)
          else if entry.fileType.Directory? then
            (match entry.fileType.open
             case OpenError(e) => (Err(e), next)
             case Opened(child) =>
               PushWeight(next, child);
               ScanDescending(next + [Frame(child, 0)], hidden, fileOnly))
          else if Yields(entry, fileOnly) then (Ok(Some(entry)), next)
          else ScanDescending(next, hidden, fileOnly)
  }

  /** The corrected call loses nothing and invents nothing either. */
  lemma {:induction false} ScanDescendingKeepsPending(s: Stack, hidden: bool, fileOnly: bool)
    requires ValidStack(s)
    ensures var (r, t) := ScanDescending(s, hidden, fileOnly);
      Emitted(r) + StackEvents(t, hidden, fileOnly) == StackEvents(s, hidden, fileOnly)
    decreases StackWeight(s)
  {
    if s == [] {
    } else if Top(s).Exhausted() {
      ScanDescendingKeepsPending(Pop(s), hidden, fileOnly);
    } else {
      AdvanceTopValid(s);
      AdvanceWeight(s);
      var next := AdvanceTop(s);
      var item := Top(s).Current();
      AdvancePending(s, hidden, fileOnly);
      if item.Found? && ((hidden && IsHidden(item.entry.name)) ||
                         (!item.entry.fileType.TypeError? && !item.entry.fileType.Directory? &&
                          !Yields(item.entry, fileOnly))) {
        ScanDescendingKeepsPending(next, hidden, fileOnly);
      } else if item.Found? && item.entry.fileType.Directory? && item.entry.fileType.open.Opened? {
        var child := item.entry.fileType.open.listing;
        PushWeight(next, child);
        assert Pop(next + [Frame(child, 0)]) == next;
        ScanDescendingKeepsPending(next + [Frame(child, 0)], hidden, fileOnly);
      }
    }
  }

  /** What a consumer of the corrected iterator sees: calls of `next` until the first
      `None`. */
  function IteratorRunDescending(s: Stack, hidden: bool, fileOnly: bool): seq<Event>
    requires ValidStack(s)
    decreases StackWeight(s)
  {
    var (r, t) := ScanDescending(s, hidden, fileOnly);
    match ToItem(r)
    case None => []
    case Some(ev) => [ev] + IteratorRunDescending(t, hidden, fileOnly)
  }

  /** With the correction, the iterator reports everything the depth-first account
      says, and `None` is the end of the walk. */
  lemma {:induction false} IteratorRunDescendingReportsAll(s: Stack, hidden: bool, fileOnly: bool)
    requires ValidStack(s)
    ensures IteratorRunDescending(s, hidden, fileOnly) == StackEvents(s, hidden, fileOnly)
    decreases StackWeight(s)
  {
    var (r, t) := ScanDescending(s, hidden, fileOnly);
    ScanDescendingKeepsPending(s, hidden, fileOnly);
    if ToItem(r).Some? {
      IteratorRunDescendingReportsAll(t, hidden, fileOnly);
    } else {
      assert t == [];
    }
  }

  /** A root holding one subdirectory `d` that holds one regular file `f`. */
  function NestedRoot(): Listing
  {
    Listing([Found(Entry([0x64], Directory(Opened(Listing([Found(Entry([0x66], RegularFile))])))))])
  }

  /** As written, the first call pushes `d` and returns `Ok(None)`, so `next` returns
      `None` and an iterator consumer sees an empty walk, although the file `f` is
      reachable; the corrected call reports `f`. */
  lemma IteratorStopsAtFirstSubdirectory()
    ensures IteratorRun([Frame(NestedRoot(), 0)], false, false) == []
    ensures StackEvents([Frame(NestedRoot(), 0)], false, false) == [Ok(Entry([0x66], RegularFile))]
    ensures IteratorRunDescending([Frame(NestedRoot(), 0)], false, false) == [Ok(Entry([0x66], RegularFile))]
  {
    var root := [Frame(NestedRoot(), 0)];
    IteratorRunDescendingReportsAll(root, false, false);
    var child := Listing([Found(Entry([0x66], RegularFile))]);
    assert Top(root).Current() == Found(Entry([0x64], Directory(Opened(child))));
    assert AdvanceTop(root) == [Frame(NestedRoot(), 1)];
    assert root != [] && !Top(root).Exhausted();
    assert Scan(root, false, false).0 == Ok(None);
    assert SuffixEvents(child, 0, false, false) == [Ok(Entry([0x66], RegularFile))];
  }
}
