/** The walk as a whole: an independent, recursive account of what a depth-first
    walk over the remaining listings must report, and the proof that repeated calls
    of `next_result` report exactly that. */
module Traversal {
  import opened Results
  import opened FileSystem
  import opened WalkStep

  /** What walking one item reports, in order: a read error, type error or open
      error as one error; a hidden entry under hidden filtering as nothing; an opened
      directory as everything its listing reports; a regular file as itself; any other
      kind as itself unless `fileOnly` is on. */
  function ItemEvents(it: Item, hidden: bool, fileOnly: bool): seq<Event>
    decreases it, 0
  {
    match it
    case ReadError(e) => [Err(e)]
    case Found(entry) =>
      if hidden && IsHidden(entry.name) then []
      else
        match entry.fileType
        case TypeError(e) => [Err(e)]
        case Directory(OpenError(e)) => [Err(e)]
        case Directory(Opened(child)) => SuffixEvents(child, 0, hidden, fileOnly)
        case RegularFile => [Ok(entry)]
        case OtherKind => if fileOnly then [] else [Ok(entry)]
  }

  /** What walking the items of `l` from index `from` on reports. */
  function SuffixEvents(l: Listing, from: nat, hidden: bool, fileOnly: bool): seq<Event>
    decreases l, |l.items| - from
  {
    if from >= |l.items| then []
    else ItemEvents(l.items[from], hidden, fileOnly) + SuffixEvents(l, from + 1, hidden, fileOnly)
  }

  /** What is still to be reported by a walker with stack `s`: the rest of the top
      listing, then the rest of its parent, down to the root. */
  function StackEvents(s: Stack, hidden: bool, fileOnly: bool): seq<Event>
  {
    if s == [] then []
    else SuffixEvents(Top(s).listing, Top(s).cursor, hidden, fileOnly) + StackEvents(Pop(s), hidden, fileOnly)
  }

  /** An event the filters let through: an entry is never a directory, never hidden
      under hidden filtering, and a regular file under `fileOnly`. */
  ghost predicate Admitted(ev: Event, hidden: bool, fileOnly: bool)
  {
    ev.Ok? ==>
      !(hidden && IsHidden(ev.value.name)) &&
      (ev.value.fileType == RegularFile || (ev.value.fileType == OtherKind && !fileOnly))
  }

  /** Everything a walk reports passes the filters, judged by each event's own entry. */
  lemma {:induction false} ItemEventsAdmitted(it: Item, hidden: bool, fileOnly: bool)
    ensures forall ev | ev in ItemEvents(it, hidden, fileOnly) :: Admitted(ev, hidden, fileOnly)
    decreases it, 0
  {
    match it
    case ReadError(_) =>
    case Found(entry) =>
      if !(hidden && IsHidden(entry.name)) && entry.fileType.Directory? && entry.fileType.open.Opened? {
        SuffixEventsAdmitted(entry.fileType.open.listing, 0, hidden, fileOnly);
      }
  }

  lemma {:induction false} SuffixEventsAdmitted(l: Listing, from: nat, hidden: bool, fileOnly: bool)
    ensures forall ev | ev in SuffixEvents(l, from, hidden, fileOnly) :: Admitted(ev, hidden, fileOnly)
    decreases l, |l.items| - from
  {
    if from < |l.items| {
      ItemEventsAdmitted(l.items[from], hidden, fileOnly);
      SuffixEventsAdmitted(l, from + 1, hidden, fileOnly);
    }
  }

  lemma {:induction false} StackEventsAdmitted(s: Stack, hidden: bool, fileOnly: bool)
    ensures forall ev | ev in StackEvents(s, hidden, fileOnly) :: Admitted(ev, hidden, fileOnly)
  {
    if s != [] {
      SuffixEventsAdmitted(Top(s).listing, Top(s).cursor, hidden, fileOnly);
      StackEventsAdmitted(Pop(s), hidden, fileOnly);
    }
  }

  /** What one call reports: nothing for `Ok(None)`. */
  function Emitted(r: Outcome): (es: seq<Event>)
    ensures |es| <= 1
    ensures es == [] <==> r == Ok(None)
  {
    match r
    case Ok(None) => []
    case Ok(Some(entry)) => [Ok(entry)]
    case Err(e) => [Err(e)]
  }

  /** One call loses nothing and invents nothing: what it reports, followed by what the
      new stack has still to report, is what the old stack had to report. */
  lemma {:induction false} ScanKeepsPending(s: Stack, hidden: bool, fileOnly: bool)
    requires ValidStack(s)
    ensures var (r, t) := Scan(s, hidden, fileOnly);
      Emitted(r) + StackEvents(t, hidden, fileOnly) == StackEvents(s, hidden, fileOnly)
    decreases |s|, if s == [] then 0 else Top(s).Remaining()
  {
    if s == [] {
    } else if Top(s).Exhausted() {
      ScanKeepsPending(Pop(s), hidden, fileOnly);
    } else {
      AdvanceTopValid(s);
      var next := AdvanceTop(s);
      var item := Top(s).Current();
      AdvancePending(s, hidden, fileOnly);
      if item.Found? && ((hidden && IsHidden(item.entry.name)) ||
                         (!item.entry.fileType.TypeError? && !item.entry.fileType.Directory? &&
                          !Yields(item.entry, fileOnly))) {
        ScanKeepsPending(next, hidden, fileOnly);
      } else if item.Found? && item.entry.fileType.Directory? && item.entry.fileType.open.Opened? {
        var child := item.entry.fileType.open.listing;
        assert Pop(next + [Frame(child, 0)]) == next;
      }
    }
  }

  /** Consuming the top item splits what the top listing has to report. */
  lemma AdvancePending(s: Stack, hidden: bool, fileOnly: bool)
    requires s != [] && !Top(s).Exhausted()
    ensures StackEvents(s, hidden, fileOnly) ==
            ItemEvents(Top(s).Current(), hidden, fileOnly) + StackEvents(AdvanceTop(s), hidden, fileOnly)
  {
    assert Pop(AdvanceTop(s)) == Pop(s);
  }

  /** A measure that every call on a non-empty stack decreases: one per frame plus the
      weight of every item not yet consumed, an opened directory weighing two more
      than its listing. */
  function ItemWeight(it: Item): nat
    decreases it, 0
  {
    match it
    case Found(Entry(_, Directory(Opened(child)))) => 2 + SuffixWeight(child, 0)
    case _ => 1
  }

  function SuffixWeight(l: Listing, from: nat): nat
    decreases l, |l.items| - from
  {
    if from >= |l.items| then 0
    else ItemWeight(l.items[from]) + SuffixWeight(l, from + 1)
  }

  function StackWeight(s: Stack): nat
  {
    if s == [] then 0
    else 1 + SuffixWeight(Top(s).listing, Top(s).cursor) + StackWeight(Pop(s))
  }

  lemma AdvanceWeight(s: Stack)
    requires s != [] && !Top(s).Exhausted()
    ensures StackWeight(AdvanceTop(s)) + ItemWeight(Top(s).Current()) == StackWeight(s)
  {
    assert Pop(AdvanceTop(s)) == Pop(s);
  }

  lemma PushWeight(s: Stack, child: Listing)
    ensures StackWeight(s + [Frame(child, 0)]) == StackWeight(s) + 1 + SuffixWeight(child, 0)
  {
    assert Pop(s + [Frame(child, 0)]) == s;
  }

  /** Every call on a non-empty stack makes progress. */
  lemma {:induction false} ScanLightens(s: Stack, hidden: bool, fileOnly: bool)
    requires ValidStack(s) && s != []
    ensures StackWeight(Scan(s, hidden, fileOnly).1) < StackWeight(s)
    decreases |s|, Top(s).Remaining()
  {
    if Top(s).Exhausted() {
      if Pop(s) != [] {
        ScanLightens(Pop(s), hidden, fileOnly);
      }
    } else {
      AdvanceTopValid(s);
      var next := AdvanceTop(s);
      var item := Top(s).Current();
      AdvanceWeight(s);
      if item.Found? && ((hidden && IsHidden(item.entry.name)) ||
                         (!item.entry.fileType.TypeError? && !item.entry.fileType.Directory? &&
                          !Yields(item.entry, fileOnly))) {
        ScanLightens(next, hidden, fileOnly);
      } else if item.Found? && item.entry.fileType.Directory? && item.entry.fileType.open.Opened? {
        PushWeight(next, item.entry.fileType.open.listing);
      }
    }
  }

  /** Calling `next_result` until the stack is empty, keeping what each call reports
      (a caller that looks past the interim `Ok(None)` of a descent). */
  function Drain(s: Stack, hidden: bool, fileOnly: bool): seq<Event>
    requires ValidStack(s)
    decreases StackWeight(s)
  {
    if s == [] then []
    else
      ScanLightens(s, hidden, fileOnly);
      var (r, t) := Scan(s, hidden, fileOnly);
      Emitted(r) + Drain(t, hidden, fileOnly)
  }

  /** Draining the walker reports exactly what the depth-first account says, in that
      order: every reachable entry the filters admit once, every error once. */
  lemma {:induction false} DrainReportsAll(s: Stack, hidden: bool, fileOnly: bool)
    requires ValidStack(s)
    ensures Drain(s, hidden, fileOnly) == StackEvents(s, hidden, fileOnly)
    decreases StackWeight(s)
  {
    if s != [] {
      ScanLightens(s, hidden, fileOnly);
      ScanKeepsPending(s, hidden, fileOnly);
      var (r, t) := Scan(s, hidden, fileOnly);
      DrainReportsAll(t, hidden, fileOnly);
    }
  }

  /** Under hidden filtering a hidden entry at the top adds nothing to what the walk
      reports from there on: neither an error from its type query or its listing, nor,
      for a hidden directory, anything inside it. */
  lemma HiddenEntryNotReported(s: Stack, fileOnly: bool)
    requires ValidStack(s) && s != [] && !Top(s).Exhausted()
    requires Top(s).Current().Found? && IsHidden(Top(s).Current().entry.name)
    ensures ValidStack(AdvanceTop(s))
    ensures Drain(s, true, fileOnly) == Drain(AdvanceTop(s), true, fileOnly)
  {
    AdvanceTopValid(s);
    DrainReportsAll(s, true, fileOnly);
    DrainReportsAll(AdvanceTop(s), true, fileOnly);
    AdvancePending(s, true, fileOnly);
  }

  /** What a consumer of the Rust iterator sees: calls of `next` until the first
      `None`. */
  function IteratorRun(s: Stack, hidden: bool, fileOnly: bool): seq<Event>
    requires ValidStack(s)
    decreases StackWeight(s)
  {
    var (r, t) := Scan(s, hidden, fileOnly);
    match ToItem(r)
    case None => []
    case Some(ev) =>
      ScanLightens(s, hidden, fileOnly);
      [ev] + IteratorRun(t, hidden, fileOnly)
  }

  /** The iterator as written reports a prefix of what the walk should report. */
  lemma {:induction false} IteratorRunIsPrefix(s: Stack, hidden: bool, fileOnly: bool)
    requires ValidStack(s)
    ensures IteratorRun(s, hidden, fileOnly) <= StackEvents(s, hidden, fileOnly)
    decreases StackWeight(s)
  {
    var (r, t) := Scan(s, hidden, fileOnly);
    ScanKeepsPending(s, hidden, fileOnly);
    if ToItem(r).Some? {
      ScanLightens(s, hidden, fileOnly);
      IteratorRunIsPrefix(t, hidden, fileOnly);
    }
  }
}
