/** A small tree of the kind a directory walker is tested on: a file, a hidden file
    and a subdirectory holding one more file. What the walk should report on it, with
    and without hidden filtering, and what the iterator as written yields. */
module Scenarios {
  import opened Results
  import opened FileSystem
  import opened WalkStep
  import opened Traversal

  /** A root holding a file `a`, a hidden file `.h` and a subdirectory `s` that holds a
      file `b`, listed in that order. */
  function MixedRoot(): Listing
  {
    Listing([Found(Entry([0x61], RegularFile)),
             Found(Entry([Dot, 0x68], RegularFile)),
             Found(Entry([0x73], Directory(Opened(SubListing()))))])
  }

  /** The listing of `s`: the one file `b`. */
  function SubListing(): Listing
  {
    Listing([Found(Entry([0x62], RegularFile))])
  }

  /** On `MixedRoot` the walk reports `a`, `.h` and `b`. */
  lemma MixedRootReportsAll()
    ensures StackEvents([Frame(MixedRoot(), 0)], false, false) ==
            [Ok(Entry([0x61], RegularFile)), Ok(Entry([Dot, 0x68], RegularFile)), Ok(Entry([0x62], RegularFile))]
  {
    var l := MixedRoot();
    assert SuffixEvents(SubListing(), 0, false, false) == [Ok(Entry([0x62], RegularFile))];
    assert SuffixEvents(l, 2, false, false) == [Ok(Entry([0x62], RegularFile))];
    assert SuffixEvents(l, 1, false, false) == [Ok(Entry([Dot, 0x68], RegularFile)), Ok(Entry([0x62], RegularFile))];
  }

  /** Under hidden filtering the walk reports `a` and `b` only. */
  lemma MixedRootReportsUnhidden()
    ensures StackEvents([Frame(MixedRoot(), 0)], true, false) ==
            [Ok(Entry([0x61], RegularFile)), Ok(Entry([0x62], RegularFile))]
  {
    var l := MixedRoot();
    assert !IsHidden([0x62]) && !IsHidden([0x73]) && !IsHidden([0x61]) && IsHidden([Dot, 0x68]);
    assert SuffixEvents(SubListing(), 0, true, false) == [Ok(Entry([0x62], RegularFile))];
    assert SuffixEvents(l, 2, true, false) == [Ok(Entry([0x62], RegularFile))];
    assert SuffixEvents(l, 1, true, false) == [Ok(Entry([0x62], RegularFile))];
  }

  /** The iterator as written reports `a` and `.h`, then meets `s` and stops. */
  lemma MixedRootIteratorStopsBeforeB()
    ensures IteratorRun([Frame(MixedRoot(), 0)], false, false) ==
            [Ok(Entry([0x61], RegularFile)), Ok(Entry([Dot, 0x68], RegularFile))]
  {
    var l := MixedRoot();
    var s0 := [Frame(l, 0)];
    var s1 := [Frame(l, 1)];
    var s2 := [Frame(l, 2)];
    assert AdvanceTop(s0) == s1 && AdvanceTop(s1) == s2;
    assert Scan(s0, false, false) == (Ok(Some(Entry([0x61], RegularFile))), s1);
    assert Scan(s1, false, false) == (Ok(Some(Entry([Dot, 0x68], RegularFile))), s2);
    assert Scan(s2, false, false).0 == Ok(None);
    assert IteratorRun(s2, false, false) == [];
  }
}
