/**
  Properties of whole runs: where a run stops, what a test run does, and
  that a second run over the same source copies nothing.
 */
module RunProperties {
  import opened Text
  import opened Optional
  import opened Faults
  import opened Prompt
  import opened Archive
  import opened Bucket
  import opened Tally
  import opened Validation
  import opened Ingest

  /** The entry loop of `RunEntries` with the step left abstract, so that splitting a run needs no step's details. */
  function Fold(step: (State, Entry) -> Step, st: State, entries: seq<Entry>): Outcome
    decreases |entries|
  {
    if |entries| == 0 then Outcome(Completed, st, 0)
    else
      match step(st, entries[0])
      case Stop(status, st1) => Outcome(status, st1, 1)
      case Next(st1) =>
        var rest := Fold(step, st1, entries[1..]);
        Outcome(rest.status, rest.state, rest.processed + 1)
  }

  /** The step of `RunEntries` as a value. */
  function StepOf(cfg: Config, io: Oracles): (State, Entry) -> Step
  {
    (s: State, e: Entry) => StepEntry(cfg, io, s, e)
  }

  /** `RunEntries` is the abstract loop run with the step of the program. */
  lemma {:induction false} RunIsFold(cfg: Config, io: Oracles, st: State, entries: seq<Entry>)
    ensures RunEntries(cfg, io, st, entries) == Fold(StepOf(cfg, io), st, entries)
    decreases |entries|
  {
    if |entries| > 0 {
      var step := StepEntry(cfg, io, st, entries[0]);
      assert StepOf(cfg, io)(st, entries[0]) == step;
      if step.Next? {
        RunIsFold(cfg, io, step.state, entries[1..]);
      }
    }
  }

  lemma {:induction false} FoldStopsForGood(step: (State, Entry) -> Step, st: State, first: seq<Entry>, later: seq<Entry>)
    requires Fold(step, st, first).status != Completed
    ensures Fold(step, st, first + later) == Fold(step, st, first)
    decreases |first|
  {
    assert (first + later)[0] == first[0];
    assert (first + later)[1..] == first[1..] + later;
    if step(st, first[0]).Next? {
      FoldStopsForGood(step, step(st, first[0]).state, first[1..], later);
    }
  }

  lemma {:induction false} FoldCarriesOn(step: (State, Entry) -> Step, st: State, first: seq<Entry>, later: seq<Entry>)
    requires forall s: State, e: Entry :: step(s, e).Stop? ==> step(s, e).status != Completed
    requires Fold(step, st, first).status == Completed
    ensures var r := Fold(step, st, first);
            var rest := Fold(step, r.state, later);
            Fold(step, st, first + later) == Outcome(rest.status, rest.state, |first| + rest.processed)
    decreases |first|
  {
    if |first| > 0 {
      assert (first + later)[0] == first[0];
      assert (first + later)[1..] == first[1..] + later;
      FoldCarriesOn(step, step(st, first[0]).state, first[1..], later);
    } else {
      assert first + later == later;
    }
  }

  /** A run over `first + later` that stops inside `first` ends exactly as the run over `first` alone. */
  lemma RunStopsForGood(cfg: Config, io: Oracles, st: State, first: seq<Entry>, later: seq<Entry>)
    requires RunEntries(cfg, io, st, first).status != Completed
    ensures RunEntries(cfg, io, st, first + later) == RunEntries(cfg, io, st, first)
  {
    RunIsFold(cfg, io, st, first);
    RunIsFold(cfg, io, st, first + later);
    FoldStopsForGood(StepOf(cfg, io), st, first, later);
  }

  /** A run over `first + later` that gets through `first` carries on with `later` from where it got to. */
  lemma RunCarriesOn(cfg: Config, io: Oracles, st: State, first: seq<Entry>, later: seq<Entry>)
    requires RunEntries(cfg, io, st, first).status == Completed
    ensures var r := RunEntries(cfg, io, st, first);
            var rest := RunEntries(cfg, io, r.state, later);
            RunEntries(cfg, io, st, first + later) == Outcome(rest.status, rest.state, |first| + rest.processed)
  {
    RunIsFold(cfg, io, st, first);
    RunIsFold(cfg, io, st, first + later);
    RunIsFold(cfg, io, RunEntries(cfg, io, st, first).state, later);
    forall s: State, e: Entry ensures StepOf(cfg, io)(s, e).Stop? ==> StepOf(cfg, io)(s, e).status != Completed {
      assert StepOf(cfg, io)(s, e) == StepEntry(cfg, io, s, e);
    }
    FoldCarriesOn(StepOf(cfg, io), st, first, later);
  }

  /**
    Test mode never stops early, creates no folder, reads no input, and
    counts every entry in exactly one of the four counters.
   */
  lemma {:induction false} TestRunCountsEverything(cfg: Config, io: Oracles, st: State, entries: seq<Entry>)
    requires cfg.test
    ensures var r := RunEntries(cfg, io, st, entries);
            && r.status == Completed && r.processed == |entries|
            && r.state.archive == st.archive && r.state.inputs == st.inputs
            && r.state.counters.Total() == st.counters.Total() + |entries|
    decreases |entries|
  {
    if |entries| > 0 {
      var st1 := StepEntry(cfg, io, st, entries[0]).state;
      TestRunCountsEverything(cfg, io, st1, entries[1..]);
    }
  }

  /** No line of the script holds a path separator (descriptions stay one path component). */
  predicate SepFree(inputs: seq<string>)
  {
    forall k :: 0 <= k < |inputs| ==> NoSep(inputs[k])
  }

  lemma SepFreeSuffix(rest: seq<string>, inputs: seq<string>)
    requires SepFree(inputs) && IsSuffix(rest, inputs)
    ensures SepFree(rest)
  {
    forall k | 0 <= k < |rest| ensures NoSep(rest[k]) {
      assert rest[k] == inputs[|inputs| - |rest| + k];
    }
  }

  /** Every transfer the file operation performs succeeds and nobody cancels it. */
  ghost predicate CopiesSucceed(io: Oracles)
  {
    forall e, t :: io.mover(e, t).success && !io.mover(e, t).aborted
  }

  /** A file in a folder the bucket glob yields is archived for that bucket. */
  lemma ArchivedByFile(a: Archive, canonical: string, path: string, name: string)
    requires FileExists(a, path, name) && Matches(canonical, path)
    ensures Archived(a, canonical, name)
  {
    var i :| 0 <= i < |a| && a[i].path == path && name in a[i].files;
    assert HoldsAt(a, canonical, name, i);
  }

  lemma ArchivedPersists(a: Archive, b: Archive, canonical: string, name: string)
    requires Extends(a, b) && Archived(a, canonical, name)
    ensures Archived(b, canonical, name)
  {
    var i :| 0 <= i < |a| && HoldsAt(a, canonical, name, i);
    assert HoldsAt(b, canonical, name, i);
  }

  /**
    A live step that goes on leaves an entry of the window archived: it was
    already there, or it was copied into a folder the bucket glob yields.
   */
  lemma StepArchives(cfg: Config, io: Oracles, st: State, e: Entry)
    requires !cfg.test && CopiesSucceed(io) && SepFree(st.inputs)
    requires cfg.rangeMin < e.taken <= cfg.rangeMax
    requires StepEntry(cfg, io, st, e).Next?
    ensures AlreadyArchived(cfg, StepEntry(cfg, io, st, e).state.archive, e)
  {
    var r := StepEntry(cfg, io, st, e);
    var canonical := BucketOf(cfg, e);
    match Decide(cfg, st.archive, e)
    case SkipOutOfRange =>
    case SkipAlreadyArchived(_) =>
    case Copy(dest) =>
      var p := PrepareFolder(st.archive, dest, st.inputs);
      assert p.Ready?;
      var result := io.mover(e, p.target);
      assert result.success && !result.aborted;
      var after := AddFile(p.archive, p.folder, e.name);
      assert r.state.archive == after;
      if !FolderExists(st.archive, dest) {
        assert forall k :: !MatchAt(st.archive, canonical, k);
        assert dest == canonical;
        AnnotatedPathMatches(canonical, st.inputs[0]);
      }
      assert Matches(canonical, p.folder);
      ArchivedByFile(after, canonical, p.folder, e.name);
  }

  /**
    After a live run that completes with every transfer succeeding, every
    entry of the window is archived in a folder of its bucket.
   */
  lemma {:induction false} CompletedRunArchivesWindow(cfg: Config, io: Oracles, st: State, entries: seq<Entry>)
    requires !cfg.test && CopiesSucceed(io) && SepFree(st.inputs)
    requires RunEntries(cfg, io, st, entries).status == Completed
    ensures forall k :: 0 <= k < |entries| && cfg.rangeMin < entries[k].taken <= cfg.rangeMax ==>
              AlreadyArchived(cfg, RunEntries(cfg, io, st, entries).state.archive, entries[k])
    decreases |entries|
  {
    if |entries| > 0 {
      var r := RunEntries(cfg, io, st, entries);
      var step := StepEntry(cfg, io, st, entries[0]);
      assert step.Next?;
      var st1 := step.state;
      SepFreeSuffix(st1.inputs, st.inputs);
      CompletedRunArchivesWindow(cfg, io, st1, entries[1..]);
      assert r == Outcome(Completed, RunEntries(cfg, io, st1, entries[1..]).state, |entries|);
      forall k | 0 <= k < |entries| && cfg.rangeMin < entries[k].taken <= cfg.rangeMax
        ensures AlreadyArchived(cfg, r.state.archive, entries[k])
      {
        if k == 0 {
          StepArchives(cfg, io, st, entries[0]);
          ArchivedPersists(st1.archive, r.state.archive, BucketOf(cfg, entries[0]), entries[0].name);
        } else {
          assert entries[k] == entries[1..][k - 1];
        }
      }
    }
  }

  /**
    A run over entries that are all archived or out of the window copies
    nothing: it completes, leaves archive and script as they were, and
    counts every entry as ignored.
   */
  lemma {:induction false} ArchivedEntriesAreIgnored(cfg: Config, io: Oracles, st: State, entries: seq<Entry>)
    requires forall k :: 0 <= k < |entries| && cfg.rangeMin < entries[k].taken <= cfg.rangeMax ==>
               AlreadyArchived(cfg, st.archive, entries[k])
    ensures RunEntries(cfg, io, st, entries)
            == Outcome(Completed,
                       State(st.counters.(ignored := st.counters.ignored + |entries|), st.archive, st.inputs),
                       |entries|)
    decreases |entries|
  {
    if |entries| > 0 {
      var st1 := st.(counters := st.counters.Ignored());
      assert StepEntry(cfg, io, st, entries[0]) == Next(st1);
      forall k | 0 <= k < |entries[1..]| && cfg.rangeMin < entries[1..][k].taken <= cfg.rangeMax
        ensures AlreadyArchived(cfg, st1.archive, entries[1..][k])
      {
        assert entries[1..][k] == entries[k + 1];
      }
      ArchivedEntriesAreIgnored(cfg, io, st1, entries[1..]);
    }
  }

  /**
    Running the program a second time over the same source, after a live
    run that completed with every transfer succeeding, copies nothing: every
    entry is counted as ignored and the archive is left as it was.
   */
  lemma SecondRunCopiesNothing(
    cfg: Config, io: Oracles, io2: Oracles, entries: seq<Entry>,
    a: Archive, inputs: seq<string>, inputs2: seq<string>)
    requires !cfg.test && CopiesSucceed(io) && SepFree(inputs)
    requires Main(cfg, io, Some(entries), a, inputs).status == Completed
    ensures var first := Main(cfg, io, Some(entries), a, inputs);
            Main(cfg, io2, Some(entries), first.state.archive, inputs2)
            == Outcome(Completed, State(Counters(0, 0, 0, |entries|), first.state.archive, inputs2), |entries|)
  {
    var first := Main(cfg, io, Some(entries), a, inputs);
    CompletedRunArchivesWindow(cfg, io, State(Zero, a, inputs), entries);
    ArchivedEntriesAreIgnored(cfg, io2, State(Zero, first.state.archive, inputs2), entries);
  }

  lemma FoldTwo(step: (State, Entry) -> Step, st: State, e1: Entry, e2: Entry)
    requires step(st, e1).Next? && step(step(st, e1).state, e2).Next?
    ensures Fold(step, st, [e1, e2]) == Outcome(Completed, step(step(st, e1).state, e2).state, 2)
  {
    var st1 := step(st, e1).state;
    var st2 := step(st1, e2).state;
    assert [e1, e2][0] == e1 && [e1, e2][1..] == [e2];
    assert [e2][0] == e2 && [e2][1..] == [];
    assert Fold(step, st2, []) == Outcome(Completed, st2, 0);
    assert Fold(step, st1, [e2]) == Outcome(Completed, st2, 1);
  }

  /** A run over two entries whose steps both go on ends where the second step leaves it. */
  lemma TwoEntryRun(cfg: Config, io: Oracles, st: State, e1: Entry, e2: Entry)
    requires StepEntry(cfg, io, st, e1).Next?
    requires StepEntry(cfg, io, StepEntry(cfg, io, st, e1).state, e2).Next?
    ensures RunEntries(cfg, io, st, [e1, e2])
            == Outcome(Completed, StepEntry(cfg, io, StepEntry(cfg, io, st, e1).state, e2).state, 2)
  {
    var st1 := StepEntry(cfg, io, st, e1).state;
    assert StepOf(cfg, io)(st, e1) == StepEntry(cfg, io, st, e1);
    assert StepOf(cfg, io)(st1, e2) == StepEntry(cfg, io, st1, e2);
    RunIsFold(cfg, io, st, [e1, e2]);
    FoldTwo(StepOf(cfg, io), st, e1, e2);
  }

  /** In test mode an in-window entry that no folder of its bucket holds is counted as a copy of its kind. */
  lemma TestStepCounts(cfg: Config, io: Oracles, st: State, e: Entry)
    requires cfg.test && cfg.rangeMin < e.taken <= cfg.rangeMax && !AlreadyArchived(cfg, st.archive, e)
    ensures StepEntry(cfg, io, st, e) == Next(st.(counters := st.counters.Copied(KindOf(e.name))))
  {
    assert Decide(cfg, st.archive, e).Copy?;
  }

  /** In test mode the same entry twice, not yet archived, is counted twice as a file to copy. */
  lemma TestRunCountsDuplicateTwice(cfg: Config, io: Oracles, st: State, e: Entry)
    requires cfg.test && cfg.rangeMin < e.taken <= cfg.rangeMax && !AlreadyArchived(cfg, st.archive, e)
    ensures var k := KindOf(e.name);
            RunEntries(cfg, io, st, [e, e]) == Outcome(Completed, st.(counters := st.counters.Copied(k).Copied(k)), 2)
  {
    TestStepCounts(cfg, io, st, e);
    var st1 := StepEntry(cfg, io, st, e).state;
    TestStepCounts(cfg, io, st1, e);
    TwoEntryRun(cfg, io, st, e, e);
  }

  /** One entry that is already archived is only counted as ignored. */
  lemma ArchivedEntryIsIgnored(cfg: Config, io: Oracles, st: State, e: Entry)
    requires AlreadyArchived(cfg, st.archive, e)
    ensures RunEntries(cfg, io, st, [e]).state == st.(counters := st.counters.Ignored())
  {
    assert StepEntry(cfg, io, st, e) == Next(st.(counters := st.counters.Ignored()));
    assert [e][1..] == [];
  }

  /** A live step into an empty archive, with a usable description, copies the entry and counts it. */
  lemma LiveCopyIntoEmptyArchive(cfg: Config, io: Oracles, e: Entry, description: string)
    requires !cfg.test && !cfg.validate && CopiesSucceed(io)
    requires cfg.rangeMin < e.taken <= cfg.rangeMax && NoSep(description)
    ensures var r := StepEntry(cfg, io, State(Zero, [], [description]), e);
            && r.Next? && r.state.counters == Zero.Copied(KindOf(e.name)) && r.state.inputs == []
            && AlreadyArchived(cfg, r.state.archive, e)
  {
    var canonical := BucketOf(cfg, e);
    assert Decide(cfg, [], e) == Copy(canonical);
    var p := PrepareFolder([], canonical, [description]);
    assert p.Ready? && p.inputs == [];
    assert !io.mover(e, p.target).aborted && io.mover(e, p.target).success;
    assert SepFree([description]);
    StepArchives(cfg, io, State(Zero, [], [description]), e);
  }

  /** A live step that copies an entry counts it as a copy of its kind. */
  lemma LiveStepCounts(cfg: Config, io: Oracles, st: State, e: Entry)
    requires !cfg.test && CopiesSucceed(io)
    requires cfg.rangeMin < e.taken <= cfg.rangeMax && !AlreadyArchived(cfg, st.archive, e)
    requires StepEntry(cfg, io, st, e).Next?
    ensures StepEntry(cfg, io, st, e).state.counters == st.counters.Copied(KindOf(e.name))
  {
    var dest := Decide(cfg, st.archive, e).dest;
    var p := PrepareFolder(st.archive, dest, st.inputs);
    assert p.Ready?;
    assert !io.mover(e, p.target).aborted;
  }

  /**
    A live run over the same entry twice, not yet archived, copies it once
    and then finds it archived: test mode does not predict its counters.
   */
  lemma LiveRunIgnoresDuplicate(cfg: Config, io: Oracles, st: State, e: Entry)
    requires !cfg.test && CopiesSucceed(io) && SepFree(st.inputs)
    requires cfg.rangeMin < e.taken <= cfg.rangeMax && !AlreadyArchived(cfg, st.archive, e)
    requires StepEntry(cfg, io, st, e).Next?
    ensures var r := RunEntries(cfg, io, st, [e, e]);
            && r.status == Completed && r.processed == 2
            && r.state.counters == st.counters.Copied(KindOf(e.name)).Ignored()
  {
    LiveStepCounts(cfg, io, st, e);
    StepArchives(cfg, io, st, e);
    var st1 := StepEntry(cfg, io, st, e).state;
    assert StepEntry(cfg, io, st1, e) == Next(st1.(counters := st1.counters.Ignored()));
    TwoEntryRun(cfg, io, st, e, e);
  }

  /**
    Lines 192-198 for a general step: a photo copied with validation on,
    whose EXIF date disagrees, halts the run when the user answers "n".
   */
  lemma DeclinedMismatchHalts(cfg: Config, io: Oracles, st: State, e: Entry)
    requires !cfg.test && cfg.validate && IsJpg(e.name)
    requires Decide(cfg, st.archive, e).Copy?
    requires var p := PrepareFolder(st.archive, Decide(cfg, st.archive, e).dest, st.inputs);
             && p.Ready? && io.mover(e, p.target).success && !io.mover(e, p.target).aborted
             && var read := ReadExif(AddFile(p.archive, p.folder, e.name), io.exif,
                                     CheckFolder(cfg.lookup, Decide(cfg, st.archive, e).dest, p.folder), e.name);
             && var check := ValidatePhoto(cfg.format, e.taken, read, p.inputs);
             && check.Checked? && check.verdict == FailedAbort
    ensures var r := StepEntry(cfg, io, st, e);
            r.Stop? && r.status == Halted
  {
  }

  /** The folder a copy is headed for does not yet hold the file (else the scan would have found it). */
  lemma CopyTargetLacksFile(cfg: Config, st: State, e: Entry, dest: string)
    requires Decide(cfg, st.archive, e) == Copy(dest)
    requires PrepareFolder(st.archive, dest, st.inputs).Ready?
    ensures var p := PrepareFolder(st.archive, dest, st.inputs);
            !FileExists(p.archive, p.folder, e.name) && !FileExists(p.archive, dest, e.name)
  {
    var canonical := BucketOf(cfg, e);
    if !FolderExists(st.archive, dest) {
      assert !FileExists(st.archive, dest, e.name);
    } else {
      assert !Archived(st.archive, canonical, e.name);
      forall i | 0 <= i < |st.archive| && st.archive[i].path == dest
        ensures e.name !in st.archive[i].files
      {
        assert Matches(canonical, dest);
        assert MatchAt(st.archive, canonical, i);
        assert !HoldsAt(st.archive, canonical, e.name, i);
      }
    }
  }

  /** Validating a photo in a folder that does not hold it crashes the run on the missing file. */
  lemma MissingPhotoCrashes(cfg: Config, io: Oracles, st: State, e: Entry, folder: string)
    requires cfg.validate && IsJpg(e.name) && !FileExists(st.archive, folder, e.name)
    ensures var r := AfterCopy(cfg, io, st, e, folder);
            r.Stop? && r.status.Crashed? && r.status.fault.FileMissing?
  {
    assert ReadExif(st.archive, io.exif, folder, e.name).NoFile?;
  }

  /** An aborted photo transfer the user goes on from is validated against a file that is not there. */
  lemma AbortedCopyIsValidated(cfg: Config, io: Oracles, st: State, e: Entry, dest: string)
    requires cfg.validate && IsJpg(e.name)
    requires var p := PrepareFolder(st.archive, dest, st.inputs);
             && p.Ready? && io.mover(e, p.target).aborted
             && !FileExists(p.archive, CheckFolder(cfg.lookup, dest, p.folder), e.name)
             && ContinueRunning(p.inputs).Some? && ContinueRunning(p.inputs).value.proceed
    ensures var r := LiveCopy(cfg, io, st, e, dest);
            r.Stop? && r.status.Crashed? && r.status.fault.FileMissing?
  {
    var p := PrepareFolder(st.archive, dest, st.inputs);
    var reply := ContinueRunning(p.inputs).value;
    var st1 := State(st.counters, p.archive, reply.rest);
    var folder := CheckFolder(cfg.lookup, dest, p.folder);
    assert LiveCopy(cfg, io, st, e, dest) == AfterCopy(cfg, io, st1, e, folder);
    MissingPhotoCrashes(cfg, io, st1, e, folder);
  }

  /**
    Line 192 sits outside the `aborted` branch: when the user cancels the
    transfer of a photo and then chooses to go on, validation still opens the
    photo, which was never copied, and the run dies of the missing file.
   */
  lemma AbortedPhotoIsStillValidated(cfg: Config, io: Oracles, st: State, e: Entry, dest: string)
    requires !cfg.test && cfg.validate && IsJpg(e.name)
    requires Decide(cfg, st.archive, e) == Copy(dest)
    requires var p := PrepareFolder(st.archive, dest, st.inputs);
             && p.Ready? && io.mover(e, p.target).aborted
             && ContinueRunning(p.inputs).Some? && ContinueRunning(p.inputs).value.proceed
    ensures var r := StepEntry(cfg, io, st, e);
            r.Stop? && r.status.Crashed? && r.status.fault.FileMissing?
  {
    CopyTargetLacksFile(cfg, st, e, dest);
    AbortedCopyIsValidated(cfg, io, st, e, dest);
  }

  /** A single-entry run from a fresh state ends as the entry's step does. */
  lemma SingleEntryRun(cfg: Config, io: Oracles, e: Entry, a: Archive, inputs: seq<string>)
    ensures var step := StepEntry(cfg, io, State(Zero, a, inputs), e);
            var r := Main(cfg, io, Some([e]), a, inputs);
            && r.state == step.state && r.processed == 1
            && (step.Next? ==> r.status == Completed)
            && (step.Stop? ==> r.status == step.status)
  {
    var st := State(Zero, a, inputs);
    var step := StepEntry(cfg, io, st, e);
    assert Main(cfg, io, Some([e]), a, inputs) == RunEntries(cfg, io, st, [e]);
    assert [e][0] == e && [e][1..] == [];
    match step
    case Stop(status, st1) =>
      assert RunEntries(cfg, io, st, [e]) == Outcome(status, st1, 1);
    case Next(st1) =>
      assert RunEntries(cfg, io, st1, []) == Outcome(Completed, st1, 0);
      assert RunEntries(cfg, io, st, [e]) == Outcome(Completed, st1, 1);
  }

  /**
    The copy step of line 193 as written: the photo lands in the new folder
    described "Birthday" but is opened under the bare bucket path.
   */
  lemma AsWrittenCopyCrashes(cfg: Config, io: Oracles, e: Entry, canonical: string, rest: seq<string>)
    requires cfg.validate && cfg.lookup == AsWritten && IsJpg(e.name)
    requires var t := NewFolderName(canonical, "Birthday");
             io.mover(e, t).success && !io.mover(e, t).aborted
    ensures var r := LiveCopy(cfg, io, State(Zero, [], ["Birthday"] + rest), e, canonical);
            r.Stop? && r.status == Crashed(FileMissing(canonical + [Sep] + e.name))
  {
    AsWrittenValidationMissesAnnotatedFolder([], canonical, e.name, rest, io.exif, cfg.format, e.taken);
    var p := PrepareFolder([], canonical, ["Birthday"] + rest);
    var after := AddFile(p.archive, p.folder, e.name);
    var st1 := State(Zero.Copied(KindOf(e.name)), after, p.inputs);
    assert AfterCopy(cfg, io, st1, e, canonical).status == Crashed(FileMissing(canonical + [Sep] + e.name));
  }

  /**
    With an empty archive, a live step in the window hands `copy()` the bare
    bucket path as its destination (where the file lands then depends on the
    description `copy()` reads).
   */
  lemma FreshBucketIsCopied(cfg: Config, io: Oracles, e: Entry, inputs: seq<string>)
    requires !cfg.test && cfg.rangeMin < e.taken <= cfg.rangeMax
    ensures StepEntry(cfg, io, State(Zero, [], inputs), e)
            == LiveCopy(cfg, io, State(Zero, [], inputs), e, BucketOf(cfg, e))
  {
    assert Decide(cfg, [], e) == Copy(BucketOf(cfg, e));
  }

  /**
    Line 193 over a whole run, as written: with validation on and no folder
    for the bucket yet, a photo copied into the new folder described
    "Birthday" is looked for under the bare bucket path, and the run dies of
    the missing file with exit status 1.
   */
  lemma AsWrittenRunCrashesAfterNewFolder(cfg: Config, io: Oracles, e: Entry, rest: seq<string>)
    requires !cfg.test && cfg.validate && cfg.lookup == AsWritten && IsJpg(e.name)
    requires cfg.rangeMin < e.taken <= cfg.rangeMax
    requires var t := NewFolderName(BucketOf(cfg, e), "Birthday");
             io.mover(e, t).success && !io.mover(e, t).aborted
    ensures var r := Main(cfg, io, Some([e]), [], ["Birthday"] + rest);
            && r.status == Crashed(FileMissing(BucketOf(cfg, e) + [Sep] + e.name))
            && ExitCode(r.status) == 1
  {
    var canonical := BucketOf(cfg, e);
    var inputs := ["Birthday"] + rest;
    AsWrittenCopyCrashes(cfg, io, e, canonical, rest);
    FreshBucketIsCopied(cfg, io, e, inputs);
    var step := StepEntry(cfg, io, State(Zero, [], inputs), e);
    assert step.Stop? && step.status == Crashed(FileMissing(canonical + [Sep] + e.name));
    SingleEntryRun(cfg, io, e, [], inputs);
  }

  /**
    The copy step with the corrected lookup: the photo is opened in the
    folder it landed in, and a matching EXIF date lets the step go on.
   */
  lemma CorrectedCopyGoesOn(cfg: Config, io: Oracles, e: Entry, canonical: string, rest: seq<string>, d: int)
    requires cfg.validate && cfg.lookup == Corrected && IsJpg(e.name)
    requires var t := NewFolderName(canonical, "Birthday");
             io.mover(e, t).success && !io.mover(e, t).aborted
    requires io.exif(canonical + " Birthday" + [Sep] + e.name) == Some(d)
    requires cfg.format(d) == cfg.format(e.taken)
    ensures var r := LiveCopy(cfg, io, State(Zero, [], ["Birthday"] + rest), e, canonical);
            r.Next? && r.state.counters == Zero.Copied(Photo) && r.state.inputs == rest
  {
    var inputs := ["Birthday"] + rest;
    var p := PrepareFolder([], canonical, inputs);
    assert p.Ready? && p.folder == canonical + " Birthday" && p.inputs == rest;
    CopiedPhotoIsFound([], canonical, inputs, e.name, io.exif);
    var after := AddFile(p.archive, p.folder, e.name);
    var st1 := State(Zero.Copied(Photo), after, rest);
    assert ReadExif(after, io.exif, p.folder, e.name) == Taken(d);
    assert AfterCopy(cfg, io, st1, e, p.folder) == Next(st1);
  }

  /**
    The same run with the corrected lookup: the photo is opened where it
    landed, its EXIF date matches, and the run completes with one photo
    copied and the description consumed.
   */
  lemma CorrectedRunValidatesNewFolder(cfg: Config, io: Oracles, e: Entry, rest: seq<string>, d: int)
    requires !cfg.test && cfg.validate && cfg.lookup == Corrected && IsJpg(e.name)
    requires cfg.rangeMin < e.taken <= cfg.rangeMax
    requires var t := NewFolderName(BucketOf(cfg, e), "Birthday");
             io.mover(e, t).success && !io.mover(e, t).aborted
    requires io.exif(BucketOf(cfg, e) + " Birthday" + [Sep] + e.name) == Some(d)
    requires cfg.format(d) == cfg.format(e.taken)
    ensures var r := Main(cfg, io, Some([e]), [], ["Birthday"] + rest);
            && r.status == Completed && r.state.counters == Zero.Copied(Photo) && r.state.inputs == rest
  {
    CorrectedCopyGoesOn(cfg, io, e, BucketOf(cfg, e), rest, d);
    FreshBucketIsCopied(cfg, io, e, ["Birthday"] + rest);
    SingleEntryRun(cfg, io, e, [], ["Birthday"] + rest);
  }
}
