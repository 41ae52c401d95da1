/**
  The run loop of `main()`: every source entry is classified against the date
  window and the archive, copied (or, in test mode, only counted), and, for
  photos, validated; the loop stops early on a failed copy, a declined prompt
  or a failed validation.
 */
module Ingest {
  import opened Text
  import opened Optional
  import opened Faults
  import opened Prompt
  import opened Archive
  import opened Bucket
  import opened Tally
  import opened Validation

  /** A file of the source folder: its display name and its (local) modification time. */
  datatype Entry = Entry(name: string, taken: int)

  /**
    The settings `main()` reads: archive root, folder format, date window and
    the two flags. `lookup` picks the folder a copied photo is validated in:
    `AsWritten` is the program, `Corrected` the evidently intended one.
   */
  datatype Config = Config(
    destPath: string,
    format: int -> string,
    rangeMin: int,
    rangeMax: int,
    validate: bool,
    test: bool,
    lookup: Lookup)

  /** What the shell file operation reports: `success` and `aborted`. */
  datatype CopyResult = CopyResult(success: bool, aborted: bool)

  /** The calls into code outside the model: the file operation and the EXIF reader. */
  datatype Oracles = Oracles(
    mover: (Entry, string) -> CopyResult,
    exif: string -> Option<int>)

  /** Everything the loop carries from one entry to the next. */
  datatype State = State(counters: Counters, archive: Archive, inputs: seq<string>)

  /** The decision for one entry before anything is copied. */
  datatype Decision = SkipOutOfRange | SkipAlreadyArchived(folder: string) | Copy(dest: string)

  /** How a run (or one step of it) ended when it did not simply go on. */
  datatype Status = Completed | Halted | Crashed(fault: Fault)

  /** One step: carry on with the next entry, or stop the run. */
  datatype Step = Next(state: State) | Stop(status: Status, state: State)

  /** The canonical bucket of an entry. */
  function BucketOf(cfg: Config, e: Entry): string
  {
    Canonical(cfg.destPath, cfg.format, e.taken)
  }

  /** The file is already in some folder of its bucket. */
  ghost predicate AlreadyArchived(cfg: Config, a: Archive, e: Entry)
  {
    Archived(a, BucketOf(cfg, e), e.name)
  }

  /**
    Lines 150-162: out of the window, already in a folder of the bucket, or
    to be copied to the last folder of the bucket (the canonical path when
    the bucket has none).
   */
  function Decide(cfg: Config, a: Archive, e: Entry): (d: Decision)
    ensures d.SkipOutOfRange? <==> !(cfg.rangeMin < e.taken <= cfg.rangeMax)
    ensures d.SkipAlreadyArchived? <==>
              cfg.rangeMin < e.taken <= cfg.rangeMax && AlreadyArchived(cfg, a, e)
    ensures d.Copy? ==> Matches(BucketOf(cfg, e), d.dest)
    ensures d.Copy? && (forall k :: !MatchAt(a, BucketOf(cfg, e), k)) ==>
              d.dest == BucketOf(cfg, e) && !FolderExists(a, d.dest)
    ensures d.Copy? && (exists k :: MatchAt(a, BucketOf(cfg, e), k)) ==>
              exists k :: LastMatch(a, BucketOf(cfg, e), k) && d.dest == a[k].path
  {
    if !InWindow(cfg.rangeMin, cfg.rangeMax, e.taken) then SkipOutOfRange
    else
      var canonical := BucketOf(cfg, e);
      assert canonical[|canonical|..] == [];
      assert forall k :: 0 <= k < |a| && a[k].path == canonical ==> MatchAt(a, canonical, k);
      match Resolve(a, canonical, e.name)
      case AlreadyIn(folder) => SkipAlreadyArchived(folder)
      case Target(dest) => Copy(dest)
  }

  /**
    Lines 192-198, run after the copy: photos are validated when validation
    is on; a failed validation ("n" at the prompt) halts the run.
   */
  function AfterCopy(cfg: Config, io: Oracles, st: State, e: Entry, folder: string): (r: Step)
    ensures r.state.counters == st.counters && r.state.archive == st.archive
    ensures IsSuffix(r.state.inputs, st.inputs)
    ensures !(cfg.validate && IsJpg(e.name)) ==> r == Next(st)
    ensures r.Stop? ==> r.status != Completed
    ensures var check := ValidatePhoto(cfg.format, e.taken, ReadExif(st.archive, io.exif, folder, e.name), st.inputs);
            cfg.validate && IsJpg(e.name) ==>
              && (r.Stop? && r.status == Halted <==> check.Checked? && check.verdict == FailedAbort)
              && (r.Stop? && r.status.Crashed? <==> check.Faulted?)
              && (check.Checked? ==> r.state.inputs == check.rest)
  {
    if cfg.validate && IsJpg(e.name) then
      var read := ReadExif(st.archive, io.exif, folder, e.name);
      match ValidatePhoto(cfg.format, e.taken, read, st.inputs)
      case Faulted(f) => Stop(Crashed(f), st)
      case Checked(verdict, rest) =>
        if verdict == FailedAbort then Stop(Halted, st.(inputs := rest))
        else Next(st.(inputs := rest))
    else
      Next(st)
  }

  /**
    Lines 124-130 and 173-198, once `copy()` has its folder: the transfer,
    the prompt after an abort, counting the copy by kind, and validation.
    A failed transfer halts the run, and so does an aborted one unless the
    user says to go on.
   */
  function Transfer(cfg: Config, io: Oracles, st: State, e: Entry, dest: string, p: Prepared): (r: Step)
    requires p.Ready?
    ensures r.state.counters == st.counters || r.state.counters == st.counters.Copied(KindOf(e.name))
    ensures Extends(p.archive, r.state.archive)
    ensures IsSuffix(r.state.inputs, p.inputs)
    ensures r.Stop? ==> r.status != Completed
    ensures r.Next? && !io.mover(e, p.target).aborted ==> r.state.counters == st.counters.Copied(KindOf(e.name))
    ensures !io.mover(e, p.target).success && !io.mover(e, p.target).aborted ==>
              r == Stop(Halted, State(st.counters, p.archive, p.inputs))
    ensures io.mover(e, p.target).success && !io.mover(e, p.target).aborted ==>
              r == AfterCopy(cfg, io, State(st.counters.Copied(KindOf(e.name)), AddFile(p.archive, p.folder, e.name), p.inputs),
                             e, CheckFolder(cfg.lookup, dest, p.folder))
    ensures io.mover(e, p.target).aborted ==>
              match ContinueRunning(p.inputs)
              case None => r.Stop? && r.status == Crashed(EndOfInput)
              case Some(reply) =>
                && (!reply.proceed ==> r == Stop(Halted, State(st.counters, p.archive, reply.rest)))
                && (reply.proceed ==> r == AfterCopy(cfg, io, State(st.counters, p.archive, reply.rest),
                                                     e, CheckFolder(cfg.lookup, dest, p.folder)))
  {
    var result := io.mover(e, p.target);
    var copied := if result.success && !result.aborted then AddFile(p.archive, p.folder, e.name) else p.archive;
    var st1 := State(st.counters, copied, p.inputs);
    if result.aborted then
      match ContinueRunning(p.inputs)
      case None => Stop(Crashed(EndOfInput), st1)
      case Some(reply) =>
        if !reply.proceed then Stop(Halted, st1.(inputs := reply.rest))
        else AfterCopy(cfg, io, st1.(inputs := reply.rest), e, CheckFolder(cfg.lookup, dest, p.folder))
    else if result.success then
      AfterCopy(cfg, io, st1.(counters := st.counters.Copied(KindOf(e.name))), e, CheckFolder(cfg.lookup, dest, p.folder))
    else
      Stop(Halted, st1)
  }

  /**
    Lines 116-130 and 173-198: create the folder when needed, copy, count the
    copy by kind, and validate; `makedirs` or an exhausted script ends the
    run before the transfer.
   */
  function LiveCopy(cfg: Config, io: Oracles, st: State, e: Entry, dest: string): (r: Step)
    ensures r.state.counters == st.counters || r.state.counters == st.counters.Copied(KindOf(e.name))
    ensures Extends(st.archive, r.state.archive)
    ensures IsSuffix(r.state.inputs, st.inputs)
    ensures r.Stop? ==> r.status != Completed
    ensures var p := PrepareFolder(st.archive, dest, st.inputs);
            p.PrepFault? ==> r == Stop(Crashed(p.fault), st)
    ensures var p := PrepareFolder(st.archive, dest, st.inputs);
            p.Ready? ==> r == Transfer(cfg, io, st, e, dest, p)
  {
    var p := PrepareFolder(st.archive, dest, st.inputs);
    if p.PrepFault? then Stop(Crashed(p.fault), st)
    else
      var r := Transfer(cfg, io, st, e, dest, p);
      ExtendsTransitive(st.archive, p.archive, r.state.archive);
      SuffixTransitive(r.state.inputs, p.inputs, st.inputs);
      r
  }

  /** The body of the `for pidl in folder` loop for one entry. */
  function StepEntry(cfg: Config, io: Oracles, st: State, e: Entry): (r: Step)
    ensures !(cfg.rangeMin < e.taken <= cfg.rangeMax) ==> r == Next(st.(counters := st.counters.Ignored()))
    ensures AlreadyArchived(cfg, st.archive, e) ==> r == Next(st.(counters := st.counters.Ignored()))
    ensures st.counters.AtMostOneMore(r.state.counters)
    ensures Extends(st.archive, r.state.archive)
    ensures IsSuffix(r.state.inputs, st.inputs)
    ensures r.Stop? ==> r.status != Completed
    ensures cfg.test ==> r.Next? && r.state.archive == st.archive && r.state.inputs == st.inputs
                         && r.state.counters.Total() == st.counters.Total() + 1
    ensures Decide(cfg, st.archive, e).Copy? ==>
              r == if cfg.test then Next(st.(counters := st.counters.Copied(KindOf(e.name))))
                   else LiveCopy(cfg, io, st, e, Decide(cfg, st.archive, e).dest)
  {
    match Decide(cfg, st.archive, e)
    case SkipOutOfRange => Next(st.(counters := st.counters.Ignored()))
    case SkipAlreadyArchived(_) => Next(st.(counters := st.counters.Ignored()))
    case Copy(dest) =>
      if cfg.test then Next(st.(counters := st.counters.Copied(KindOf(e.name))))
      else LiveCopy(cfg, io, st, e, dest)
  }

  /** The end of a run: how it ended, the final state, and how many entries were taken up. */
  datatype Outcome = Outcome(status: Status, state: State, processed: nat)

  /** The loop over the entries from `st` on; it stops at the first step that stops. */
  function RunEntries(cfg: Config, io: Oracles, st: State, entries: seq<Entry>): (r: Outcome)
    decreases |entries|
    ensures r.processed <= |entries|
    ensures r.status == Completed ==> r.processed == |entries|
    ensures r.status != Completed ==> r.processed > 0
    ensures Extends(st.archive, r.state.archive)
    ensures IsSuffix(r.state.inputs, st.inputs)
    ensures st.counters.Total() <= r.state.counters.Total() <= st.counters.Total() + r.processed
  {
    if |entries| == 0 then Outcome(Completed, st, 0)
    else
      match StepEntry(cfg, io, st, entries[0])
      case Stop(status, st1) => Outcome(status, st1, 1)
      case Next(st1) =>
        var rest := RunEntries(cfg, io, st1, entries[1..]);
        ExtendsTransitive(st.archive, st1.archive, rest.state.archive);
        SuffixTransitive(rest.state.inputs, st1.inputs, st.inputs);
        Outcome(rest.status, rest.state, rest.processed + 1)
  }

  /** `main()`: a source folder that cannot be found ends the run before any entry. */
  function Main(cfg: Config, io: Oracles, source: Option<seq<Entry>>, a: Archive, inputs: seq<string>): (r: Outcome)
    ensures source.None? ==> r == Outcome(Halted, State(Zero, a, inputs), 0)
    ensures source.Some? ==> r.processed <= |source.value|
    ensures r.state.counters.Total() <= r.processed
  {
    match source
    case None => Outcome(Halted, State(Zero, a, inputs), 0)
    case Some(entries) => RunEntries(cfg, io, State(Zero, a, inputs), entries)
  }

  /** The process exit status `main()` returns; an uncaught exception also exits with 1. */
  function ExitCode(status: Status): (code: int)
    ensures code == 0 <==> status == Completed
    ensures code == 0 || code == 1
  {
    if status == Completed then 0 else 1
  }
}
