/**
 * The batch driver `zips_a_parquet` (src/etl_tools.py:11-100): every
 * top-level `.zip` of the source directory is opened and walked, every
 * normalized table is written as `data_<n>.parquet` with `n` counting the
 * successful writes from 0, and diagnostics are printed as the walk goes.
 */
module Batch {
  import opened Wrappers
  import opened Strings
  import opened Frames
  import opened Normalizer
  import opened Archives

  /** What `zipfile.ZipFile(ruta_zip)` does with one top-level file. */
  datatype OpenOutcome =
    | Opened(archive: Archive)
    | BadZip      // zipfile.BadZipFile: reported, and the batch goes on
    | OpenError   // any other exception (a directory named `x.zip`, say): it leaves zips_a_parquet

  /** One entry of `os.listdir(ruta_origen)`, in listing order. */
  datatype SourceFile = SourceFile(name: string, open: OpenOutcome)

  /** One file written into the destination directory. */
  datatype Unit = Unit(name: string, table: Table)

  /** The file name of the `n`-th written table: `f"data_{n}.parquet"`. */
  function UnitName(n: nat): string {
    "data_" + Decimal(n) + ".parquet"
  }

  /** Different counter values give different file names, so no write overwrites another. */
  lemma UnitNameInjective(i: nat, j: nat)
    requires UnitName(i) == UnitName(j)
    ensures i == j
  {
    var u := UnitName(i);
    assert |Decimal(i)| == |Decimal(j)|;
    assert Decimal(i) == u[5..|u| - 8] == Decimal(j);
    DecimalInjective(i, j);
  }

  /** Tables written in order, each under the counter value it was written with. */
  function Numbered(ts: seq<Table>): (us: seq<Unit>)
    ensures |us| == |ts|
    ensures forall i :: 0 <= i < |us| ==> us[i] == Unit(UnitName(i), ts[i])
    ensures forall i, j :: 0 <= i < j < |us| ==> us[i].name != us[j].name
  {
    var us := seq(|ts|, i requires 0 <= i < |ts| => Unit(UnitName(i), ts[i]));
    assert forall i, j :: 0 <= i < j < |us| ==> us[i].name != us[j].name by {
      forall i, j | 0 <= i < j < |us| ensures us[i].name != us[j].name {
        if us[i].name == us[j].name { UnitNameInjective(i, j); }
      }
    }
    us
  }

  /** The tables of a sequence of written files. */
  function TablesOf(us: seq<Unit>): (ts: seq<Table>)
    ensures |ts| == |us| && forall i :: 0 <= i < |us| ==> ts[i] == us[i].table
  {
    seq(|us|, i requires 0 <= i < |us| => us[i].table)
  }

  // ---------------------------------------------------------------- the run, as a specification

  /** A top-level entry the batch stops at: a `.zip` that raises something other than `BadZipFile`. */
  predicate Aborts(f: SourceFile) {
    EndsWithLower(f.name, ".zip") && f.open.OpenError?
  }

  /** What the batch produced after the first `n` directory entries, and whether it is still running. */
  datatype RunTrace = RunTrace(trace: Trace, completed: bool)

  /**
   * The outer loop (src/etl_tools.py:25-98): entries whose lower-cased name
   * does not end in `.zip` are skipped; an archive that opens is walked; a
   * `BadZipFile` prints one `ZIP Corrupto` line; any other exception ends the run.
   */
  function RunUpTo(sources: seq<SourceFile>, n: nat, p: Policy): RunTrace
    requires n <= |sources|
  {
    if n == 0 then RunTrace(NoTrace, true)
    else
      var before := RunUpTo(sources, n - 1, p);
      var f := sources[n - 1];
      if !before.completed || !EndsWithLower(f.name, ".zip") then before
      else match f.open
        case Opened(a) => RunTrace(before.trace.Then(Walk(a, p)), true)
        case BadZip => RunTrace(before.trace.Then(Trace([], [CorruptArchive(f.name)])), true)
        case OpenError => RunTrace(before.trace, false)
  }

  /** The run gets through the first `n` entries exactly when none of them aborts it. */
  lemma {:induction false} RunCompletes(sources: seq<SourceFile>, n: nat, p: Policy)
    requires n <= |sources|
    ensures RunUpTo(sources, n, p).completed <==> forall i :: 0 <= i < n ==> !Aborts(sources[i])
  {
    if n > 0 {
      RunCompletes(sources, n - 1, p);
    }
  }

  /** Once the run has stopped, later entries change nothing. */
  lemma {:induction false} StoppedRunIsFinal(sources: seq<SourceFile>, i: nat, n: nat, p: Policy)
    requires i <= n <= |sources|
    requires !RunUpTo(sources, i, p).completed
    ensures RunUpTo(sources, n, p) == RunUpTo(sources, i, p)
    decreases n
  {
    if n > i {
      StoppedRunIsFinal(sources, i, n - 1, p);
    }
  }

  /**
   * One top-level entry while the run is live (src/etl_tools.py:26, 97-98): a
   * name without the `.zip` suffix changes nothing, and a `BadZipFile` adds one
   * `ZIP Corrupto` line and no table, and the run goes on.
   */
  lemma TopLevelEntry(sources: seq<SourceFile>, n: nat, p: Policy)
    requires n < |sources| && RunUpTo(sources, n, p).completed
    ensures !EndsWithLower(sources[n].name, ".zip") ==> RunUpTo(sources, n + 1, p) == RunUpTo(sources, n, p)
    ensures EndsWithLower(sources[n].name, ".zip") && sources[n].open.BadZip? ==>
              var before := RunUpTo(sources, n, p).trace;
              RunUpTo(sources, n + 1, p) == RunTrace(Trace(before.tables, before.reports + [CorruptArchive(sources[n].name)]), true)
  {
    var before := RunUpTo(sources, n, p).trace;
    assert before.tables + [] == before.tables;
  }

  /** The data-file members reached from the first `n` entries: those of every opened `.zip` before the first abort. */
  function SourceDataFiles(sources: seq<SourceFile>, n: nat): seq<Member>
    requires n <= |sources|
  {
    if n == 0 then []
    else
      var before := SourceDataFiles(sources, n - 1);
      var f := sources[n - 1];
      if (exists i :: 0 <= i < n - 1 && Aborts(sources[i])) || !EndsWithLower(f.name, ".zip") || !f.open.Opened? then before
      else before + DataFilesUpTo(f.open.archive, |f.open.archive.members|)
  }

  /**
   * The tables the batch writes are exactly those of the data files it reaches,
   * each processed on its own, in order: `|written|` counts the data files that
   * neither failed to read nor to normalize.
   */
  lemma {:induction false} RunOutputs(sources: seq<SourceFile>, n: nat, p: Policy)
    requires n <= |sources|
    ensures RunUpTo(sources, n, p).trace.tables == PerEntry(SourceDataFiles(sources, n), p).tables
  {
    if n > 0 {
      RunOutputs(sources, n - 1, p);
      RunCompletes(sources, n - 1, p);
      var f := sources[n - 1];
      var before := RunUpTo(sources, n - 1, p);
      var files := SourceDataFiles(sources, n - 1);
      assert before.completed <==> !exists i :: 0 <= i < n - 1 && Aborts(sources[i]);
      var live := before.completed && EndsWithLower(f.name, ".zip");
      if live && f.open.Opened? {
        var a := f.open.archive;
        var inner := DataFilesUpTo(a, |a.members|);
        assert SourceDataFiles(sources, n) == files + inner;
        assert RunUpTo(sources, n, p).trace == before.trace.Then(Walk(a, p));
        OpenedArchiveTables(before.trace, files, a, p);
      } else if live && f.open.BadZip? {
        assert SourceDataFiles(sources, n) == files;
        assert RunUpTo(sources, n, p).trace.tables == before.trace.tables + [];
        assert before.trace.tables + [] == before.trace.tables;
      } else {
        assert SourceDataFiles(sources, n) == files;
        assert RunUpTo(sources, n, p).trace.tables == before.trace.tables;
      }
    }
  }

  /** Walking an opened archive after the tables of `files` yields the tables of `files` and then its data files. */
  lemma OpenedArchiveTables(tr: Trace, files: seq<Member>, a: Archive, p: Policy)
    requires tr.tables == PerEntry(files, p).tables
    ensures tr.Then(Walk(a, p)).tables == PerEntry(files + DataFilesUpTo(a, |a.members|), p).tables
  {
    WalkIsPerEntry(a, |a.members|, p);
    PerEntryAppend(files, DataFilesUpTo(a, |a.members|), p);
  }

  /** The file names in the `ZIP Corrupto` lines of a log, in order. */
  function CorruptNames(log: seq<Report>): seq<string> {
    if log == [] then []
    else CorruptNames(log[..|log| - 1]) + (if log[|log| - 1].CorruptArchive? then [log[|log| - 1].file] else [])
  }

  /** The names of the `.zip` entries that raise `BadZipFile`, among the first `n`, before the first abort. */
  function BadZipNames(sources: seq<SourceFile>, n: nat): seq<string>
    requires n <= |sources|
  {
    if n == 0 then []
    else
      var f := sources[n - 1];
      BadZipNames(sources, n - 1)
      + if !(exists i :: 0 <= i < n - 1 && Aborts(sources[i])) && EndsWithLower(f.name, ".zip") && f.open.BadZip?
        then [f.name] else []
  }

  /** `CorruptNames` of two logs one after the other. */
  lemma {:induction false} CorruptNamesAppend(xs: seq<Report>, ys: seq<Report>)
    ensures CorruptNames(xs + ys) == CorruptNames(xs) + CorruptNames(ys)
    decreases |ys|
  {
    if ys == [] {
      assert xs + ys == xs;
    } else {
      assert (xs + ys)[..|xs + ys| - 1] == xs + ys[..|ys| - 1];
      CorruptNamesAppend(xs, ys[..|ys| - 1]);
    }
  }

  /** A log of `EntryFailed` lines only has no `ZIP Corrupto` line. */
  lemma {:induction false} NoCorruptNames(log: seq<Report>)
    requires forall r :: r in log ==> r.EntryFailed?
    ensures CorruptNames(log) == []
  {
    if log != [] {
      NoCorruptNames(log[..|log| - 1]);
      assert log[|log| - 1] in log;
    }
  }

  /**
   * Every top-level `.zip` that raises `BadZipFile` gets exactly one
   * `ZIP Corrupto` line, in order, and nothing else prints one: a nested
   * archive that fails to open is skipped without a line.
   */
  lemma {:induction false} RunCorruptReports(sources: seq<SourceFile>, n: nat, p: Policy)
    requires n <= |sources|
    ensures CorruptNames(RunUpTo(sources, n, p).trace.reports) == BadZipNames(sources, n)
  {
    if n > 0 {
      RunCorruptReports(sources, n - 1, p);
      RunCompletes(sources, n - 1, p);
      var f := sources[n - 1];
      var before := RunUpTo(sources, n - 1, p);
      var names := BadZipNames(sources, n - 1);
      var live := before.completed && EndsWithLower(f.name, ".zip");
      if live && f.open.Opened? {
        var a := f.open.archive;
        var w := Walk(a, p);
        assert BadZipNames(sources, n) == names + [];
        assert RunUpTo(sources, n, p).trace.reports == before.trace.reports + w.reports;
        WalkIsPerEntry(a, |a.members|, p);
        PerEntrySpec(DataFilesUpTo(a, |a.members|), p);
        NoCorruptNames(w.reports);
        CorruptNamesAppend(before.trace.reports, w.reports);
      } else if live && f.open.BadZip? {
        assert BadZipNames(sources, n) == names + [f.name];
        assert RunUpTo(sources, n, p).trace.reports == before.trace.reports + [CorruptArchive(f.name)];
        CorruptNamesAppend(before.trace.reports, [CorruptArchive(f.name)]);
        assert CorruptNames([CorruptArchive(f.name)]) == [f.name];
      } else {
        assert BadZipNames(sources, n) == names + [];
        assert RunUpTo(sources, n, p).trace.reports == before.trace.reports;
      }
    }
  }

  /** Concatenation is associative. */
  lemma AppendAssoc<T>(a: seq<T>, b: seq<T>, c: seq<T>)
    ensures (a + b) + c == a + (b + c)
  {
  }

  // ---------------------------------------------------------------- the converter's state

  /**
   * The state `zips_a_parquet` keeps while it runs: the counter `contador`, the
   * files written into the destination directory, in order, and the
   * diagnostics printed.
   */
  class Converter {
    const policy: Policy
    var counter: nat
    var written: seq<Unit>
    var log: seq<Report>

    /** The destination holds `data_0` to `data_<counter - 1>` and nothing else. */
    ghost predicate Valid()
      reads this
    {
      counter == |written| && written == Numbered(TablesOf(written))
    }

    /** `rmtree` and `makedirs` on the destination, then `contador = 0` (src/etl_tools.py:18-22). */
    constructor (policy: Policy)
      ensures Valid()
      ensures this.policy == policy && written == [] && log == []
    {
      this.policy := policy;
      counter := 0;
      written := [];
      log := [];
    }

    /** `write_parquet` under `data_{contador}`, then `contador += 1` (src/etl_tools.py:80-81). */
    method Write(t: Table)
      requires Valid()
      modifies this
      ensures Valid()
      ensures TablesOf(written) == TablesOf(old(written)) + [t]
      ensures written == old(written) + [Unit(UnitName(old(counter)), t)]
      ensures log == old(log)
    {
      written := written + [Unit(UnitName(counter), t)];
      counter := counter + 1;
      assert TablesOf(written) == TablesOf(old(written)) + [t];
    }

    /** One data-file member (src/etl_tools.py:38-86). */
    method ProcessDataFile(m: Member)
      requires Valid()
      modifies this
      ensures Valid()
      ensures TablesOf(written) == TablesOf(old(written)) + EntryTrace(m, policy).tables
      ensures log == old(log) + EntryTrace(m, policy).reports
    {
      var raw := m.payload.narrow;
      if raw.None? {
        raw := m.payload.full;
      }
      if raw.None? {
        log := log + [EntryFailed(m.name)];
        return;
      }
      var t := Rename(raw.value);
      if !DistinctNames(t) {
        log := log + [EntryFailed(m.name)];
        return;
      }
      t := CoerceColumns(t, policy);
      t := DeriveDate(t, policy.floatText);
      Write(t);
    }

    /** `procesar_interno`: the members of one open archive, in order, descending into nested zips. */
    method ProcessArchive(a: Archive)
      requires Valid()
      modifies this
      ensures Valid()
      ensures TablesOf(written) == TablesOf(old(written)) + Walk(a, policy).tables
      ensures log == old(log) + Walk(a, policy).reports
      decreases a
    {
      ghost var tablesAtEntry := TablesOf(written);
      for i := 0 to |a.members|
        invariant Valid()
        invariant TablesOf(written) == tablesAtEntry + WalkUpTo(a, i, policy).tables
        invariant log == old(log) + WalkUpTo(a, i, policy).reports
      {
        var m := a.members[i];
        assert m in a.members;
        ghost var before := WalkUpTo(a, i, policy);
        ghost var tables0, log0 := TablesOf(written), log;
        ghost var step := NoTrace;
        match Classify(m.name) {
          case DataFile =>
            ProcessDataFile(m);
            step := EntryTrace(m, policy);
          case NestedArchive =>
            if m.payload.nested.Some? {
              ProcessArchive(m.payload.nested.value);
              step := Walk(m.payload.nested.value, policy);
            }
          case Ignored =>
        }
        assert WalkUpTo(a, i + 1, policy) == before.Then(step);
        assert TablesOf(written) == tables0 + step.tables && log == log0 + step.reports;
        AppendAssoc(old(log), before.reports, step.reports);
        assert log == old(log) + (before.reports + step.reports);
        AppendAssoc(tablesAtEntry, before.tables, step.tables);
        assert TablesOf(written) == tablesAtEntry + (before.tables + step.tables);
      }
    }

    /** The loop over the source directory (src/etl_tools.py:25-98); `false` when an entry aborted the run. */
    method Run(sources: seq<SourceFile>) returns (completed: bool)
      requires Valid()
      modifies this
      ensures Valid()
      ensures TablesOf(written) == TablesOf(old(written)) + RunUpTo(sources, |sources|, policy).trace.tables
      ensures log == old(log) + RunUpTo(sources, |sources|, policy).trace.reports
      ensures completed == RunUpTo(sources, |sources|, policy).completed
    {
      completed := true;
      var i := 0;
      while i < |sources| && completed
        invariant 0 <= i <= |sources|
        invariant Valid()
        invariant TablesOf(written) == TablesOf(old(written)) + RunUpTo(sources, i, policy).trace.tables
        invariant log == old(log) + RunUpTo(sources, i, policy).trace.reports
        invariant completed == RunUpTo(sources, i, policy).completed
      {
        var f := sources[i];
        ghost var before := RunUpTo(sources, i, policy);
        if EndsWithLower(f.name, ".zip") {
          match f.open {
            case Opened(a) =>
              ProcessArchive(a);
              assert RunUpTo(sources, i + 1, policy) == RunTrace(before.trace.Then(Walk(a, policy)), true);
              AppendAssoc(TablesOf(old(written)), before.trace.tables, Walk(a, policy).tables);
              AppendAssoc(old(log), before.trace.reports, Walk(a, policy).reports);
            case BadZip =>
              log := log + [CorruptArchive(f.name)];
              assert RunUpTo(sources, i + 1, policy) == RunTrace(before.trace.Then(Trace([], [CorruptArchive(f.name)])), true);
              AppendAssoc(old(log), before.trace.reports, [CorruptArchive(f.name)]);
              assert before.trace.tables + [] == before.trace.tables;
            case OpenError =>
              completed := false;
              assert RunUpTo(sources, i + 1, policy) == RunTrace(before.trace, false);
          }
        } else {
          assert RunUpTo(sources, i + 1, policy) == before;
        }
        i := i + 1;
      }
      if !completed {
        StoppedRunIsFinal(sources, i, |sources|, policy);
      }
    }
  }

  /**
   * `zips_a_parquet` as a whole: the files left in the destination, the
   * diagnostics printed, and the count the final line reports, which is
   * printed only when no entry aborted the run.
   */
  method ZipsToParquet(sources: seq<SourceFile>, policy: Policy)
    returns (units: seq<Unit>, log: seq<Report>, summary: Option<nat>)
    ensures var run := RunUpTo(sources, |sources|, policy);
            && units == Numbered(run.trace.tables)
            && log == run.trace.reports
            && summary == if run.completed then Some(|units|) else None
  {
    var converter := new Converter(policy);
    var completed := converter.Run(sources);
    units := converter.written;
    log := converter.log;
    summary := if completed then Some(converter.counter) else None;
  }
}
