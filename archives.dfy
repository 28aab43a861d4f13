/**
 * The archive walk of `procesar_interno` (src/etl_tools.py:33-93): an archive
 * is a list of named members; each member is classified by its name and is
 * read as a Stata file, descended into as a nested zip, or ignored.
 */
module Archives {
  import opened Wrappers
  import opened Strings
  import opened Frames
  import opened Normalizer

  /**
   * What the foreign libraries make of one member's bytes: the Stata reader
   * with the required columns, the Stata reader with all columns (pandas to
   * polars included), and `zipfile.ZipFile` on the bytes. `None` is a raised
   * exception; a failure to read the member's bytes fails all three.
   */
  datatype Payload = Payload(narrow: Option<RawTable>, full: Option<RawTable>, nested: Option<Archive>)

  datatype Member = Member(name: string, payload: Payload)

  /** An open zip: its members in `namelist()` order. */
  datatype Archive = Archive(members: seq<Member>)

  datatype Kind = DataFile | NestedArchive | Ignored

  /** The folder fragment macOS adds to zips for its metadata. */
  const MacMetadata: string := "__MACOSX"

  /** `name` ends with the lower-case `suffix` once each of its characters is lower-cased. */
  predicate SuffixIgnoringCase(name: string, suffix: string) {
    |suffix| <= |name| && forall k :: 0 <= k < |suffix| ==> LowerChar(name[|name| - |suffix| + k]) == suffix[k]
  }

  /** `name.lower().endswith(suffix)` is the case-insensitive suffix test. */
  lemma EndsWithLowerIgnoresCase(name: string, suffix: string)
    ensures EndsWithLower(name, suffix) <==> SuffixIgnoringCase(name, suffix)
  {
    var l := Lower(name);
    if |suffix| <= |name| {
      var tail := l[|l| - |suffix|..];
      assert forall k :: 0 <= k < |suffix| ==> tail[k] == LowerChar(name[|name| - |suffix| + k]);
    }
  }

  /**
   * The branch a member takes (src/etl_tools.py:37, 88): a data file when its
   * name ends in `.dta` in any case and does not contain `__MACOSX`; a nested
   * archive when it ends in `.zip` in any case, `__MACOSX` or not; otherwise ignored.
   */
  function Classify(name: string): (k: Kind)
    ensures k == DataFile <==> SuffixIgnoringCase(name, ".dta") && !exists i: nat :: OccursAt(name, MacMetadata, i)
    ensures k == NestedArchive <==> SuffixIgnoringCase(name, ".zip")
  {
    EndsWithLowerIgnoresCase(name, ".dta");
    EndsWithLowerIgnoresCase(name, ".zip");
    assert SuffixIgnoringCase(name, ".zip") ==> !SuffixIgnoringCase(name, ".dta");
    if EndsWithLower(name, ".dta") && !Contains(name, MacMetadata) then DataFile
    else if EndsWithLower(name, ".zip") then NestedArchive
    else Ignored
  }

  /** Upper-case extensions are recognised: a Stata file... */
  lemma ClassifyUpperCaseData()
    ensures Classify("X.DTA") == DataFile
  {
    var name := "X.DTA";
    assert LowerChar(name[2]) == 'd' && LowerChar(name[3]) == 't' && LowerChar(name[4]) == 'a';
    assert SuffixIgnoringCase(name, ".dta");
    assert forall i: nat :: !OccursAt(name, MacMetadata, i);
  }

  /** ...and a nested archive. */
  lemma ClassifyUpperCaseZip()
    ensures Classify("Y.ZIP") == NestedArchive
  {
    var name := "Y.ZIP";
    assert LowerChar(name[2]) == 'z' && LowerChar(name[3]) == 'i' && LowerChar(name[4]) == 'p';
    assert SuffixIgnoringCase(name, ".zip");
  }

  /** A macOS metadata copy of a Stata file is ignored. */
  lemma ClassifyMacMetadataData()
    ensures Classify("__MACOSX/._x.dta") == Ignored
  {
    var name := "__MACOSX/._x.dta";
    assert name[0..8] == MacMetadata;
    assert OccursAt(name, MacMetadata, 0);
    assert LowerChar(name[13]) == 'd' != ".zip"[1];
    assert !SuffixIgnoringCase(name, ".zip");
  }

  /** A zip under `__MACOSX` is still descended into: that branch has no metadata test. */
  lemma ClassifyMacMetadataZip()
    ensures Classify("__MACOSX/._y.zip") == NestedArchive
  {
    var name := "__MACOSX/._y.zip";
    assert LowerChar(name[13]) == 'z' && LowerChar(name[14]) == 'i' && LowerChar(name[15]) == 'p';
    assert SuffixIgnoringCase(name, ".zip");
  }

  /** The two reader attempts (src/etl_tools.py:46-49): the narrow read, or the full read if that raised. */
  function ReadWithFallback(p: Payload): (r: Option<RawTable>)
    ensures r.Some? <==> p.narrow.Some? || p.full.Some?
    ensures p.narrow.Some? ==> r == p.narrow
    ensures p.narrow.None? ==> r == p.full
  {
    if p.narrow.Some? then p.narrow else p.full
  }

  /** A console diagnostic: `[Error] <member>: <cause>` or `ZIP Corrupto: <file>` (the cause is not modelled). */
  datatype Report = EntryFailed(member: string) | CorruptArchive(file: string)

  /** What a stretch of the walk produced: the tables written, in order, and the diagnostics printed. */
  datatype Trace = Trace(tables: seq<Table>, reports: seq<Report>) {
    function Then(next: Trace): Trace {
      Trace(tables + next.tables, reports + next.reports)
    }
  }

  const NoTrace: Trace := Trace([], [])

  /** Putting traces one after the other is associative. */
  lemma ThenAssoc(a: Trace, b: Trace, c: Trace)
    ensures a.Then(b).Then(c) == a.Then(b.Then(c))
  {
    assert (a.tables + b.tables) + c.tables == a.tables + (b.tables + c.tables);
    assert (a.reports + b.reports) + c.reports == a.reports + (b.reports + c.reports);
  }

  /** The empty trace adds nothing. */
  lemma ThenNothing(a: Trace)
    ensures a.Then(NoTrace) == a && NoTrace.Then(a) == a
  {
    assert a.tables + [] == a.tables && [] + a.tables == a.tables;
    assert a.reports + [] == a.reports && [] + a.reports == a.reports;
  }

  /**
   * One data-file member (src/etl_tools.py:38-86): read with fallback, then
   * normalize; a failure anywhere reports the member's name and writes nothing.
   */
  function EntryTrace(m: Member, p: Policy): Trace {
    var read := ReadWithFallback(m.payload);
    if read.None? then Trace([], [EntryFailed(m.name)])
    else match Normalize(read.value, p)
      case None => Trace([], [EntryFailed(m.name)])
      case Some(t) => Trace([t], [])
  }

  /**
   * A data file is reported instead of written (src/etl_tools.py:83-84) when
   * both reads raise or when two of its columns share a canonical name.
   */
  predicate EntryFails(m: Member, p: Policy) {
    var read := ReadWithFallback(m.payload);
    read.None? || !DistinctNames(Rename(read.value))
  }

  /** One data file: a failing one prints one line naming it, any other writes its normalized table and prints nothing. */
  lemma EntryTraceSpec(m: Member, p: Policy)
    ensures EntryFails(m, p) ==> EntryTrace(m, p) == Trace([], [EntryFailed(m.name)])
    ensures !EntryFails(m, p) ==>
              var raw := ReadWithFallback(m.payload).value;
              EntryTrace(m, p) == Trace([DeriveDate(CoerceTable(Rename(raw), p), p.floatText)], [])
  {
  }

  /** The `[Error]` lines a run of data files should print: one per failing file, naming it, in order. */
  function FailureLines(ms: seq<Member>, p: Policy): seq<Report> {
    if ms == [] then []
    else
      var m := ms[|ms| - 1];
      FailureLines(ms[..|ms| - 1], p) + if EntryFails(m, p) then [EntryFailed(m.name)] else []
  }

  /**
   * The walk over the first `n` members of `a`, depth first: a data file adds
   * its entry, an opened nested archive adds its whole walk at its position, a
   * nested archive that does not open and any other member add nothing.
   */
  function WalkUpTo(a: Archive, n: nat, p: Policy): Trace
    requires n <= |a.members|
    decreases a, n
  {
    if n == 0 then NoTrace
    else
      var m := a.members[n - 1];
      assert m in a.members;
      var before := WalkUpTo(a, n - 1, p);
      match Classify(m.name)
      case DataFile => before.Then(EntryTrace(m, p))
      case NestedArchive =>
        if m.payload.nested.Some? then
          var inner := m.payload.nested.value;
          before.Then(WalkUpTo(inner, |inner.members|, p))
        else before
      case Ignored => before
  }

  /** The walk of a whole archive. */
  function Walk(a: Archive, p: Policy): Trace {
    WalkUpTo(a, |a.members|, p)
  }

  /** The data-file members reached from the first `n` members of `a`, in depth-first order. */
  function DataFilesUpTo(a: Archive, n: nat): seq<Member>
    requires n <= |a.members|
    decreases a, n
  {
    if n == 0 then []
    else
      var m := a.members[n - 1];
      assert m in a.members;
      var before := DataFilesUpTo(a, n - 1);
      match Classify(m.name)
      case DataFile => before + [m]
      case NestedArchive =>
        if m.payload.nested.Some? then
          var inner := m.payload.nested.value;
          before + DataFilesUpTo(inner, |inner.members|)
        else before
      case Ignored => before
  }

  /** Each data file processed on its own, one after the other. */
  function PerEntry(ms: seq<Member>, p: Policy): Trace {
    if ms == [] then NoTrace else PerEntry(ms[..|ms| - 1], p).Then(EntryTrace(ms[|ms| - 1], p))
  }

  /** Processing two runs of data files is processing the first, then the second. */
  lemma {:induction false} PerEntryAppend(xs: seq<Member>, ys: seq<Member>, p: Policy)
    ensures PerEntry(xs + ys, p) == PerEntry(xs, p).Then(PerEntry(ys, p))
    decreases |ys|
  {
    var zs := xs + ys;
    if ys == [] {
      assert zs == xs;
      ThenNothing(PerEntry(xs, p));
    } else {
      var ys', last := ys[..|ys| - 1], ys[|ys| - 1];
      assert zs[..|zs| - 1] == xs + ys' && zs[|zs| - 1] == last;
      assert PerEntry(zs, p) == PerEntry(xs + ys', p).Then(EntryTrace(last, p));
      assert PerEntry(ys, p) == PerEntry(ys', p).Then(EntryTrace(last, p));
      PerEntryAppend(xs, ys', p);
      ThenAssoc(PerEntry(xs, p), PerEntry(ys', p), EntryTrace(last, p));
    }
  }

  /**
   * Failure isolation and order: the walk's outputs and diagnostics are those
   * of its data files taken one at a time in depth-first order, so one entry's
   * failure neither stops nor changes any other entry.
   */
  lemma {:induction false} WalkIsPerEntry(a: Archive, n: nat, p: Policy)
    requires n <= |a.members|
    ensures WalkUpTo(a, n, p) == PerEntry(DataFilesUpTo(a, n), p)
    decreases a, n
  {
    if n > 0 {
      var m := a.members[n - 1];
      assert m in a.members;
      WalkIsPerEntry(a, n - 1, p);
      var before := DataFilesUpTo(a, n - 1);
      match Classify(m.name)
      case DataFile =>
        assert (before + [m])[..|before + [m]| - 1] == before;
      case NestedArchive =>
        if m.payload.nested.Some? {
          var inner := m.payload.nested.value;
          WalkIsPerEntry(inner, |inner.members|, p);
          PerEntryAppend(before, DataFilesUpTo(inner, |inner.members|), p);
        }
      case Ignored =>
    }
  }

  /**
   * Accounting for a run of data files: the lines printed are one `[Error]`
   * per failing file, naming it, in order; every other file writes exactly one
   * table, and every written table has distinct, canonical column names.
   */
  lemma {:induction false} PerEntrySpec(ms: seq<Member>, p: Policy)
    ensures PerEntry(ms, p).reports == FailureLines(ms, p)
    ensures forall r :: r in PerEntry(ms, p).reports ==> r.EntryFailed?
    ensures |PerEntry(ms, p).tables| + |PerEntry(ms, p).reports| == |ms|
    ensures forall t :: t in PerEntry(ms, p).tables ==> DistinctNames(t) && forall c :: c in t ==> IsCanonical(c.name)
  {
    if ms != [] {
      var m := ms[|ms| - 1];
      PerEntrySpec(ms[..|ms| - 1], p);
      EntryTraceSpec(m, p);
      var read := ReadWithFallback(m.payload);
      if read.Some? {
        NormalizeSpec(read.value, p);
      }
    }
  }

  /** A nested archive that does not open adds neither outputs nor diagnostics (src/etl_tools.py:89-93). */
  lemma NestedOpenFailureSilent(a: Archive, n: nat, p: Policy)
    requires n < |a.members|
    requires Classify(a.members[n].name) == NestedArchive && a.members[n].payload.nested.None?
    ensures WalkUpTo(a, n + 1, p) == WalkUpTo(a, n, p)
  {
  }
}
