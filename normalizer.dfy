/**
 * The schema normalizer that `zips_a_parquet` applies to every table it reads
 * (src/etl_tools.py:52-77): column names are trimmed and upper-cased, columns
 * are cast by the caller's text and numeric sets, and a `FECH` column yields
 * the derived `ANIO` and `MES` columns.
 */
module Normalizer {
  import opened Wrappers
  import opened Strings
  import opened Frames

  /** A column as the Stata reader returns it: its original name and the text form of each value. */
  datatype RawColumn = RawColumn(name: string, cells: Cells)

  type RawTable = seq<RawColumn>

  /**
   * The caller's column-type policy: `cols_texto`, `cols_numero`, and polars'
   * rendering of the lossy Float64 parse of a text as a String (None when the
   * parse gives null), which is foreign floating-point code.
   */
  datatype Policy = Policy(texts: set<string>, numbers: set<string>, floatText: string -> Option<string>)

  // ---------------------------------------------------------------- renaming

  /** The canonical name of a column: `c.strip().upper()`. */
  function Canonical(name: string): string {
    Upper(Strip(name))
  }

  /** Canonical names are fixed points: renaming twice is renaming once. */
  lemma CanonicalIdempotent(name: string)
    ensures Canonical(Canonical(name)) == Canonical(name)
  {
    var s := Strip(name);
    var u := Upper(s);
    if s != [] {
      UpperCharKeepsSpace(s[0]);
      UpperCharKeepsSpace(s[|s| - 1]);
    }
    StripTrimmed(u);
    UpperIdempotent(s);
  }

  /** `pl.from_pandas(df)` followed by the `select` that renames every column to its canonical name. */
  function Rename(raw: RawTable): Table {
    seq(|raw|, i requires 0 <= i < |raw| => Column(Canonical(raw[i].name), Native(raw[i].cells)))
  }

  /** A written table read back as raw columns. */
  function AsRaw(t: Table): RawTable {
    seq(|t|, i requires 0 <= i < |t| => RawColumn(t[i].name, t[i].data.cells))
  }

  /**
   * Renaming keeps the number, order and cells of the columns, gives each its
   * canonical name, and changes nothing when applied to a renamed table.
   */
  lemma RenameSpec(raw: RawTable)
    ensures |Rename(raw)| == |raw|
    ensures forall i :: 0 <= i < |raw| ==>
              Rename(raw)[i].name == Canonical(raw[i].name) && Rename(raw)[i].data.cells == raw[i].cells
    ensures Rename(AsRaw(Rename(raw))) == Rename(raw)
  {
    var t := Rename(raw);
    forall i | 0 <= i < |raw| ensures Rename(AsRaw(t))[i] == t[i] {
      CanonicalIdempotent(raw[i].name);
    }
  }

  // ---------------------------------------------------------------- type coercion

  /** `pl.col(c).cast(pl.String)`: the text form of each cell; a Float64 cell goes through polars' rendering. */
  function TextForm(d: ColumnData, floatText: string -> Option<string>): Cells {
    match d
    case Native(cs) => cs
    case Utf8(cs) => cs
    case Float64(cs) => seq(|cs|, i requires 0 <= i < |cs| => if cs[i].Some? then floatText(cs[i].value) else None)
  }

  /** A polars string expression applied to every non-null cell; nulls stay null. */
  function MapText(cs: Cells, f: string -> string): (r: Cells)
    ensures |r| == |cs|
  {
    seq(|cs|, i requires 0 <= i < |cs| => if cs[i].Some? then Some(f(cs[i].value)) else None)
  }

  /** The cast one column receives: text if its name is in the text set, else numeric if in the numeric set. */
  function CoerceColumn(c: Column, p: Policy): Column {
    if c.name in p.texts then Column(c.name, Utf8(TextForm(c.data, p.floatText)))
    else if c.name in p.numbers then Column(c.name, Float64(MapText(TextForm(c.data, p.floatText), ReplaceFirstComma)))
    else c
  }

  /** The table after the type-cleaning loop: every column cast by the policy where it stands. */
  function CoerceTable(t: Table, p: Policy): Table {
    seq(|t|, i requires 0 <= i < |t| => CoerceColumn(t[i], p))
  }

  /**
   * The coercion policy: no column is added, removed or moved; a column in the
   * text set becomes String (also when it is in the numeric set too); a column
   * only in the numeric set becomes Float64, parsed from its text with the first
   * comma made a period; any other column is unchanged.
   */
  lemma CoercionPolicy(t: Table, p: Policy)
    ensures |CoerceTable(t, p)| == |t|
    ensures forall n :: Has(CoerceTable(t, p), n) <==> Has(t, n)
    ensures forall i :: 0 <= i < |t| ==> CoerceTable(t, p)[i].name == t[i].name
    ensures DistinctNames(t) ==> DistinctNames(CoerceTable(t, p))
    ensures forall i :: 0 <= i < |t| && t[i].name in p.texts ==>
              CoerceTable(t, p)[i].data == Utf8(TextForm(t[i].data, p.floatText))
    ensures forall i :: 0 <= i < |t| && t[i].name !in p.texts && t[i].name in p.numbers ==>
              && CoerceTable(t, p)[i].data.Float64?
              && var text := TextForm(t[i].data, p.floatText);
                 var lexemes := CoerceTable(t, p)[i].data.cells;
                 |lexemes| == |text|
                 && forall j :: 0 <= j < |text| ==>
                      (text[j].None? ==> lexemes[j].None?)
                      && (text[j].Some? ==> lexemes[j] == Some(ReplaceFirstComma(text[j].value)))
    ensures forall i :: 0 <= i < |t| && t[i].name !in p.texts && t[i].name !in p.numbers ==>
              CoerceTable(t, p)[i] == t[i]
  {
    var r := CoerceTable(t, p);
    forall n ensures Has(r, n) <==> Has(t, n) {
      IndexOfIs(r, n, IndexOf(t, n));
    }
  }

  /**
   * The type-cleaning loop (src/etl_tools.py:56-64): for each name of the
   * renamed table, the column of that name is replaced, via `with_columns`, by
   * its cast.
   */
  method CoerceColumns(t: Table, p: Policy) returns (r: Table)
    requires DistinctNames(t)
    ensures r == CoerceTable(t, p)
  {
    var columns := seq(|t|, i requires 0 <= i < |t| => t[i].name);
    r := t;
    for i := 0 to |columns|
      invariant |r| == |t|
      invariant forall k :: 0 <= k < |t| ==> r[k].name == t[k].name
      invariant forall k :: 0 <= k < i ==> r[k] == CoerceColumn(t[k], p)
      invariant forall k :: i <= k < |t| ==> r[k] == t[k]
    {
      var col := columns[i];
      assert DistinctNames(r);
      IndexOfDistinct(r, i);
      var current := Get(r, col).value;
      if col in p.texts {
        r := WithColumn(r, Column(col, Utf8(TextForm(current.data, p.floatText))));
      } else if col in p.numbers {
        r := WithColumn(r, Column(col, Float64(MapText(TextForm(current.data, p.floatText), ReplaceFirstComma))));
      }
    }
  }

  // ---------------------------------------------------------------- date derivation

  /** polars' `str.slice(offset, length)`: at most `length` characters from `offset`, fewer near the end. */
  function Slice(s: string, offset: nat, length: nat): string {
    var lo := if offset <= |s| then offset else |s|;
    var hi := if offset + length <= |s| then offset + length else |s|;
    s[lo..hi]
  }

  /** `str.pad_start(4, "0")`: the cleaned compact date code. */
  function PadCode(fech: string): string {
    PadStart(fech, 4, '0')
  }

  /** `pl.lit("20") + str.slice(0, 2)` on the cleaned code. */
  function YearOfCode(code: string): string {
    "20" + Slice(code, 0, 2)
  }

  /** `str.slice(2, 2)` on the cleaned code. */
  function MonthOfCode(code: string): string {
    Slice(code, 2, 2)
  }

  /** `n` zeros. */
  function Zeros(n: nat): (z: string)
    ensures |z| == n && forall k :: 0 <= k < n ==> z[k] == '0'
  {
    seq(n, _ => '0')
  }

  /**
   * `ANIO` and `MES` for one `FECH` text: `ANIO` is four characters starting with
   * "20", `MES` two, and together their last four characters are the code
   * left-padded with zeros (a code longer than four keeps only its first four).
   */
  function CompactDate(fech: string): (r: (string, string))
    ensures |r.0| == 4 && r.0[..2] == "20" && |r.1| == 2
    ensures |fech| <= 4 ==> r.0[2..] + r.1 == Zeros(4 - |fech|) + fech
    ensures |fech| >= 4 ==> r.0[2..] + r.1 == fech[..4]
  {
    var code := PadCode(fech);
    var r := (YearOfCode(code), MonthOfCode(code));
    assert r.0[2..] + r.1 == code[..4];
    assert |fech| <= 4 ==> code == Zeros(4 - |fech|) + fech;
    r
  }

  /** The year derived from one `FECH` text. */
  function YearOf(fech: string): string {
    CompactDate(fech).0
  }

  /** The month derived from one `FECH` text. */
  function MonthOf(fech: string): string {
    CompactDate(fech).1
  }

  /** The worked examples: the comment at src/etl_tools.py:70, a four-digit code, and a code already padded. */
  lemma CompactDateExamples()
    ensures CompactDate("509") == ("2005", "09")
    ensures CompactDate("2109") == ("2021", "09")
    ensures CompactDate("0312") == ("2003", "12")
  {
    assert PadStart("509", 4, '0') == "0509";
    assert PadCode("509") == "0509";
    assert YearOfCode("0509") == "2005" && MonthOfCode("0509") == "09";
    assert CompactDate("509") == (YearOfCode("0509"), MonthOfCode("0509"));
    assert PadCode("2109") == "2109";
    assert YearOfCode("2109") == "2021" && MonthOfCode("2109") == "09";
    assert CompactDate("2109") == (YearOfCode("2109"), MonthOfCode("2109"));
    assert PadCode("0312") == "0312";
    assert YearOfCode("0312") == "2003" && MonthOfCode("0312") == "12";
    assert CompactDate("0312") == (YearOfCode("0312"), MonthOfCode("0312"));
  }

  /**
   * The chain of src/etl_tools.py:69-77 for the cleaned codes `clean`: add
   * `FECH_CLEAN`, then `ANIO` and `MES` computed from it, then drop `FECH_CLEAN`.
   */
  function DateColumns(t: Table, clean: Cells): Table {
    var t1 := WithColumn(t, Column("FECH_CLEAN", Utf8(clean)));
    var t2 := WithColumn(t1, Column("ANIO", Utf8(MapText(clean, YearOfCode))));
    var t3 := WithColumn(t2, Column("MES", Utf8(MapText(clean, MonthOfCode))));
    Drop(t3, "FECH_CLEAN")
  }

  /** What the chain does to the columns a name finds. */
  lemma DateColumnsLookup(t: Table, clean: Cells)
    ensures var r := DateColumns(t, clean);
            && !Has(r, "FECH_CLEAN")
            && Get(r, "ANIO") == Some(Column("ANIO", Utf8(MapText(clean, YearOfCode))))
            && Get(r, "MES") == Some(Column("MES", Utf8(MapText(clean, MonthOfCode))))
            && forall n :: n != "FECH_CLEAN" && n != "ANIO" && n != "MES" ==> Get(r, n) == Get(t, n)
  {
    var t1 := WithColumn(t, Column("FECH_CLEAN", Utf8(clean)));
    var t2 := WithColumn(t1, Column("ANIO", Utf8(MapText(clean, YearOfCode))));
    var t3 := WithColumn(t2, Column("MES", Utf8(MapText(clean, MonthOfCode))));
    assert DateColumns(t, clean) == Drop(t3, "FECH_CLEAN");
  }

  /**
   * On a table without `ANIO`, `MES` and `FECH_CLEAN`, the chain appends `ANIO`
   * and then `MES` at the end and leaves every other column where it was.
   */
  lemma DateColumnsAppend(t: Table, clean: Cells)
    requires !Has(t, "ANIO") && !Has(t, "MES") && !Has(t, "FECH_CLEAN")
    ensures DateColumns(t, clean) ==
              t + [Column("ANIO", Utf8(MapText(clean, YearOfCode))), Column("MES", Utf8(MapText(clean, MonthOfCode)))]
  {
    var c1 := Column("FECH_CLEAN", Utf8(clean));
    var c2 := Column("ANIO", Utf8(MapText(clean, YearOfCode)));
    var c3 := Column("MES", Utf8(MapText(clean, MonthOfCode)));
    var t3 := WithColumn(WithColumn(WithColumn(t, c1), c2), c3);
    ThreeAppends(t, c1, c2, c3);
    DropAppendAbsent(t, [c1, c2, c3], "FECH_CLEAN");
    KeptFront(c1, c2, c3, "FECH_CLEAN");
    assert DateColumns(t, clean) == Drop(t3, "FECH_CLEAN");
  }

  /** Three `with_columns` with names the frame lacks, all different, append the three columns in order. */
  lemma ThreeAppends(t: Table, c1: Column, c2: Column, c3: Column)
    requires !Has(t, c1.name) && !Has(t, c2.name) && !Has(t, c3.name)
    requires c1.name != c2.name && c1.name != c3.name && c2.name != c3.name
    ensures WithColumn(WithColumn(WithColumn(t, c1), c2), c3) == t + [c1, c2, c3]
  {
    var t1 := WithColumn(t, c1);
    WithColumnAppends(t, c1);
    assert Get(t1, c2.name) == Get(t, c2.name);
    var t2 := WithColumn(t1, c2);
    WithColumnAppends(t1, c2);
    assert Get(t2, c3.name) == Get(t1, c3.name) == Get(t, c3.name);
    WithColumnAppends(t2, c3);
  }

  /** Dropping the first of three columns, when only it has that name. */
  lemma KeptFront(c1: Column, c2: Column, c3: Column, name: string)
    requires c1.name == name && c2.name != name && c3.name != name
    ensures Kept([c1, c2, c3], name) == [c2, c3]
  {
    assert [c1, c2, c3][1..] == [c2, c3] && [c2, c3][1..] == [c3] && [c3][1..] == [];
    assert Kept([c3], name) == [c3] + Kept([], name);
  }

  /** The chain keeps names distinct and adds no column but `ANIO` and `MES`. */
  lemma DateColumnsMembers(t: Table, clean: Cells)
    requires DistinctNames(t)
    ensures DistinctNames(DateColumns(t, clean))
    ensures forall c :: c in DateColumns(t, clean) ==> c in t || c.name == "ANIO" || c.name == "MES"
  {
    var t1 := WithColumn(t, Column("FECH_CLEAN", Utf8(clean)));
    var t2 := WithColumn(t1, Column("ANIO", Utf8(MapText(clean, YearOfCode))));
    var t3 := WithColumn(t2, Column("MES", Utf8(MapText(clean, MonthOfCode))));
    var r := Drop(t3, "FECH_CLEAN");
    assert DateColumns(t, clean) == r;
    assert !Has(r, "FECH_CLEAN");
    forall c | c in r ensures c in t || c.name == "ANIO" || c.name == "MES" {
      var j :| 0 <= j < |r| && r[j] == c;
      assert r[j].name != "FECH_CLEAN";
      assert c in t3;
      assert c in t2 || c.name == "MES";
      assert c in t1 || c.name == "ANIO" || c.name == "MES";
    }
  }

  /**
   * Step 4 (src/etl_tools.py:68-77): when the table has a `FECH` column, its
   * text form padded to four characters gives `ANIO` and `MES`.
   */
  function DeriveDate(t: Table, floatText: string -> Option<string>): Table {
    var k := IndexOf(t, "FECH");
    if k < 0 then t
    else DateColumns(t, MapText(TextForm(t[k].data, floatText), PadCode))
  }

  /**
   * Without `FECH` the table is unchanged. With it, `FECH` itself is kept,
   * `FECH_CLEAN` is gone, `ANIO` and `MES` hold the derived year and month of
   * each row (null where `FECH` is null), and every other column is as before.
   */
  lemma DeriveDateSpec(t: Table, floatText: string -> Option<string>)
    requires DistinctNames(t)
    ensures DistinctNames(DeriveDate(t, floatText))
    ensures forall c :: c in DeriveDate(t, floatText) ==> c in t || c.name == "ANIO" || c.name == "MES"
    ensures !Has(t, "FECH") ==> DeriveDate(t, floatText) == t
    ensures Has(t, "FECH") ==>
              var r := DeriveDate(t, floatText);
              var fech := TextForm(Get(t, "FECH").value.data, floatText);
              && !Has(r, "FECH_CLEAN")
              && Get(r, "FECH") == Get(t, "FECH")
              && Get(r, "ANIO") == Some(Column("ANIO", Utf8(MapText(fech, YearOf))))
              && Get(r, "MES") == Some(Column("MES", Utf8(MapText(fech, MonthOf))))
              && (forall n :: n != "FECH_CLEAN" && n != "ANIO" && n != "MES" ==> Get(r, n) == Get(t, n))
              && (!Has(t, "ANIO") && !Has(t, "MES") && !Has(t, "FECH_CLEAN") ==>
                    r == t + [Column("ANIO", Utf8(MapText(fech, YearOf))), Column("MES", Utf8(MapText(fech, MonthOf)))])
  {
    var k := IndexOf(t, "FECH");
    if k >= 0 {
      var fech := TextForm(t[k].data, floatText);
      var clean := MapText(fech, PadCode);
      assert DeriveDate(t, floatText) == DateColumns(t, clean);
      DateColumnsLookup(t, clean);
      DerivedCells(fech);
      if !Has(t, "ANIO") && !Has(t, "MES") && !Has(t, "FECH_CLEAN") {
        DateColumnsAppend(t, clean);
      }
    }
    DeriveDateMembers(t, floatText);
  }

  /** The first two facts of `DeriveDateSpec`: names stay distinct and only `ANIO` and `MES` are new. */
  lemma DeriveDateMembers(t: Table, floatText: string -> Option<string>)
    requires DistinctNames(t)
    ensures DistinctNames(DeriveDate(t, floatText))
    ensures forall c :: c in DeriveDate(t, floatText) ==> c in t || c.name == "ANIO" || c.name == "MES"
  {
    var k := IndexOf(t, "FECH");
    if k >= 0 {
      DateColumnsMembers(t, MapText(TextForm(t[k].data, floatText), PadCode));
    }
  }

  /** Year and month of the padded codes are year and month of the raw texts. */
  lemma DerivedCells(fech: Cells)
    ensures MapText(MapText(fech, PadCode), YearOfCode) == MapText(fech, YearOf)
    ensures MapText(MapText(fech, PadCode), MonthOfCode) == MapText(fech, MonthOf)
  {
    var clean := MapText(fech, PadCode);
    forall i | 0 <= i < |fech|
      ensures MapText(clean, YearOfCode)[i] == MapText(fech, YearOf)[i]
      ensures MapText(clean, MonthOfCode)[i] == MapText(fech, MonthOf)[i]
    {
      if fech[i].Some? {
        assert clean[i] == Some(PadCode(fech[i].value));
        assert YearOf(fech[i].value) == YearOfCode(PadCode(fech[i].value));
        assert MonthOf(fech[i].value) == MonthOfCode(PadCode(fech[i].value));
      }
    }
  }

  // ---------------------------------------------------------------- the whole normalizer

  /**
   * Steps 2-4 on one table read from a Stata file. `None` when two columns
   * have the same canonical name: polars refuses the renaming `select`, and the
   * entry fails like a read failure.
   */
  function Normalize(raw: RawTable, p: Policy): Option<Table> {
    var t := Rename(raw);
    if DistinctNames(t) then Some(DeriveDate(CoerceTable(t, p), p.floatText)) else None
  }

  /** The name is its own canonical name. */
  predicate IsCanonical(name: string) {
    Canonical(name) == name
  }

  /** Renaming succeeds exactly when no two columns share a canonical name. */
  lemma RenameDistinct(raw: RawTable)
    ensures DistinctNames(Rename(raw)) <==>
              forall i, j :: 0 <= i < j < |raw| ==> Canonical(raw[i].name) != Canonical(raw[j].name)
  {
    RenameSpec(raw);
  }

  /** A name of capital ASCII letters is canonical. */
  lemma CapitalsCanonical(name: string)
    requires forall k :: 0 <= k < |name| ==> 'A' <= name[k] <= 'Z'
    ensures IsCanonical(name)
  {
    StripTrimmed(name);
    forall i | 0 <= i < |name| ensures Upper(name)[i] == name[i] {
    }
  }

  /** The two columns `DeriveDate` can add have canonical names. */
  lemma DerivedNamesCanonical()
    ensures IsCanonical("ANIO") && IsCanonical("MES")
  {
    CapitalsCanonical("ANIO");
    CapitalsCanonical("MES");
  }

  /**
   * A table normalizes exactly when no two of its columns share a canonical
   * name; then the result has distinct canonical column names, never
   * `FECH_CLEAN` when `FECH` was present, and `ANIO` and `MES` whenever `FECH` was.
   */
  lemma NormalizeSpec(raw: RawTable, p: Policy)
    ensures Normalize(raw, p).Some? <==>
              forall i, j :: 0 <= i < j < |raw| ==> Canonical(raw[i].name) != Canonical(raw[j].name)
    ensures Normalize(raw, p).Some? ==>
              var t := Normalize(raw, p).value;
              && DistinctNames(t)
              && (forall c :: c in t ==> IsCanonical(c.name))
              && (Has(Rename(raw), "FECH") <==> Has(t, "ANIO") && Has(t, "MES") && Has(t, "FECH") && !Has(t, "FECH_CLEAN"))
  {
    var t0 := Rename(raw);
    RenameDistinct(raw);
    if DistinctNames(t0) {
      NormalizedTable(raw, p);
    }
  }

  /** The facts of `NormalizeSpec` about a table whose renaming succeeded. */
  lemma NormalizedTable(raw: RawTable, p: Policy)
    requires DistinctNames(Rename(raw))
    ensures var t := DeriveDate(CoerceTable(Rename(raw), p), p.floatText);
              && DistinctNames(t)
              && (forall c :: c in t ==> IsCanonical(c.name))
              && (Has(Rename(raw), "FECH") <==> Has(t, "ANIO") && Has(t, "MES") && Has(t, "FECH") && !Has(t, "FECH_CLEAN"))
  {
    var t1 := CoerceTable(Rename(raw), p);
    CoercionPolicy(Rename(raw), p);
    DeriveDateSpec(t1, p.floatText);
    NormalizedCanonical(raw, p);
    NormalizedDate(raw, p);
  }

  /** Every column of the normalized table has a canonical name. */
  lemma NormalizedCanonical(raw: RawTable, p: Policy)
    requires DistinctNames(CoerceTable(Rename(raw), p))
    ensures forall c :: c in DeriveDate(CoerceTable(Rename(raw), p), p.floatText) ==> IsCanonical(c.name)
  {
    var t1 := CoerceTable(Rename(raw), p);
    DeriveDateMembers(t1, p.floatText);
    CoercedCanonical(raw, p);
    DerivedNamesCanonical();
    forall c | c in DeriveDate(t1, p.floatText) ensures IsCanonical(c.name) {
      if c in t1 {
        var i :| 0 <= i < |t1| && t1[i] == c;
        assert IsCanonical(t1[i].name);
      } else {
        assert c.name == "ANIO" || c.name == "MES";
      }
    }
  }

  /** The date columns are there exactly when the renamed table had `FECH`. */
  lemma NormalizedDate(raw: RawTable, p: Policy)
    requires DistinctNames(Rename(raw))
    ensures var t := DeriveDate(CoerceTable(Rename(raw), p), p.floatText);
            Has(Rename(raw), "FECH") <==> Has(t, "ANIO") && Has(t, "MES") && Has(t, "FECH") && !Has(t, "FECH_CLEAN")
  {
    var t1 := CoerceTable(Rename(raw), p);
    CoercionPolicy(Rename(raw), p);
    assert Has(t1, "FECH") == Has(Rename(raw), "FECH");
    DeriveDateSpec(t1, p.floatText);
    var t := DeriveDate(t1, p.floatText);
    if Has(t1, "FECH") {
      assert Get(t, "ANIO").Some? && Get(t, "MES").Some? && Get(t, "FECH").Some?;
    } else {
      assert t == t1;
    }
  }

  /** Coercion keeps the canonical names the renaming gave. */
  lemma CoercedCanonical(raw: RawTable, p: Policy)
    ensures forall i :: 0 <= i < |CoerceTable(Rename(raw), p)| ==> IsCanonical(CoerceTable(Rename(raw), p)[i].name)
  {
    var t1 := CoerceTable(Rename(raw), p);
    forall i | 0 <= i < |t1| ensures IsCanonical(t1[i].name) {
      assert t1[i].name == Canonical(raw[i].name);
      CanonicalIdempotent(raw[i].name);
    }
  }
}
