# Stata-in-zip to Parquet converter, modelled in Dafny

This project models `zips_a_parquet` in `src/etl_tools.py` and the
`procesar_interno` function nested inside it. The converter works as follows:

- It walks every top-level `.zip` file of a source directory.
- It descends depth-first into nested zips.
- It reads every Stata `.dta` member, with the full read as the fallback.
- It normalizes the resulting table:
  - it renames columns with `strip().upper()`;
  - it casts text or numeric columns, rewriting the first comma of a numeric value to a period;
  - it derives `ANIO`/`MES` from a `YYMM` code in `FECH`.
- It writes the table as `data_<n>.parquet`, where `n` is a counter that advances only after a write.
- It prints a diagnostic line for each member that fails and for each top-level zip that is corrupt.

The modules follow that structure:

- `wrappers.dfy` (`Wrappers`): `Option`.
- `strings.dfy` (`Strings`): the Python string operations involved.
  - `str.strip` uses the full `str.isspace` set.
  - `str.upper` is modelled on ASCII and Latin-1.
  - `str.lower` is modelled on ASCII.
  - Also here: `endswith`, `in`, the decimal rendering of the counter, polars' first-match `str.replace(",", ".")` and `str.pad_start`.
- `frames.dfy` (`Frames`): a polars frame as an ordered list of named columns.
  - Looking a column up by name.
  - `with_columns`, which replaces a column where it stands or appends it.
  - `drop`.
- `normalizer.dfy` (`Normalizer`): steps 2–4 of one table.
  - Renaming. This fails when two columns get the same name, which is polars' `DuplicateError`.
  - The coercion policy as a function.
  - The per-column loop as a method proved equal to that function.
  - The date derivation.
  - `Normalize` as a whole.
- `archives.dfy` (`Archives`): an archive as a tree of members.
  - Member classification.
  - The walk as a specification function (`WalkUpTo`).
  - Its decomposition into independent per-file steps.
- `batch.dfy` (`Batch`): the run as a specification function (`RunUpTo`).
  - The class `Converter` holds the state the source mutates: `contador` as `counter`, the files written, and the diagnostic log.
  - Its methods are the loops of the source. Each is proved to produce exactly what the specification functions say.
  - `ZipsToParquet` is the whole call.

The foreign libraries become data:

- A member's `Payload` holds three outcomes: what the narrow Stata read returns, what the full read returns, and what opening the bytes as a zip returns. Each is `None` when the call raises.
- A top-level file `SourceFile` either opens as an archive, raises `BadZipFile`, or raises something else (`OpenError`).
- A cell is its text form (`Option<string>`, with `None` for null). For a column the Stata reader gives a non-string type, that is the text polars' `cast(pl.String)` produces for the column's own type: `509` for an integer column, `509.0` for a float column.
- A Float64 cell keeps the lexeme it is parsed from. The parse itself is not modelled.
- The policy carries the text and numeric column sets. It also carries `floatText`, the text polars prints for a Float64 cell. That text is needed when `FECH` was made numeric and is then cast back to String.

### Behaviour worth noting

- **Comma rewrite.** Only the *first* comma of a numeric value becomes a period, because polars' `str.replace` replaces one match by default. `"1,234"` is parsed from `"1.234"`, and `"1,234,5"` from `"1.234,5"`.
- **Date codes.** `FECH` is read as `YYMM` after left-padding to four characters, as the comments at src/etl_tools.py:70 and :73 describe. So `"509"` pads to `"0509"` and gives `ANIO = "2005"`, `MES = "09"`, and `"2109"` gives `"2021"`, `"09"`. `Normalizer.CompactDateExamples` proves these. A `FECH` column of floats renders `509` as `"509.0"`, which is already longer than four characters. It is left unpadded and gives `ANIO = "2050"`, `MES = "9."`. The model computes this too, `CompactDate` on a text of four or more characters taking its first four.
- **Diagnostics.** Error lines name only the member (`archivo`, line 84). The `ruta_padre` argument threaded through line 92 never reaches a printed line.
- **Run-ending open errors.** Only `zipfile.BadZipFile` is caught around the top-level open (line 97). Any other exception while opening a top-level `.zip`, for example on a directory named `x.zip`, leaves `zips_a_parquet`. The final count line (line 100) is then not printed.

## Model

| member | source | states |
|---|---|---|
| Strings.Strip | src/etl_tools.py:53 | the result has no whitespace (Python's `isspace` set) at either end, and is a contiguous part of the input with only whitespace before and after it |
| Strings.StripTrimmed | src/etl_tools.py:53 | a string without whitespace at either end is its own `strip()` |
| Strings.UpperIdempotent | src/etl_tools.py:53 | `upper()` applied twice equals `upper()` applied once |
| Strings.Contains | src/etl_tools.py:37 | `sub in s` holds exactly when `sub` occurs in `s` at some position |
| Strings.Decimal | src/etl_tools.py:80 | the counter's decimal text is non-empty, all digits, spells the counter's value, has no leading zero, and is one character exactly when the number is below 10 |
| Strings.DecimalInjective | src/etl_tools.py:80 | different counter values have different decimal texts |
| Strings.IsSpace | src/etl_tools.py:53 | definition: the code points `str.isspace()` accepts, which `strip()` removes |
| Strings.Upper | src/etl_tools.py:53 | definition: `str.upper()` character by character |
| Strings.Lower | src/etl_tools.py:37 | definition: `str.lower()` character by character |
| Strings.EndsWith | src/etl_tools.py:26 | definition: `str.endswith` |
| Strings.EndsWithLower | src/etl_tools.py:26 | definition: `name.lower().endswith(suffix)` |
| Strings.ReplaceFirstComma | src/etl_tools.py:62 | same length as the input; the first comma, if any, becomes `.` and every other character is unchanged |
| Strings.PadStart | src/etl_tools.py:71 | the result has length `max(width, |s|)`, ends with `s`, and everything before `s` is the fill character |
| Frames.Has | src/etl_tools.py:68 | definition: `name in df.columns` |
| Frames.Get | src/etl_tools.py:58 | definition: `pl.col(name)`, the column of that name if any |
| Frames.IndexOf | src/etl_tools.py:68 | the position found holds the name and no earlier column does; `-1` exactly when no column has the name |
| Frames.WithColumn | src/etl_tools.py:69-76 | the new column replaces the column of its name where it stands, or is appended at the end when there is none; every other column keeps its position; every other name finds what it found before; distinct names stay distinct; no column appears but the old ones and the new one |
| Frames.WithColumnAppends | src/etl_tools.py:69-76 | `with_columns` with a name the frame lacks appends the column at the end |
| Frames.Kept | src/etl_tools.py:77 | definition: the columns not called `name`, in their order |
| Frames.KeptLookup | src/etl_tools.py:77 | after filtering, the name finds nothing and every other name finds what it found before |
| Frames.KeptMembers | src/etl_tools.py:77 | filtering adds no column, does not grow the frame, and keeps names distinct |
| Frames.Drop | src/etl_tools.py:77 | the result is the frame with the columns of that name filtered out, the others in order; the name no longer occurs; every other name finds what it found before; distinct names stay distinct; no column is added |
| Frames.DropAppendAbsent | src/etl_tools.py:77 | dropping a name the front part of a frame lacks keeps that part unchanged and drops only from the rest |
| Normalizer.Canonical | src/etl_tools.py:53 | definition: `c.strip().upper()` |
| Normalizer.Rename | src/etl_tools.py:52-53 | definition: the renaming `select`, column by column |
| Normalizer.CanonicalIdempotent | src/etl_tools.py:53 | `strip().upper()` of a canonical name is that name |
| Normalizer.RenameSpec | src/etl_tools.py:52-53 | renaming keeps the number, order and cells of the columns, gives each column its canonical name, and changes nothing when applied to a renamed table |
| Normalizer.RenameDistinct | src/etl_tools.py:53 | the renaming `select` succeeds exactly when no two columns share a canonical name |
| Normalizer.TextForm | src/etl_tools.py:61 | definition: `cast(pl.String)` of a column; a Float64 column's cells go through polars' rendering (`floatText`) |
| Normalizer.MapText | src/etl_tools.py:71-76 | a polars string expression applied to every cell, nulls staying null; the result has one cell per input cell |
| Normalizer.CoerceColumn | src/etl_tools.py:57-64 | definition: the cast one column receives, text before numeric |
| Normalizer.CoerceTable | src/etl_tools.py:56-64 | definition: every column given its cast, in place |
| Normalizer.CoercionPolicy | src/etl_tools.py:56-64 | no column is added, removed, moved or renamed; a column in the text set becomes String even when it is also in the numeric set; a column only in the numeric set becomes Float64 parsed from its text with the first comma made `.`, nulls staying null; every other column is unchanged |
| Normalizer.CoerceColumns | src/etl_tools.py:56-64 | the loop over the column names, rebinding the frame through `with_columns`, yields exactly the table the coercion policy describes |
| Normalizer.Slice | src/etl_tools.py:74-76 | definition: polars `str.slice(offset, length)`, clamped to the string |
| Normalizer.PadCode | src/etl_tools.py:71 | definition: `pad_start(4, "0")` |
| Normalizer.YearOfCode | src/etl_tools.py:74 | definition: `"20"` followed by the code's first two characters |
| Normalizer.MonthOfCode | src/etl_tools.py:76 | definition: the code's third and fourth characters |
| Normalizer.CompactDate | src/etl_tools.py:71-76 | `ANIO` has four characters starting with `20`, `MES` has two; for a code of at most four characters, `ANIO[2..] + MES` is the code left-padded with zeros to four; for a longer code it is the code's first four characters |
| Normalizer.CompactDateExamples | src/etl_tools.py:70-76 | `"509"` gives `("2005", "09")`, `"2109"` gives `("2021", "09")`, `"0312"` gives `("2003", "12")` |
| Normalizer.DerivedCells | src/etl_tools.py:71-76 | year and month of the padded `FECH_CLEAN` cells are year and month of each `FECH` cell, and null where `FECH` is null |
| Normalizer.DateColumns | src/etl_tools.py:69-77 | definition: the `with_columns` chain and the `drop` of `FECH_CLEAN` |
| Normalizer.DeriveDate | src/etl_tools.py:68-77 | definition: step 4, applied only when `FECH` is present |
| Normalizer.DateColumnsLookup | src/etl_tools.py:69-77 | after the chain, `FECH_CLEAN` is absent, `ANIO` and `MES` hold the values derived from the cleaned codes, and every other name finds what it found before |
| Normalizer.DateColumnsAppend | src/etl_tools.py:69-77 | on a table without `ANIO`, `MES` and `FECH_CLEAN`, the chain appends `ANIO` and then `MES` at the end and leaves every other column in place |
| Normalizer.ThreeAppends | src/etl_tools.py:69-76 | three `with_columns` with new, distinct names append the three columns in order |
| Normalizer.KeptFront | src/etl_tools.py:77 | dropping `FECH_CLEAN` from the three appended columns leaves `ANIO` and `MES` |
| Normalizer.DateColumnsMembers | src/etl_tools.py:69-77 | the chain keeps names distinct and adds no column except `ANIO` and `MES` |
| Normalizer.DeriveDateSpec | src/etl_tools.py:68-77 | without `FECH` the table is unchanged; with it, `FECH` is kept, `FECH_CLEAN` never remains, `ANIO`/`MES` are the year/month of `FECH`'s text form after coercion, every other column is unchanged, and names stay distinct; when the table had none of `ANIO`, `MES` and `FECH_CLEAN`, the result is the table with `ANIO` and then `MES` appended at the end |
| Normalizer.DeriveDateMembers | src/etl_tools.py:68-77 | the date step keeps names distinct and adds no column except `ANIO` and `MES` |
| Normalizer.DerivedNamesCanonical | src/etl_tools.py:74-76 | `ANIO` and `MES` are canonical names |
| Normalizer.CoercedCanonical | src/etl_tools.py:53-64 | every column name after renaming and coercion is canonical |
| Normalizer.Normalize | src/etl_tools.py:52-77 | definition: rename, then coerce and derive the date, failing on a duplicate canonical name |
| Normalizer.NormalizeSpec | src/etl_tools.py:52-77 | a table normalizes exactly when no two columns share a canonical name; then its names are distinct and canonical, and `ANIO`, `MES` and `FECH` are present without `FECH_CLEAN` exactly when the renamed table had `FECH` |
| Normalizer.NormalizedTable | src/etl_tools.py:52-77 | the same three facts for a table whose renaming succeeded |
| Normalizer.NormalizedCanonical | src/etl_tools.py:52-77 | every column of a normalized table has a canonical name |
| Normalizer.NormalizedDate | src/etl_tools.py:66-77 | the date columns are present, and `FECH_CLEAN` absent, exactly when the renamed table had `FECH` |
| Archives.EndsWithLowerIgnoresCase | src/etl_tools.py:37 | `name.lower().endswith(suffix)` equals the suffix comparison on lower-cased characters |
| Archives.Classify | src/etl_tools.py:37-88 | a member is a data file exactly when its name ends in `.dta` in any case and does not contain `__MACOSX`; it is a nested archive exactly when its name ends in `.zip` in any case, with no `__MACOSX` test; any other member is ignored |
| Archives.ClassifyUpperCaseData | src/etl_tools.py:37 | `X.DTA` is a data file |
| Archives.ClassifyUpperCaseZip | src/etl_tools.py:88 | `Y.ZIP` is a nested archive |
| Archives.ClassifyMacMetadataData | src/etl_tools.py:37 | `__MACOSX/._x.dta` is ignored |
| Archives.ClassifyMacMetadataZip | src/etl_tools.py:88 | `__MACOSX/._y.zip` is still descended into |
| Archives.ReadWithFallback | src/etl_tools.py:46-49 | the narrow read's table when it succeeds, otherwise the full read's outcome; a table is read exactly when one of the two attempts succeeds |
| Archives.PerEntryAppend | src/etl_tools.py:36-93 | processing two runs of data files is processing the first, then the second |
| Archives.WalkIsPerEntry | src/etl_tools.py:36-93 | the walk's tables and diagnostics are those of the data files it reaches, processed one at a time in depth-first member order; no entry's failure affects another |
| Archives.EntryFails | src/etl_tools.py:46-84 | definition: a data file fails when both reads raise or its renaming `select` finds two equal canonical names |
| Archives.EntryTrace | src/etl_tools.py:38-86 | definition: one data file's written tables and printed lines |
| Archives.EntryTraceSpec | src/etl_tools.py:38-86 | a failing data file prints one `[Error]` line naming it and writes nothing; any other file writes its renamed, coerced, date-derived table and prints nothing |
| Archives.FailureLines | src/etl_tools.py:83-84 | definition: one `[Error]` line per failing file of a sequence, naming it, in order |
| Archives.PerEntrySpec | src/etl_tools.py:38-86 | the lines printed for a run of data files are exactly one `[Error]` per failing file, naming it, in order; every other file writes exactly one table; every written table has distinct, canonical column names |
| Archives.WalkUpTo | src/etl_tools.py:36-93 | definition: the walk over an archive's first `n` members, depth first, a nested archive's walk placed at its member's position |
| Archives.Walk | src/etl_tools.py:33-95 | definition: the walk of a whole archive |
| Archives.NestedOpenFailureSilent | src/etl_tools.py:88-93 | a nested archive that does not open adds no table and no line |
| Batch.UnitName | src/etl_tools.py:80 | definition: `f"data_{contador}.parquet"` |
| Batch.UnitNameInjective | src/etl_tools.py:80 | different counter values give different file names |
| Batch.Numbered | src/etl_tools.py:80-81 | the `i`-th table written is the file `data_<i>.parquet`, and all names are distinct |
| Batch.RunUpTo | src/etl_tools.py:25-98 | definition: the run over the first `n` directory entries and whether it is still going |
| Batch.Aborts | src/etl_tools.py:30-97 | definition: a top-level `.zip` whose open raises something other than `BadZipFile`, which leaves the function |
| Batch.RunCompletes | src/etl_tools.py:25-98 | the run gets through the first `n` entries exactly when none of them is a `.zip` that raises something other than `BadZipFile` |
| Batch.StoppedRunIsFinal | src/etl_tools.py:25-98 | once the run has stopped, later entries change nothing |
| Batch.TopLevelEntry | src/etl_tools.py:26-98 | during a live run, an entry without the `.zip` suffix changes nothing, and a `BadZipFile` adds one `ZIP Corrupto` line and no table while the run goes on |
| Batch.RunOutputs | src/etl_tools.py:25-95 | the tables written are exactly those of the data files reached in the opened archives before the first abort, each processed on its own, in order |
| Batch.OpenedArchiveTables | src/etl_tools.py:31-95 | after an archive that opens is walked, the tables are the earlier data files' tables followed by those of its own data files, nested archives included, in order |
| Batch.RunCorruptReports | src/etl_tools.py:88-98 | the `ZIP Corrupto` lines name exactly the top-level `.zip` entries that raise `BadZipFile` before the first abort, in order; nested failures print none |
| Batch.Converter.constructor | src/etl_tools.py:18-22 | the destination starts empty, the counter at 0 and the log empty |
| Batch.Converter.Write | src/etl_tools.py:80-81 | the table is written under `data_<counter>` and the counter advances by one; the destination still holds exactly `data_0` to `data_<counter - 1>` |
| Batch.Converter.ProcessDataFile | src/etl_tools.py:38-86 | one data file appends to the destination and the log exactly what `EntryTrace` says: one table on success, otherwise one `[Error]` line and no write |
| Batch.Converter.ProcessArchive | src/etl_tools.py:33-95 | the recursive member loop appends exactly the walk's tables and lines, keeping the counter equal to the number of files written |
| Batch.Converter.Run | src/etl_tools.py:25-98 | the directory loop appends exactly the run's tables and lines, and reports whether the run finished |
| Batch.ZipsToParquet | src/etl_tools.py:11-100 | the written files are the run's tables numbered from `data_0`; the log is the run's diagnostics; the final count is printed, and equals the number of files, exactly when no entry aborted the run |

## Left out

- Stata decoding (`pyreadstat.read_dta`), zip decompression (`zipfile`, `io.BytesIO`) and reading a member's bytes are foreign library calls. They are given as the outcomes in a `Payload` or `SourceFile`. A failure to read a member's bytes fails every outcome for that member.
- Which columns the narrow read returns is not modelled. `columnas_necesarias` only parameterizes that foreign call.
- Parsing a Float64 value is floating-point numerics. A numeric cell keeps the lexeme it would be parsed from, and an unparsable lexeme is not turned into null.
- The text polars prints for a Float64 cast back to String is foreign formatting. It is the policy's `floatText` parameter.
- Failures of `pl.from_pandas`, of a `cast`, and of `write_parquet` are not modelled; each is assumed to succeed. Any of them would be caught at line 83 like a read failure. The only normalization failure modelled is the duplicate-name `select`.
- Filesystem and console effects are not modelled:
  - temporary files and their removal (lines 39-43, 85-86);
  - `rmtree`/`makedirs` on the destination and their failure;
  - `os.listdir`, whose listing is the `sources` parameter;
  - progress lines;
  - the exception text in `[Error]` lines;
  - the destination path in the final line.
- Archives are finite trees, and the model has no recursion limit. Python adds one `procesar_interno` frame per nesting level (line 92). Past its recursion limit, or for a zip that contains itself, it raises `RecursionError`. That error is swallowed by the bare `except:` at line 93 when it comes from a nested open, and becomes an `[Error]` line through line 83 when it comes from a data file. The inductive `Archive` datatype cannot express either case.
- Exceptions that are not `Exception`, such as `KeyboardInterrupt` escaping the per-file `except Exception`, are not modelled.
- Strings.Upper: covers ASCII and Latin-1 only. Python's full Unicode case mapping is not modelled, including `ß` becoming `SS`.
- Strings.LowerChar: lower-cases ASCII only. That is exact for the `.dta` and `.zip` suffix tests: the only non-ASCII characters whose lower case contains an ASCII letter are the Kelvin sign, which gives `k`, and `İ`, which gives `i` followed by a combining dot.
- Each table is written by value into a sequence of `Unit`s; the Parquet encoding is not modelled.
- `src/viz_tools.py` (chart construction) is not part of this model.
