# RadioReference-to-SDRUno conversion core, in Dafny

`radio_ref_to_sdruno.py` converts a frequency table exported from
radioreference.com (CSV with a header row) into the 9-column memory file of
the SDRuno receiver application. Its `convert_file` reads each input row,
standardises its `Mode` field, keeps only the rows whose standard mode is in
the fixed list `ALLOWED_MODULATIONS = ['AM', 'FM', 'NFM']`, converts
`Frequency Output` from megahertz to whole hertz, and writes one output row per
kept input row. It counts the rows read and the rows written.

This project models that pipeline as pure functions and proves what it
promises:

- `PyStr`: Python's `str.strip()`, with the exact set of characters for which
  `str.isspace()` holds. It scans forward, then backward, as CPython does.
- `Modes`: the allowed-modulation constant, the reference mode table, and the
  mode standardisation (`FM`/`WFM` to `FM`, `FMN` to `NFM`, `AM` to `AM`,
  anything else to the empty "unrecognised" value).
- `Layout`: the 9-column output row (`Encode`) and its inverse (`Decode`),
  which reads the frequency, the AM/FM bucket and the name back out.
- `ConvertLoop`: the driving loop. It is a fold (`Convert`) over the input
  rows, and an imperative loop (`Drive`) proved equal to the fold. Both are
  parameterised by the per-row decision. `Kept` is an independent reference:
  the output of the emitting rows, front to back. `Picks` lists the indices
  of those rows.
- `Converter`: the per-row decision `TransformRow` and the instantiated
  conversion (`ConvertRows`, `ConvertFile`).
- `Scenarios`: a worked two-row example, an FM club repeater that is kept
  and a weather channel with mode `WX` that is dropped.

An input row is a `map<string, string>`, as a CSV dictionary reader yields.
An output row is a sequence of 9 cells: column 1 is an integer and the rest
are text. Columns are numbered 1..9 as in the program and indexed 0..8 in
Dafny.

Each row has one of three outcomes:

- `Emit`: one output row is written.
- `Skip`: the row is dropped silently or with a warning, and the run goes on.
  This happens when the mode is not allowed, or when the frequency raises
  `ValueError`/`TypeError`.
- `Raise`: the run stops. The partial output stays in the file.

The code as written raises in two cases that its `except (ValueError,
TypeError)` does not catch:

- A row with an allowed mode but no `Frequency Output` key raises `KeyError`.
  `row['Frequency Output']` is a hard index, so a missing column is not
  treated as an empty field: the run stops.
- A frequency whose scaled value is infinite (`inf`, `1e400`) makes `int`
  raise `OverflowError`.

The frequency conversion `int(float(text) * 1_000_000)` is a parameter
`parse: string -> Conversion`. Its result is `Hz(n)`, `Invalid` (the caught
`ValueError`/`TypeError`) or `Infinite` (the uncaught `OverflowError`). The
code truncates a binary floating-point product, so no concrete hertz value is
claimed.

## Model

| member | source | states |
|---|---|---|
| PyStr.Strip | radio_ref_to_sdruno.py:53 | the stripped token has no whitespace at either end and is a slice of the input with only whitespace around it |
| PyStr.StripUnique | radio_ref_to_sdruno.py:53 | stripping any whitespace-padded trimmed core returns exactly that core, so the contract of `Strip` determines it |
| PyStr.StripIgnoresPadding | radio_ref_to_sdruno.py:53 | adding whitespace on either side of a field never changes what `strip` returns |
| PyStr.StripTrimmed | radio_ref_to_sdruno.py:53 | a value with no whitespace at either end is returned unchanged |
| PyStr.StripIdempotent | radio_ref_to_sdruno.py:53 | stripping an already stripped value changes nothing |
| Modes.StandardiseMode | radio_ref_to_sdruno.py:53-63 | the standard mode is `FM` exactly for stripped `FM`/`WFM`, `NFM` exactly for `FMN`, `AM` exactly for `AM`, and otherwise the unrecognised value; it is in `ALLOWED_MODULATIONS` exactly when the stripped token is one of those four, and the unrecognised value never is |
| Modes.StandardiseFollowsTable | radio_ref_to_sdruno.py:56-64 | the if-chain agrees with the reference table of the four known tokens, and every other token maps to the unrecognised value |
| Modes.StandardiseIgnoresPadding | radio_ref_to_sdruno.py:53-63 | whitespace around the raw `Mode` field does not change its standard mode |
| Layout.Encode | radio_ref_to_sdruno.py:89-106 | an output row has exactly 9 columns: `Y`, `12K` and `AntA` in columns 2, 7 and 8, empty columns 5 and 9, the frequency in column 1, the name in column 4, and `AM`/`AM` or `FM`/`NFM` in columns 3 and 6 |
| Layout.DecodeEncode | radio_ref_to_sdruno.py:96-106 | every assembled row is well formed and reads back as the frequency, mode bucket and name it was built from |
| Layout.EncodeDecode | radio_ref_to_sdruno.py:96-106 | every well-formed row is the assembly of what it reads back as, so the layout has no other shape |
| Converter.Get | radio_ref_to_sdruno.py:79 | `row.get(key, '')`: the field's value when the key is present, else the empty string |
| Converter.RawMode | radio_ref_to_sdruno.py:53 | the mode token read with `row.get('Mode', '').strip()` is a slice of the `Mode` field with only whitespace around it and none at either end of its own, and is empty when the row has no `Mode` field |
| Converter.TransformRow | radio_ref_to_sdruno.py:53-110 | every row the per-row decision emits has the fixed 9-column layout |
| Converter.TransformRowCases | radio_ref_to_sdruno.py:53-115 | a row is mode-filtered exactly when its stripped mode is unknown; otherwise it raises exactly when `Frequency Output` is absent or converts to infinity, is skipped exactly when the conversion fails, and is emitted with its frequency, AM-or-not mode and `Description` (empty when absent) exactly when the conversion succeeds |
| Converter.EmittedColumns | radio_ref_to_sdruno.py:73-106 | an emitted row has the converted frequency in column 1, `Y`, empty, `12K`, `AntA`, empty in columns 2, 5, 7, 8, 9, the `Description` field in column 4, and `AM`/`AM` in columns 3 and 6 exactly when the stripped mode is `AM`, else `FM`/`NFM` |
| Converter.ConvertRows | radio_ref_to_sdruno.py:51-115 | rows written equals the length of the output, never exceeds rows read, which never exceeds the input length; every written row is well formed |
| Converter.ConvertFile | radio_ref_to_sdruno.py:33-115 | the loop computes the fold; when no row raises it reads every row and writes exactly the kept rows' output |
| ConvertLoop.Step | radio_ref_to_sdruno.py:51-115 | each pass counts one row read; an emitted row is appended to the output and counted in rows written; a skipped row changes nothing but the read count; a raising row leaves the output and rows written as they were and stops the run at that row with its fault |
| ConvertLoop.Convert | radio_ref_to_sdruno.py:33-115 | rows written equals the output length and is at most rows read, which is at most the input length; a completed run has read every row; a stopped run has read up to and including the row that raised; every written row is the output of some input row |
| ConvertLoop.KeptAppend | radio_ref_to_sdruno.py:51 | the kept output of two consecutive stretches of input is the concatenation of their kept outputs |
| ConvertLoop.ConvertCompletes | radio_ref_to_sdruno.py:51-115 | when no row raises, the run completes, reads every row, writes exactly the kept output in input order, and rows written counts it |
| ConvertLoop.ConvertStopsAtFirstFault | radio_ref_to_sdruno.py:51-115 | when row k is the first to raise, the run stops at k having read k + 1 rows and written exactly the kept output of the rows before k |
| ConvertLoop.KeptIsImageOfPicks | radio_ref_to_sdruno.py:51-110 | the kept output has one row per picked input row, and its j-th row is the output of the j-th picked row |
| ConvertLoop.PicksIncrease | radio_ref_to_sdruno.py:51 | the picked rows are in strictly increasing input order, so there is no reordering and no duplication |
| ConvertLoop.PicksComplete | radio_ref_to_sdruno.py:67-110 | every emitting input row is picked, so no kept row is lost |
| ConvertLoop.SkippedRowLeavesNoTrace | radio_ref_to_sdruno.py:112-115 | a skipped row contributes nothing and the rows on either side are processed as usual |
| ConvertLoop.ConvertPrefixGrows | radio_ref_to_sdruno.py:108-110 | running over more input only appends to what a prefix already wrote and never reads fewer rows |
| ConvertLoop.StoppedStaysStopped | radio_ref_to_sdruno.py:112 | once a prefix has raised, later rows change nothing |
| ConvertLoop.Drive | radio_ref_to_sdruno.py:33-115 | the imperative loop with its two counters computes the fold exactly; rows written equals the output length and is at most rows read |
| Scenarios.ClubRowEmitted | radio_ref_to_sdruno.py:53-106 | an FM row with frequency `146.94` and description `Club Repeater` is emitted in the FM bucket under that description |
| Scenarios.WeatherRowDropped | radio_ref_to_sdruno.py:53-68 | a row with mode `WX` is dropped by the mode filter |
| Scenarios.ClubRepeaterScenario | radio_ref_to_sdruno.py:51-110 | converting that FM club repeater row and that `WX` weather row reads 2 rows and writes 1: `[hz, Y, FM, Club Repeater, , NFM, 12K, AntA, ]` |

## Left out

- File-existence check, opening files, CSV parsing, quoting and writing, and console messages (lines 28-31, 37-48, 114, 117-119): these are I/O. Input is a sequence of maps and output is the returned sequence of rows.
- The floating-point conversion `int(float(...) * 1_000_000)` (line 73): it is the parameter `parse`, because truncating a binary float product has no exact decimal model.
- The row number printed in the warning (`rows_read + 1`, line 114): it is console output only.
- Short CSV rows, for which a dictionary reader fills missing fields with `None`: a `None` mode would raise `AttributeError` at `.strip()`, and a `None` description is written as an empty cell. Rows are `map<string, string>`, so `None` values are not modelled. A `None` frequency raises the caught `TypeError`, so it would be `Invalid` if it could be represented.
- Amateur-radio tag filtering, callsign appending and a command-line list of modulations: the program has none of these. The allowed list is the fixed constant of line 17.
- Exceptions from the CSV writer itself (line 109): these are I/O failures.
- The end-of-run summary (lines 117-119): it is console output. After an uncaught exception it is not printed at all. The model returns the counters and a `Stopped` status instead.
