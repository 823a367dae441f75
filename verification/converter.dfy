/**
 * The per-row decision of `convert_file`: standardise the mode, apply the
 * modulation filter, look up and convert the frequency, and assemble the
 * memory row; and the whole conversion, which runs that decision under the
 * loop of `ConvertLoop`.
 */
module Converter {

  import opened Wrappers
  import opened PyStr
  import opened Modes
  import opened Layout
  import opened ConvertLoop

  const ModeKey: string := "Mode"
  const FrequencyKey: string := "Frequency Output"
  const DescriptionKey: string := "Description"

  /** `row.get(key, '')` */
  function Get(row: Row, key: string): (v: string)
    ensures key in row ==> v == row[key]
    ensures key !in row ==> v == ""
  {
    if key in row then row[key] else ""
  }

  /**
   * What `int(float(text) * 1_000_000)` does with a frequency field: a whole
   * number of hertz, a ValueError or TypeError (caught: the row is skipped),
   * or an infinite product, on which `int` raises OverflowError (not caught).
   */
  datatype Conversion = Hz(hz: int) | Invalid | Infinite

  /** The floating-point conversion, supplied from outside the model. */
  type Parser = string -> Conversion

  /**
   * The stripped raw `Mode` token: the `Mode` field with the whitespace
   * around it removed, empty when the row has no `Mode` field.
   */
  function RawMode(row: Row): (m: string)
    ensures Trimmed(m)
    ensures |m| <= |Get(row, ModeKey)|
    ensures ModeKey !in row ==> m == ""
    ensures exists lo :: 0 <= lo <= |Get(row, ModeKey)| - |m| && m == Get(row, ModeKey)[lo..lo + |m|] &&
              AllSpace(Get(row, ModeKey)[..lo]) && AllSpace(Get(row, ModeKey)[lo + |m|..])
  {
    Strip(Get(row, ModeKey))
  }

  /** One iteration of the loop body, after `rows_read` has been counted. */
  function TransformRow(row: Row, parse: Parser): (o: RowOutcome)
    ensures o.Emit? ==> WellFormed(o.out)
  {
    var std := StandardiseMode(Get(row, ModeKey));
    if std !in AllowedModulations then Skip(ModeFiltered)
    else if FrequencyKey !in row then Raise(MissingFrequency)
    else
      match parse(row[FrequencyKey])
      case Invalid => Skip(BadFrequency)
      case Infinite => Raise(FrequencyOverflow)
      case Hz(hz) =>
        var e := Entry(hz, std == "AM", Get(row, DescriptionKey));
        DecodeEncode(e);
        Emit(Encode(e))
  }

  /**
   * The decision `TransformRow` makes, in terms of the input fields: the mode
   * filter comes first, then the frequency lookup, then its conversion; a row
   * that passes all three yields the entry built from its frequency, whether
   * its mode is AM, and its description.
   */
  lemma TransformRowCases(row: Row, parse: Parser)
    ensures var o := TransformRow(row, parse);
      && (o == Skip(ModeFiltered) <==> RawMode(row) !in ModeTable)
      && (o == Raise(MissingFrequency) <==> RawMode(row) in ModeTable && FrequencyKey !in row)
      && (o == Skip(BadFrequency) <==>
            RawMode(row) in ModeTable && FrequencyKey in row && parse(row[FrequencyKey]).Invalid?)
      && (o == Raise(FrequencyOverflow) <==>
            RawMode(row) in ModeTable && FrequencyKey in row && parse(row[FrequencyKey]).Infinite?)
      && (o.Emit? <==>
            RawMode(row) in ModeTable && FrequencyKey in row && parse(row[FrequencyKey]).Hz?)
      && (o.Emit? ==>
            Decode(o.out) == Some(Entry(parse(row[FrequencyKey]).hz, RawMode(row) == "AM", Get(row, DescriptionKey))))
  {
    var std := StandardiseMode(Get(row, ModeKey));
    if std in AllowedModulations && FrequencyKey in row && parse(row[FrequencyKey]).Hz? {
      DecodeEncode(Entry(parse(row[FrequencyKey]).hz, std == "AM", Get(row, DescriptionKey)));
    }
  }

  /**
   * The columns of every emitted row, in terms of the input fields: the fixed
   * columns 2, 5, 7, 8 and 9, the frequency and the description, and the AM
   * versus FM split of columns 3 and 6.
   */
  lemma EmittedColumns(row: Row, parse: Parser)
    requires TransformRow(row, parse).Emit?
    ensures var r := TransformRow(row, parse).out;
      && |r| == 9
      && r[0] == Num(parse(row[FrequencyKey]).hz)
      && r[1] == Text("Y") && r[4] == Text("") && r[6] == Text("12K") && r[7] == Text("AntA") && r[8] == Text("")
      && r[3] == Text(Get(row, DescriptionKey))
      && (RawMode(row) == "AM" ==> r[2] == Text("AM") && r[5] == Text("AM"))
      && (RawMode(row) != "AM" ==> r[2] == Text("FM") && r[5] == Text("NFM"))
  {
    TransformRowCases(row, parse);
    EncodeDecode(TransformRow(row, parse).out);
  }

  /** The per-row decision with the frequency conversion fixed. */
  function Transformer(parse: Parser): Transform {
    row => TransformRow(row, parse)
  }

  /** `convert_file` over the rows of the input file. */
  function ConvertRows(rows: seq<Row>, parse: Parser): (run: Run)
    ensures run.rowsWritten == |run.written| <= run.rowsRead <= |rows|
    ensures forall j :: 0 <= j < |run.written| ==> WellFormed(run.written[j])
  {
    var run := Convert(rows, Transformer(parse));
    assert forall j :: 0 <= j < |run.written| ==> WellFormed(run.written[j]) by {
      forall j | 0 <= j < |run.written|
        ensures WellFormed(run.written[j])
      {
        var i :| 0 <= i < |rows| && Transformer(parse)(rows[i]) == Emit(run.written[j]);
      }
    }
    run
  }

  /** `convert_file` as an imperative loop over the rows of the input file. */
  method ConvertFile(rows: seq<Row>, parse: Parser) returns (run: Run)
    ensures run == ConvertRows(rows, parse)
    ensures NoFault(rows, Transformer(parse)) ==>
              run.status.Completed? && run.rowsRead == |rows| && run.written == Kept(rows, Transformer(parse))
  {
    run := Drive(rows, Transformer(parse));
  }
}
