/** A worked example of the conversion: two rows of an export, one kept and one dropped. */
module Scenarios {

  import opened PyStr
  import opened Modes
  import opened Layout
  import opened ConvertLoop
  import opened Converter

  const ClubRow: Row :=
    map["Mode" := "FM", "Frequency Output" := "146.94", "Description" := "Club Repeater", "Tag" := "Ham"]

  const WeatherRow: Row :=
    map["Mode" := "WX", "Frequency Output" := "162.55", "Description" := "Weather", "Tag" := ""]

  /** The club row's mode is `FM`. */
  lemma ClubMode()
    ensures StandardiseMode(Get(ClubRow, ModeKey)) == "FM"
  {
    assert Get(ClubRow, ModeKey) == "FM";
    StripTrimmed("FM");
  }

  /** The weather row's mode `WX` is not in the vocabulary. */
  lemma WeatherMode()
    ensures StandardiseMode(Get(WeatherRow, ModeKey)) == Unrecognised
  {
    assert Get(WeatherRow, ModeKey) == "WX";
    StripTrimmed("WX");
  }

  /** The FM club repeater is emitted in the FM bucket under its description. */
  lemma ClubRowEmitted(parse: Parser, hz: int)
    requires parse("146.94") == Hz(hz)
    ensures TransformRow(ClubRow, parse) == Emit(Encode(Entry(hz, false, "Club Repeater")))
  {
    ClubMode();
    assert FrequencyKey in ClubRow && ClubRow[FrequencyKey] == "146.94";
    assert Get(ClubRow, DescriptionKey) == "Club Repeater";
  }

  /** The weather row's mode `WX` is not in the vocabulary, so the mode filter drops it. */
  lemma WeatherRowDropped(parse: Parser)
    ensures TransformRow(WeatherRow, parse) == Skip(ModeFiltered)
  {
    WeatherMode();
  }

  /** The kept output of a two-row input, for any per-row decision. */
  lemma KeptOfTwo(x: Row, y: Row, t: Transform)
    ensures Kept([x, y], t) == Image(x, t) + Image(y, t)
    ensures NoFault([x, y], t) <==> !t(x).Raise? && !t(y).Raise?
  {
    assert [x, y][1..] == [y] && [y][1..] == [];
    assert Kept([y], t) == Image(y, t) + [];
  }

  /** Only the club row is kept, and no row raises. */
  lemma ScenarioKept(parse: Parser, hz: int)
    requires parse("146.94") == Hz(hz)
    ensures NoFault([ClubRow, WeatherRow], Transformer(parse))
    ensures Kept([ClubRow, WeatherRow], Transformer(parse)) == [Encode(Entry(hz, false, "Club Repeater"))]
  {
    var t := Transformer(parse);
    ClubRowEmitted(parse, hz);
    WeatherRowDropped(parse);
    assert Image(ClubRow, t) == [Encode(Entry(hz, false, "Club Repeater"))];
    assert Image(WeatherRow, t) == [];
    KeptOfTwo(ClubRow, WeatherRow, t);
  }

  /**
   * Converting the two rows reads both, writes one, and the row written is
   * `[hz, Y, FM, Club Repeater, , NFM, 12K, AntA, ]`.
   */
  lemma ClubRepeaterScenario(parse: Parser, hz: int)
    requires parse("146.94") == Hz(hz)
    ensures ConvertRows([ClubRow, WeatherRow], parse) ==
            Run([[Num(hz), Text("Y"), Text("FM"), Text("Club Repeater"), Text(""), Text("NFM"), Text("12K"), Text("AntA"), Text("")]],
                2, 1, Completed)
  {
    ScenarioKept(parse, hz);
    ConvertCompletes([ClubRow, WeatherRow], Transformer(parse));
  }
}
