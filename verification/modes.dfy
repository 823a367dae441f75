/**
 * Modulation vocabulary: the fixed list of modulations the converter keeps
 * and the mapping from a raw `Mode` token to a standard mode.
 */
module Modes {

  import opened PyStr

  /** The standard modes kept in the output, in the order the converter lists them. */
  const AllowedModulations: seq<string> := ["AM", "FM", "NFM"]

  /** The standard mode given to any raw token the mapping does not know. */
  const Unrecognised: string := ""

  /** Reference table from a stripped raw token to its standard mode. */
  const ModeTable: map<string, string> := map["FM" := "FM", "WFM" := "FM", "FMN" := "NFM", "AM" := "AM"]

  /** Standardise a raw `Mode` field: strip it, then map it through the fixed vocabulary. */
  function StandardiseMode(raw: string): (std: string)
    ensures std in AllowedModulations <==> std != Unrecognised
    ensures std in AllowedModulations <==> Strip(raw) in ModeTable
    ensures std == "FM" <==> Strip(raw) == "FM" || Strip(raw) == "WFM"
    ensures std == "NFM" <==> Strip(raw) == "FMN"
    ensures std == "AM" <==> Strip(raw) == "AM"
  {
    var mode := Strip(raw);
    if mode == "FM" || mode == "WFM" then "FM"
    else if mode == "FMN" then "NFM"
    else if mode == "AM" then "AM"
    else Unrecognised
  }

  /** The if-chain agrees with the reference table, and unknown tokens fall to `Unrecognised`. */
  lemma StandardiseFollowsTable(raw: string)
    ensures Strip(raw) in ModeTable ==> StandardiseMode(raw) == ModeTable[Strip(raw)]
    ensures Strip(raw) !in ModeTable ==> StandardiseMode(raw) == Unrecognised
  {
    var mode := Strip(raw);
    assert ModeTable.Keys == {"FM", "WFM", "FMN", "AM"};
    if mode in ModeTable {
      assert mode == "FM" || mode == "WFM" || mode == "FMN" || mode == "AM";
    }
  }

  /** Whitespace around the raw token does not change its standard mode. */
  lemma StandardiseIgnoresPadding(a: string, raw: string, b: string)
    requires AllSpace(a) && AllSpace(b)
    ensures StandardiseMode(a + raw + b) == StandardiseMode(raw)
  {
    StripIgnoresPadding(a, raw, b);
  }
}
