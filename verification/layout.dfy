/**
 * The 9-column memory row the converter writes for each kept input row
 * (columns are numbered 1..9 in the file and indexed 0..8 here), and its
 * inverse, which reads the free content back out of a well-formed row.
 */
module Layout {

  import opened Wrappers

  /** One output cell: column 1 is written as an integer, every other column as text. */
  datatype Cell = Num(n: int) | Text(s: string)

  type OutRow = seq<Cell>

  const StoreFlag: string := "Y"
  const Bandwidth: string := "12K"
  const Antenna: string := "AntA"

  /** What varies between rows: frequency in hertz, AM versus FM bucket, and the name. */
  datatype Entry = Entry(hz: int, am: bool, name: string)

  /** Columns 3 and 6 (mode and filter) for the AM and FM buckets. */
  function ModeCell(am: bool): Cell { if am then Text("AM") else Text("FM") }
  function FilterCell(am: bool): Cell { if am then Text("AM") else Text("NFM") }

  /** Assemble the output row for an entry. */
  function Encode(e: Entry): (r: OutRow)
    ensures |r| == 9
    ensures r[1] == Text(StoreFlag) && r[6] == Text(Bandwidth) && r[7] == Text(Antenna)
    ensures r[4] == Text("") && r[8] == Text("")
    ensures r[0] == Num(e.hz) && r[3] == Text(e.name)
    ensures e.am ==> r[2] == Text("AM") && r[5] == Text("AM")
    ensures !e.am ==> r[2] == Text("FM") && r[5] == Text("NFM")
  {
    [Num(e.hz), Text(StoreFlag), ModeCell(e.am), Text(e.name), Text(""),
     FilterCell(e.am), Text(Bandwidth), Text(Antenna), Text("")]
  }

  /** Read an output row back: `None` unless it has the fixed layout `Encode` produces. */
  function Decode(r: OutRow): (e: Option<Entry>)
    ensures e.Some? ==> |r| == 9 && r[1] == Text(StoreFlag) && r[7] == Text(Antenna)
  {
    if |r| == 9 && r[0].Num? && r[1] == Text(StoreFlag) && r[3].Text? && r[4] == Text("")
       && r[6] == Text(Bandwidth) && r[7] == Text(Antenna) && r[8] == Text("")
       && ((r[2] == Text("AM") && r[5] == Text("AM")) || (r[2] == Text("FM") && r[5] == Text("NFM")))
    then Some(Entry(r[0].n, r[2] == Text("AM"), r[3].s))
    else None
  }

  /** A row with the fixed layout of the memory file. */
  predicate WellFormed(r: OutRow) {
    Decode(r).Some?
  }

  /** Every assembled row reads back as the entry it was built from. */
  lemma DecodeEncode(e: Entry)
    ensures Decode(Encode(e)) == Some(e)
    ensures WellFormed(Encode(e))
  {
  }

  /** Every well-formed row is the encoding of what it reads back as. */
  lemma EncodeDecode(r: OutRow)
    requires WellFormed(r)
    ensures Encode(Decode(r).value) == r
  {
    var e := Decode(r).value;
    assert Encode(e)[2] == r[2] && Encode(e)[5] == r[5];
  }
}
