/**
 * The loop of `convert_file`: read rows in order, count each one, hand it to
 * the per-row decision, append and count what it emits, and stop at the first
 * row whose decision raises an exception the loop does not catch.
 *
 * The per-row decision is a parameter here; `Converter` supplies the real one.
 */
module ConvertLoop {

  import opened Layout

  /** An input row: the header-to-value map a CSV dictionary reader yields. */
  type Row = map<string, string>

  /** An exception that escapes the per-row `try` and ends the run. */
  datatype Fault =
    | MissingFrequency   // KeyError: the row has no `Frequency Output` field
    | FrequencyOverflow  // OverflowError: the scaled frequency is infinite

  /** Why a row produced no output while the run carried on. */
  datatype SkipReason =
    | ModeFiltered   // its standard mode is not an allowed modulation
    | BadFrequency   // ValueError/TypeError while converting its frequency

  datatype RowOutcome = Emit(out: OutRow) | Skip(reason: SkipReason) | Raise(fault: Fault)

  type Transform = Row -> RowOutcome

  /** How a run ended: normally, or by an exception raised on the row at index `at`. */
  datatype Status = Completed | Stopped(at: nat, fault: Fault)

  /** The rows written so far and the two counters `convert_file` reports. */
  datatype Run = Run(written: seq<OutRow>, rowsRead: nat, rowsWritten: nat, status: Status)

  const Start: Run := Run([], 0, 0, Completed)

  /** One pass of the loop body over a run that has not stopped. */
  function Step(run: Run, row: Row, t: Transform): (next: Run)
    requires run.status.Completed?
    ensures next.rowsRead == run.rowsRead + 1
    ensures run.written <= next.written && |next.written| <= |run.written| + 1
    ensures next.rowsWritten - run.rowsWritten == |next.written| - |run.written|
    ensures next.status.Stopped? <==> t(row).Raise?
    ensures t(row).Skip? ==> next == run.(rowsRead := run.rowsRead + 1)
    ensures t(row).Emit? ==>
              next == Run(run.written + [t(row).out], run.rowsRead + 1, run.rowsWritten + 1, Completed)
    ensures t(row).Raise? ==>
              next == run.(rowsRead := run.rowsRead + 1, status := Stopped(run.rowsRead, t(row).fault))
  {
    var read := run.rowsRead + 1;
    match t(row)
    case Emit(out) => Run(run.written + [out], read, run.rowsWritten + 1, Completed)
    case Skip(_) => run.(rowsRead := read)
    case Raise(fault) => run.(rowsRead := read, status := Stopped(run.rowsRead, fault))
  }

  /**
   * The whole loop over a sequence of input rows, as a fold over its prefix.
   * Every written row is the output of some input row.
   */
  function Convert(rows: seq<Row>, t: Transform): (run: Run)
    ensures run.rowsWritten == |run.written| <= run.rowsRead <= |rows|
    ensures run.status.Completed? ==> run.rowsRead == |rows|
    ensures run.status.Stopped? ==>
              run.status.at + 1 == run.rowsRead && t(rows[run.status.at]).Raise?
    ensures forall j :: 0 <= j < |run.written| ==> exists i :: 0 <= i < |rows| && t(rows[i]) == Emit(run.written[j])
    decreases |rows|
  {
    if |rows| == 0 then Start
    else
      var init := rows[..|rows| - 1];
      var before := Convert(init, t);
      assert forall i :: 0 <= i < |init| ==> init[i] == rows[i];
      if before.status.Stopped? then before
      else
        var next := Step(before, rows[|rows| - 1], t);
        assert forall j :: 0 <= j < |before.written| ==> next.written[j] == before.written[j];
        next
  }

  /** The output a single row contributes when it does not raise. */
  function Image(row: Row, t: Transform): (out: seq<OutRow>)
    ensures |out| <= 1
    ensures |out| == 1 <==> t(row).Emit?
  {
    match t(row)
    case Emit(r) => [r]
    case _ => []
  }

  /**
   * Reference definition: the output of the rows that are kept, in input
   * order, computed front to back and without counters or early exit.
   */
  function Kept(rows: seq<Row>, t: Transform): (out: seq<OutRow>)
    ensures |out| <= |rows|
  {
    if |rows| == 0 then [] else Image(rows[0], t) + Kept(rows[1..], t)
  }

  /** No row of `rows` raises. */
  predicate NoFault(rows: seq<Row>, t: Transform) {
    forall i :: 0 <= i < |rows| ==> !t(rows[i]).Raise?
  }

  lemma {:induction false} KeptAppend(a: seq<Row>, b: seq<Row>, t: Transform)
    ensures Kept(a + b, t) == Kept(a, t) + Kept(b, t)
    decreases |a|
  {
    if |a| == 0 {
      assert a + b == b;
    } else {
      calc {
        Kept(a + b, t);
        { assert (a + b)[0] == a[0]; assert (a + b)[1..] == a[1..] + b; }
        Image(a[0], t) + Kept(a[1..] + b, t);
        { KeptAppend(a[1..], b, t); }
        Image(a[0], t) + (Kept(a[1..], t) + Kept(b, t));
        (Image(a[0], t) + Kept(a[1..], t)) + Kept(b, t);
      }
    }
  }

  /**
   * A run in which no row raises reads every row and writes exactly the kept
   * rows' output in input order; `rows_written` counts them.
   */
  lemma {:induction false} ConvertCompletes(rows: seq<Row>, t: Transform)
    requires NoFault(rows, t)
    ensures Convert(rows, t) == Run(Kept(rows, t), |rows|, |Kept(rows, t)|, Completed)
    decreases |rows|
  {
    if |rows| > 0 {
      var init, last := rows[..|rows| - 1], rows[|rows| - 1];
      assert NoFault(init, t) by {
        forall i | 0 <= i < |init|
          ensures !t(init[i]).Raise?
        {
          assert init[i] == rows[i];
        }
      }
      ConvertCompletes(init, t);
      assert rows == init + [last];
      KeptAppend(init, [last], t);
      assert Kept([last], t) == Image(last, t) by {
        assert [last][1..] == [];
      }
      var next := Step(Convert(init, t), last, t);
      assert Convert(rows, t) == next;
      assert next.written == Kept(init, t) + Image(last, t);
    }
  }

  /**
   * A run in which row `k` is the first to raise stops right there: it has
   * read `k + 1` rows and written exactly the kept output of the rows before
   * `k`; the rows after `k` are never read.
   */
  lemma {:induction false} ConvertStopsAtFirstFault(rows: seq<Row>, t: Transform, k: nat)
    requires k < |rows| && t(rows[k]).Raise?
    requires NoFault(rows[..k], t)
    ensures Convert(rows, t) ==
            Run(Kept(rows[..k], t), k + 1, |Kept(rows[..k], t)|, Stopped(k, t(rows[k]).fault))
    decreases |rows|
  {
    var init := rows[..|rows| - 1];
    if |rows| == k + 1 {
      assert init == rows[..k];
      ConvertCompletes(init, t);
    } else {
      assert init[..k] == rows[..k];
      assert init[k] == rows[k];
      ConvertStopsAtFirstFault(init, t, k);
    }
  }

  /** Every index of `xs` moved up by one. */
  function Shift(xs: seq<nat>): (ys: seq<nat>)
    ensures |ys| == |xs|
    ensures forall j :: 0 <= j < |xs| ==> ys[j] == xs[j] + 1
  {
    seq(|xs|, j requires 0 <= j < |xs| => xs[j] + 1)
  }

  /** The indices of the rows that emit, front to back. */
  function Picks(rows: seq<Row>, t: Transform): (idx: seq<nat>)
    ensures forall j :: 0 <= j < |idx| ==> idx[j] < |rows|
    decreases |rows|
  {
    if |rows| == 0 then []
    else if t(rows[0]).Emit? then [0] + Shift(Picks(rows[1..], t))
    else Shift(Picks(rows[1..], t))
  }

  /** `out` lists, in order, the outputs of the rows of `rows` at the indices `idx`. */
  predicate ImageAt(rows: seq<Row>, t: Transform, idx: seq<nat>, out: seq<OutRow>) {
    && |idx| == |out|
    && forall j :: 0 <= j < |idx| ==> idx[j] < |rows| && t(rows[idx[j]]) == Emit(out[j])
  }

  /** Putting a row in front shifts the indices by one, and picks the new row when it emits. */
  lemma ImageAtCons(row: Row, tail: seq<Row>, t: Transform, rest: seq<nat>, out: seq<OutRow>)
    requires ImageAt(tail, t, rest, out)
    ensures ImageAt([row] + tail, t, Shift(rest), out)
    ensures t(row).Emit? ==> ImageAt([row] + tail, t, [0] + Shift(rest), [t(row).out] + out)
  {
    var rows := [row] + tail;
    assert forall j :: 0 <= j < |rest| ==> rows[rest[j] + 1] == tail[rest[j]];
    if t(row).Emit? {
      var idx, out' := [0] + Shift(rest), [t(row).out] + out;
      forall j | 0 < j < |idx|
        ensures idx[j] < |rows| && t(rows[idx[j]]) == Emit(out'[j])
      {
        assert idx[j] == rest[j - 1] + 1 && out'[j] == out[j - 1];
      }
    }
  }

  /**
   * `Kept` is exactly the image of the emitting rows: the j-th output row is
   * the output of the j-th picked input row.
   */
  lemma {:induction false} KeptIsImageOfPicks(rows: seq<Row>, t: Transform)
    ensures ImageAt(rows, t, Picks(rows, t), Kept(rows, t))
    decreases |rows|
  {
    if |rows| > 0 {
      var tail := rows[1..];
      KeptIsImageOfPicks(tail, t);
      assert rows == [rows[0]] + tail;
      ImageAtCons(rows[0], tail, t, Picks(tail, t), Kept(tail, t));
      assert Kept(rows, t) == Image(rows[0], t) + Kept(tail, t);
      if !t(rows[0]).Emit? {
        assert Kept(rows, t) == Kept(tail, t);
      }
    }
  }

  /** The emitting rows are picked in input order, none twice. */
  lemma {:induction false} PicksIncrease(rows: seq<Row>, t: Transform)
    ensures forall j, j' :: 0 <= j < j' < |Picks(rows, t)| ==> Picks(rows, t)[j] < Picks(rows, t)[j']
    decreases |rows|
  {
    if |rows| > 0 {
      PicksIncrease(rows[1..], t);
      var rest, idx := Picks(rows[1..], t), Picks(rows, t);
      if t(rows[0]).Emit? {
        forall j, j' | 0 <= j < j' < |idx|
          ensures idx[j] < idx[j']
        {
          assert idx[j'] == rest[j' - 1] + 1;
          if j > 0 {
            assert idx[j] == rest[j - 1] + 1;
          }
        }
      }
    }
  }

  /** Every emitting row is picked. */
  lemma {:induction false} PicksComplete(rows: seq<Row>, t: Transform)
    ensures forall i :: 0 <= i < |rows| && t(rows[i]).Emit? ==> i in Picks(rows, t)
    decreases |rows|
  {
    if |rows| > 0 {
      var tail := rows[1..];
      PicksComplete(tail, t);
      var rest, idx := Picks(tail, t), Picks(rows, t);
      forall i | 0 <= i < |rows| && t(rows[i]).Emit?
        ensures i in idx
      {
        if i == 0 {
          assert idx[0] == 0;
        } else {
          assert rows[i] == tail[i - 1];
          var j :| 0 <= j < |rest| && rest[j] == i - 1;
          if t(rows[0]).Emit? {
            assert idx[j + 1] == i;
          } else {
            assert idx[j] == i;
          }
        }
      }
    }
  }

  /** A skipped row between two stretches of input adds nothing between their kept outputs. */
  lemma KeptAroundSkip(pre: seq<Row>, row: Row, post: seq<Row>, t: Transform)
    requires t(row).Skip?
    ensures Kept(pre + [row] + post, t) == Kept(pre, t) + Kept(post, t)
  {
    assert pre + [row] + post == pre + ([row] + post);
    KeptAppend(pre, [row] + post, t);
    assert ([row] + post)[1..] == post;
  }

  /** A skipped row contributes nothing, and the rows either side of it are processed as usual. */
  lemma SkippedRowLeavesNoTrace(rows: seq<Row>, t: Transform, k: nat)
    requires k < |rows| && t(rows[k]).Skip?
    ensures Kept(rows, t) == Kept(rows[..k], t) + Kept(rows[k + 1..], t)
  {
    var pre, post := rows[..k], rows[k + 1..];
    assert Kept(rows, t) == Kept(pre + [rows[k]] + post, t) by {
      assert rows == pre + [rows[k]] + post;
    }
    KeptAroundSkip(pre, rows[k], post, t);
  }

  /**
   * Rows are written as they are produced: running over more input only
   * appends to what a shorter prefix already wrote, and never reads less.
   */
  lemma {:induction false} ConvertPrefixGrows(rows: seq<Row>, t: Transform, i: nat)
    requires i <= |rows|
    ensures Convert(rows[..i], t).written <= Convert(rows, t).written
    ensures Convert(rows[..i], t).rowsRead <= Convert(rows, t).rowsRead
    decreases |rows|
  {
    if i < |rows| {
      var init := rows[..|rows| - 1];
      assert init[..i] == rows[..i];
      ConvertPrefixGrows(init, t, i);
    } else {
      assert rows[..i] == rows;
    }
  }

  /** Once a prefix of the input has raised, no later row changes the run. */
  lemma {:induction false} StoppedStaysStopped(rows: seq<Row>, t: Transform, i: nat)
    requires i <= |rows| && Convert(rows[..i], t).status.Stopped?
    ensures Convert(rows, t) == Convert(rows[..i], t)
    decreases |rows|
  {
    if i < |rows| {
      var init := rows[..|rows| - 1];
      assert init[..i] == rows[..i];
      StoppedStaysStopped(init, t, i);
    } else {
      assert rows[..i] == rows;
    }
  }

  /**
   * The loop as the source writes it, with its two counters as local
   * variables: it computes the fold `Convert`.
   */
  method Drive(rows: seq<Row>, t: Transform) returns (run: Run)
    ensures run == Convert(rows, t)
    ensures run.rowsWritten == |run.written| <= run.rowsRead
    ensures NoFault(rows, t) ==> run.status.Completed? && run.rowsRead == |rows| && run.written == Kept(rows, t)
  {
    var written: seq<OutRow> := [];
    var rowsRead, rowsWritten := 0, 0;
    var i := 0;
    while i < |rows|
      invariant 0 <= i <= |rows|
      invariant Convert(rows[..i], t) == Run(written, rowsRead, rowsWritten, Completed)
    {
      assert rows[..i + 1][..i] == rows[..i];
      rowsRead := rowsRead + 1;
      match t(rows[i]) {
        case Emit(out) =>
          written := written + [out];
          rowsWritten := rowsWritten + 1;
        case Skip(_) =>
        case Raise(fault) =>
          run := Run(written, rowsRead, rowsWritten, Stopped(i, fault));
          assert Convert(rows[..i + 1], t) == run;
          StoppedStaysStopped(rows, t, i + 1);
          return;
      }
      i := i + 1;
    }
    assert rows[..i] == rows;
    run := Run(written, rowsRead, rowsWritten, Completed);
    if NoFault(rows, t) {
      ConvertCompletes(rows, t);
    }
  }
}
