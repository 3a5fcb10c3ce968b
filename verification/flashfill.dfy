/**
 The table-filling step of `flashfill`: every example without an output is
 run through the learned program and the result is written back into the
 table. The learned program is a parameter.
 */
module FlashFill {
  import opened Wrappers
  import opened Examples
  import opened Tables

  /** A table as `flashfill` receives it: a list of lists of strings. */
  type Table = seq<seq<string>>

  /** The program learned from the examples, run on an input row. */
  type Program = seq<string> -> string

  /**
   What the caller holds once the fill loop stops: the table as the loop
   left it and the exception it raised, if any. The loop writes rows in
   place, so rows written before an exception stay written.
   */
  datatype Outcome = Outcome(table: Table, raised: Option<PyError>)

  /** The table as the data handed to `make_examples`. */
  function AsLines(t: Table): (data: seq<Line>)
    ensures |data| == |t|
    ensures forall i :: 0 <= i < |t| ==> data[i].ListLine? && IsTextLine(data[i]) && Texts(data[i]) == t[i]
  {
    seq(|t|, i requires 0 <= i < |t| =>
      ListLine(seq(|t[i]|, j requires 0 <= j < |t[i]| => Str(t[i][j]))))
  }

  /** `make_examples` does not raise: the table is empty or has a non-empty row. */
  predicate Fillable(t: Table)
  {
    |t| == 0 || MaxLen(t) > 0
  }

  /** A table of strings takes the list branch of `make_examples`, or is empty. */
  lemma TableExamples(t: Table)
    requires Fillable(t)
    ensures WidthDefined(AsLines(t))
    ensures |t| == 0 ==> MakeExamples(AsLines(t)) == []
    ensures |t| > 0 ==> MakeExamples(AsLines(t)) == ListExamples(t)
  {
    var data := AsLines(t);
    if |t| > 0 {
      assert !data[0].TupleLine?;
      assert Rows(data) == t;
    }
  }

  /**
   Writing the output into a row: appended when the row is exactly the
   input, written over the last cell otherwise, which raises on an empty row.
   */
  function Place(line: seq<string>, input: seq<string>, out: string): (r: Result<seq<string>>)
    ensures r.Err? <==> |line| != |input| && |line| == 0
    ensures r.Ok? ==> |r.value| > 0 && r.value[|r.value| - 1] == out
    ensures r.Ok? ==> |r.value| == (if |line| == |input| then |line| + 1 else |line|)
    ensures r.Ok? ==> r.value[..|r.value| - 1] == line[..|r.value| - 1]
  {
    if |line| == |input| then Ok(line + [out])
    else if |line| == 0 then Err(IndexError)
    else Ok(line[..|line| - 1] + [out])
  }

  /**
   The loop over `enumerate(examples)` from position `i` on, writing the
   output of example `i` into row `i` of the table.
   */
  function FillFrom(t: Table, exs: seq<Example>, i: nat, prog: Program): (r: Outcome)
    requires i <= |exs| <= |t|
    requires forall k :: 0 <= k < |exs| ==> exs[k].input.Some?
    ensures |r.table| == |t|
    ensures r.raised.None? || r.raised == Some(IndexError)
    ensures forall k :: 0 <= k < i ==> r.table[k] == t[k]
    ensures forall k :: |exs| <= k < |t| ==> r.table[k] == t[k]
    decreases |exs| - i
  {
    if i == |exs| then Outcome(t, None)
    else if HasOutput(exs[i]) then FillFrom(t, exs, i + 1, prog)
    else
      var input := exs[i].input.value;
      match Place(t[i], input, prog(input))
      case Err(e) => Outcome(t, Some(e))
      case Ok(line) => FillFrom(t[i := line], exs, i + 1, prog)
  }

  /** `flashfill` as written: rows are addressed by the example's position. */
  function FillAsWritten(t: Table, prog: Program): (r: Outcome)
    requires Fillable(t)
    ensures |r.table| == |t|
    ensures r.raised.None? || r.raised == Some(IndexError)
  {
    TableExamples(t);
    FillFrom(t, MakeExamples(AsLines(t)), 0, prog)
  }

  /** One row after filling, when the widest row has `w + 1` cells. */
  function FillRow(row: seq<string>, w: nat, prog: Program): (filled: seq<string>)
  {
    match RowExample(row, w)
    case None => row
    case Some(e) =>
      if HasOutput(e) then row
      else
        var input := e.input.value;
        Place(row, input, prog(input)).value
  }

  /**
   What filling does to one row when the widest row has `n` cells: a full
   row with a non-empty last cell and a row too short to be read stay as
   they are; a full row with an empty last cell keeps its first `n - 1`
   cells and gets the program's output on them as last cell; a row one
   short gets the program's output on it appended.
   */
  predicate FilledAs(row: seq<string>, n: nat, prog: Program, out: seq<string>)
    requires n > 0
  {
    if |row| == n && row[n - 1] != "" then out == row
    else if |row| == n then
      |out| == n && out[..n - 1] == row[..n - 1] && out[n - 1] == prog(row[..n - 1])
    else if |row| + 1 == n then
      |out| == n && out[..n - 1] == row && out[n - 1] == prog(row)
    else out == row
  }

  lemma FillRowFills(row: seq<string>, n: nat, prog: Program)
    requires n > 0
    ensures FilledAs(row, n, prog, FillRow(row, n - 1, prog))
  {
    var out := FillRow(row, n - 1, prog);
    if |row| == n && row[n - 1] == "" {
      assert out == row[..n - 1] + [prog(row[..n - 1])];
      assert out[..n - 1] == row[..n - 1];
    } else if |row| + 1 == n {
      assert out == row + [prog(row)];
      assert out[..n - 1] == row;
    }
  }

  /**
   `flashfill` with every incomplete row filled in place: each row is
   filled as `FilledAs` says, so every row that is read ends with as many
   cells as the widest row.
   */
  function Fill(t: Table, prog: Program): (r: Table)
    requires Fillable(t)
    ensures |r| == |t|
    ensures |t| > 0 ==> forall i :: 0 <= i < |t| ==> FilledAs(t[i], MaxLen(t), prog, r[i])
    ensures |t| > 0 ==> forall i :: 0 <= i < |t| && |t[i]| + 1 >= MaxLen(t) ==> |r[i]| == MaxLen(t)
  {
    if |t| == 0 then []
    else
      var n := MaxLen(t);
      var r := seq(|t|, i requires 0 <= i < |t| => FillRow(t[i], n - 1, prog));
      assert forall i :: 0 <= i < |t| ==> FilledAs(t[i], n, prog, r[i]) by {
        forall i | 0 <= i < |t| ensures FilledAs(t[i], n, prog, r[i]) {
          FillRowFills(t[i], n, prog);
        }
      }
      r
  }

  /**
   When every row is full or one short, the source's loop writes each
   example's output into the row the example came from, so it fills the
   table exactly as `Fill` does and never raises.
   */
  lemma FillAsWrittenAgrees(t: Table, prog: Program)
    requires Fillable(t) && NoRowDropped(t)
    ensures FillAsWritten(t, prog) == Outcome(Fill(t, prog), None)
  {
    TableExamples(t);
    if |t| == 0 {
      assert FillAsWritten(t, prog) == FillFrom(t, [], 0, prog);
    } else {
      assert FillAsWritten(t, prog) == FillFrom(t, ListExamples(t), 0, prog);
      FillFromStart(t, prog);
    }
  }

  /** `FillAsWrittenAgrees` for a non-empty table, from the first example on. */
  lemma FillFromStart(t: Table, prog: Program)
    requires |t| > 0 && MaxLen(t) > 0 && NoRowDropped(t)
    ensures FillFrom(t, ListExamples(t), 0, prog) == Outcome(Fill(t, prog), None)
  {
    var exs := ListExamples(t);
    ListExamplesAligned(t);
    FillFromAligned(t, t, exs, 0, prog);
  }

  /** `Fill` fills each row on its own. */
  lemma FillByRow(t: Table, prog: Program)
    requires |t| > 0 && MaxLen(t) > 0
    ensures forall i :: 0 <= i < |t| ==> Fill(t, prog)[i] == FillRow(t[i], MaxLen(t) - 1, prog)
  {
  }

  /** One step of the source's loop, on the row the example came from, is `FillRow`. */
  lemma StepFillsRow(row: seq<string>, w: nat, e: Example, prog: Program)
    requires RowExample(row, w) == Some(e)
    ensures e.input.Some?
    ensures HasOutput(e) ==> FillRow(row, w, prog) == row
    ensures !HasOutput(e) ==> Place(row, e.input.value, prog(e.input.value)) == Ok(FillRow(row, w, prog))
  {
  }

  /** The loop invariant of `FillAsWrittenAgrees`: rows before `i` are filled, the rest untouched. */
  lemma {:induction false} FillFromAligned(t0: Table, t: Table, exs: seq<Example>, i: nat, prog: Program)
    requires |t0| > 0 && MaxLen(t0) > 0
    requires |exs| == |t0| == |t| && i <= |exs|
    requires forall k :: 0 <= k < |exs| ==> RowExample(t0[k], MaxLen(t0) - 1) == Some(exs[k])
    requires forall k :: 0 <= k < |exs| ==> exs[k].input.Some?
    requires forall k :: 0 <= k < i ==> t[k] == FillRow(t0[k], MaxLen(t0) - 1, prog)
    requires forall k :: i <= k < |t| ==> t[k] == t0[k]
    ensures FillFrom(t, exs, i, prog) == Outcome(Fill(t0, prog), None)
    decreases |exs| - i
  {
    var w := MaxLen(t0) - 1;
    if i == |exs| {
      FillByRow(t0, prog);
      assert t == Fill(t0, prog);
    } else {
      var e := exs[i];
      var filled := FillRow(t0[i], w, prog);
      StepFillsRow(t0[i], w, e, prog);
      if HasOutput(e) {
        assert FillFrom(t, exs, i, prog) == FillFrom(t, exs, i + 1, prog);
        assert t == t[i := filled];
        FillFromAligned(t0, t, exs, i + 1, prog);
      } else {
        assert FillFrom(t, exs, i, prog) == FillFrom(t[i := filled], exs, i + 1, prog);
        FillFromAligned(t0, t[i := filled], exs, i + 1, prog);
      }
    }
  }

  /** Filling a row that was already filled changes nothing. */
  lemma FilledAsStable(row: seq<string>, n: nat, prog: Program, out: seq<string>, out2: seq<string>)
    requires n > 0
    requires FilledAs(row, n, prog, out) && FilledAs(out, n, prog, out2)
    ensures out2 == out
  {
    if |out| == n {
      assert out == out[..n - 1] + [out[n - 1]];
      assert out2 == out2[..n - 1] + [out2[n - 1]];
    }
  }

  /**
   Filling is idempotent: the widest row keeps its length, and a filled
   row's last cell is already the program's output on the cells before it.
   */
  lemma FillIdempotent(t: Table, prog: Program)
    requires Fillable(t)
    ensures Fillable(Fill(t, prog))
    ensures Fill(Fill(t, prog), prog) == Fill(t, prog)
  {
    var r := Fill(t, prog);
    if |t| > 0 {
      var n := MaxLen(t);
      FillKeepsWidth(t, prog);
      var r2 := Fill(r, prog);
      forall i | 0 <= i < |t| ensures r2[i] == r[i] {
        FilledAsStable(t[i], n, prog, r[i], r2[i]);
      }
    }
  }

  /** Filling leaves the widest row's length unchanged. */
  lemma FillKeepsWidth(t: Table, prog: Program)
    requires |t| > 0 && MaxLen(t) > 0
    ensures MaxLen(Fill(t, prog)) == MaxLen(t)
  {
    var r := Fill(t, prog);
    var n := MaxLen(t);
    forall i | 0 <= i < |t| ensures |r[i]| <= n {
      assert FilledAs(t[i], n, prog, r[i]);
    }
    var j :| 0 <= j < |t| && |t[j]| == n;
    assert |r[j]| == n;
  }

  /**
   When a row too short to be read comes before an incomplete row, the
   source's loop writes the incomplete row's output over the short row and
   leaves the incomplete row unfilled; `Fill` fills the incomplete row. For
   instance `[["a", "b", "c"], ["x"], ["d", "e"]]`.
   */
  lemma FillAsWrittenMisplaces(t: Table, prog: Program)
    requires |t| == 3 && |t[0]| == 3 && t[0][2] != "" && |t[1]| == 1 && |t[2]| == 2
    ensures Fillable(t) && !NoRowDropped(t)
    ensures FillAsWritten(t, prog) == Outcome([t[0], [prog(t[2])], t[2]], None)
    ensures Fill(t, prog) == [t[0], t[1], t[2] + [prog(t[2])]]
    ensures FillAsWritten(t, prog).table != Fill(t, prog)
  {
    var exs := ShortRowExamples(t);
    var out := prog(t[2]);
    var r := [t[0], [out], t[2]];
    assert t[1 := [out]] == r;
    assert t[1][..0] + [out] == [out];
    assert Place(t[1], t[2], out) == Ok([out]);
    assert FillFrom(t, exs, 1, prog) == FillFrom(r, exs, 2, prog) == Outcome(r, None);
    assert FillFrom(t, exs, 0, prog) == Outcome(r, None);
    FilledRows(t, prog);
  }

  /**
   When the short row before an incomplete row is empty, the source's loop
   raises `IndexError` writing over its last cell, for instance on
   `[["a", "b", "c"], [], ["d", "e"]]`, before it has written any row;
   `Fill` never raises.
   */
  lemma FillAsWrittenRaises(t: Table, prog: Program)
    requires |t| == 3 && |t[0]| == 3 && t[0][2] != "" && |t[1]| == 0 && |t[2]| == 2
    ensures Fillable(t)
    ensures FillAsWritten(t, prog) == Outcome(t, Some(IndexError))
    ensures Fill(t, prog) == [t[0], t[1], t[2] + [prog(t[2])]]
  {
    var exs := ShortRowExamples(t);
    assert Place(t[1], t[2], prog(t[2])) == Err(IndexError);
    assert FillFrom(t, exs, 1, prog) == Outcome(t, Some(IndexError));
    assert FillFrom(t, exs, 0, prog) == Outcome(t, Some(IndexError));
    FilledRows(t, prog);
  }

  /**
   When the loop raises, the rows it wrote before stay written in the
   caller's table: on `[["a", "b", "c"], ["d", "e"], [], ["f", "g"]]` the
   output for `["d", "e"]` is appended to it, and then writing the output
   for `["f", "g"]` over the last cell of the empty row raises `IndexError`.
   */
  lemma FillAsWrittenRaisesAfterWriting(t: Table, prog: Program)
    requires |t| == 4 && |t[0]| == 3 && t[0][2] != "" && |t[1]| == 2 && |t[2]| == 0 && |t[3]| == 2
    ensures Fillable(t)
    ensures FillAsWritten(t, prog) == Outcome([t[0], t[1] + [prog(t[1])], t[2], t[3]], Some(IndexError))
  {
    var exs := DroppedRowExamples(t);
    var r := t[1 := t[1] + [prog(t[1])]];
    assert r == [t[0], t[1] + [prog(t[1])], t[2], t[3]];
    assert Place(r[2], t[3], prog(t[3])) == Err(IndexError);
    assert FillFrom(r, exs, 2, prog) == Outcome(r, Some(IndexError));
    assert Place(t[1], t[1], prog(t[1])) == Ok(t[1] + [prog(t[1])]);
    assert FillFrom(t, exs, 1, prog) == Outcome(r, Some(IndexError));
    assert FillFrom(t, exs, 0, prog) == Outcome(r, Some(IndexError));
  }

  /**
   The examples of a four-row table whose third row is empty: the first
   row's example with its output, then the input-only examples of the
   second and the fourth row.
   */
  lemma DroppedRowExamples(t: Table) returns (exs: seq<Example>)
    requires |t| == 4 && |t[0]| == 3 && t[0][2] != "" && |t[1]| == 2 && |t[2]| == 0 && |t[3]| == 2
    ensures Fillable(t)
    ensures exs == MakeExamples(AsLines(t))
    ensures exs == [Example(Some(t[0][..2]), Str(t[0][2])), Example(Some(t[1]), NoneCell), Example(Some(t[3]), NoneCell)]
  {
    assert MaxLen(t) == 3;
    TableExamples(t);
    exs := MakeExamples(AsLines(t));
    DroppedRowListExamples(t);
  }

  /** `DroppedRowExamples` once the table is known to take the list branch. */
  lemma DroppedRowListExamples(t: Table)
    requires |t| == 4 && |t[0]| == 3 && t[0][2] != "" && |t[1]| == 2 && |t[2]| == 0 && |t[3]| == 2
    ensures MaxLen(t) == 3
    ensures ListExamples(t) == [Example(Some(t[0][..2]), Str(t[0][2])), Example(Some(t[1]), NoneCell), Example(Some(t[3]), NoneCell)]
  {
    assert MaxLen(t) == 3;
    var f := RowClassifier(2);
    assert f(t[0]) == Some(Example(Some(t[0][..2]), Str(t[0][2])));
    assert f(t[1]) == Some(Example(Some(t[1]), NoneCell));
    assert f(t[2]).None?;
    assert f(t[3]) == Some(Example(Some(t[3]), NoneCell));
    assert t[..2][..1] == t[..1];
    assert t[..3][..2] == t[..2];
    assert FilterMap(t[..1], f) == [f(t[0]).value];
    assert FilterMap(t[..2], f) == [f(t[0]).value, f(t[1]).value];
    assert FilterMap(t[..3], f) == [f(t[0]).value, f(t[1]).value];
    assert t[..4] == t;
  }

  /** How `Fill` treats the three-row tables of the lemmas above and below. */
  lemma FilledRows(t: Table, prog: Program)
    requires |t| == 3 && |t[0]| == 3 && t[0][2] != "" && |t[2]| == 2
    requires |t[1]| < 2 || (|t[1]| == 3 && t[1][2] != "")
    ensures MaxLen(t) == 3
    ensures Fill(t, prog) == [t[0], t[1], t[2] + [prog(t[2])]]
  {
    assert MaxLen(t) == 3;
    var f := Fill(t, prog);
    assert FilledAs(t[0], 3, prog, f[0]);
    assert FilledAs(t[1], 3, prog, f[1]);
    assert FilledAs(t[2], 3, prog, f[2]);
    assert f[2] == f[2][..2] + [f[2][2]];
  }

  /**
   The examples of a three-row table whose middle row is too short to be
   read: the first row's example with its output, then the last row's
   input-only example.
   */
  lemma ShortRowExamples(t: Table) returns (exs: seq<Example>)
    requires |t| == 3 && |t[0]| == 3 && |t[1]| < 2 && |t[2]| == 2 && t[0][2] != ""
    ensures Fillable(t)
    ensures exs == MakeExamples(AsLines(t))
    ensures exs == [Example(Some(t[0][..2]), Str(t[0][2])), Example(Some(t[2]), NoneCell)]
  {
    assert MaxLen(t) == 3;
    TableExamples(t);
    exs := MakeExamples(AsLines(t));
    ShortRowListExamples(t);
  }

  /** `ShortRowExamples` once the table is known to take the list branch. */
  lemma ShortRowListExamples(t: Table)
    requires |t| == 3 && |t[0]| == 3 && |t[1]| < 2 && |t[2]| == 2 && t[0][2] != ""
    ensures MaxLen(t) == 3
    ensures ListExamples(t) == [Example(Some(t[0][..2]), Str(t[0][2])), Example(Some(t[2]), NoneCell)]
  {
    assert MaxLen(t) == 3;
    var f := RowClassifier(2);
    assert f(t[0]) == Some(Example(Some(t[0][..2]), Str(t[0][2])));
    assert f(t[1]).None?;
    assert f(t[2]) == Some(Example(Some(t[2]), NoneCell));
    assert t[..2][..1] == t[..1];
    assert FilterMap(t[..1], f) == [f(t[0]).value];
    assert FilterMap(t[..2], f) == [f(t[0]).value];
    assert t[..3] == t;
  }

  /**
   Two complete rows followed by a row one short, as in
   `[["Greta", "Hermansson", "Hermansson, G."], ["Kettil", "Hansson",
   "Hansson, K."], ["Myron", "Lampros"]]`: filling appends the program's
   output on the short row and leaves the complete rows alone.
   */
  lemma FillsLastShortRow(t: Table, prog: Program)
    requires |t| == 3 && |t[0]| == 3 && |t[1]| == 3 && |t[2]| == 2
    requires t[0][2] != "" && t[1][2] != ""
    ensures Fillable(t)
    ensures FillAsWritten(t, prog) == Outcome([t[0], t[1], t[2] + [prog(t[2])]], None)
  {
    FilledRows(t, prog);
    assert NoRowDropped(t);
    FillAsWrittenAgrees(t, prog);
  }
}
