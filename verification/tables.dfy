/**
 `make_examples`: turning a table, given either as `(input, output)`
 tuples or as rows of strings, into a list of examples.
 */
module Tables {
  import opened Wrappers
  import opened Examples

  /** One entry of the data handed to `make_examples`. */
  datatype Line = TupleLine(cells: seq<Cell>) | ListLine(cells: seq<Cell>)

  /** `all(isinstance(line, tuple) for line in data)`. */
  predicate AllTuples(data: seq<Line>)
  {
    forall i :: 0 <= i < |data| ==> data[i].TupleLine?
  }

  /** `all(all(isinstance(e, str) for e in line) for line in data)`. */
  predicate AllStrings(data: seq<Line>)
  {
    forall i :: 0 <= i < |data| ==> IsTextLine(data[i])
  }

  predicate IsTextLine(line: Line)
  {
    forall j :: 0 <= j < |line.cells| ==> line.cells[j].Str?
  }

  /** The text of a line whose cells are all strings. */
  function Texts(line: Line): (row: seq<string>)
    requires IsTextLine(line)
  {
    seq(|line.cells|, j requires 0 <= j < |line.cells| => line.cells[j].text)
  }

  /** The table as rows of strings, once the all-strings test has passed. */
  function Rows(data: seq<Line>): (rows: seq<seq<string>>)
    requires AllStrings(data)
  {
    seq(|data|, i requires 0 <= i < |data| => Texts(data[i]))
  }

  /** `max(map(len, rows))`, taken as 0 for no rows. */
  function MaxLen(rows: seq<seq<string>>): (n: nat)
    ensures forall i :: 0 <= i < |rows| ==> |rows[i]| <= n
    ensures |rows| > 0 ==> exists i :: 0 <= i < |rows| && |rows[i]| == n
    ensures |rows| == 0 ==> n == 0
  {
    if |rows| == 0 then 0
    else
      var m := MaxLen(rows[1..]);
      assert forall i :: 1 <= i < |rows| ==> rows[i] == rows[1..][i - 1];
      if |rows[0]| >= m then |rows[0]| else m
  }

  /** The list branch is taken: not all tuples, but all strings. */
  predicate ListBranch(data: seq<Line>)
  {
    !AllTuples(data) && AllStrings(data)
  }

  /**
   In the list branch the widest row is not empty; otherwise `line[-1]`
   raises on the first row, a case this model does not cover.
   */
  predicate WidthDefined(data: seq<Line>)
  {
    ListBranch(data) ==> MaxLen(Rows(data)) > 0
  }

  /** The example one tuple contributes, if any. */
  function TupleLineExample(line: Line): (r: Option<Example>)
  {
    if |line.cells| == 2 then Some(NewExample(line.cells[0], line.cells[1]))
    else if |line.cells| == 1 then Some(NewExample(line.cells[0], NoneCell))
    else None
  }

  /**
   The example one row of strings contributes when the widest row has
   `w + 1` cells. The source's `line[-1] != None` test always holds for a
   row of strings.
   */
  function RowExample(row: seq<string>, w: nat): (r: Option<Example>)
    ensures r.Some? ==> r.value.input.Some?
  {
    if |row| == w + 1 && row[w] != "" then
      Some(NewExample(StrList(row[..w]), Str(row[w])))
    else if |row| == w + 1 then Some(NewExample(StrList(row[..w]), NoneCell))
    else if |row| == w then Some(NewExample(StrList(row), NoneCell))
    else None
  }

  /** `RowExample` at a fixed width, as a value to map over the rows. */
  function RowClassifier(w: nat): (classify: seq<string> -> Option<Example>)
  {
    row => RowExample(row, w)
  }

  /** The values `f` keeps, in the order of `xs`: the source's append loop. */
  function FilterMap<A, B>(xs: seq<A>, f: A -> Option<B>): (ys: seq<B>)
    ensures |ys| <= |xs|
  {
    if |xs| == 0 then []
    else
      var m := |xs| - 1;
      var init := FilterMap(xs[..m], f);
      assert forall i :: 0 <= i < m ==> xs[..m][i] == xs[i];
      match f(xs[m])
      case Some(y) => init + [y]
      case None => init
  }

  /** The positions of `xs` at which `f` keeps something, ascending. */
  function Kept<A, B>(xs: seq<A>, f: A -> Option<B>): (ix: seq<nat>)
    ensures forall k :: 0 <= k < |ix| ==> ix[k] < |xs| && f(xs[ix[k]]).Some?
    ensures forall k, l :: 0 <= k < l < |ix| ==> ix[k] < ix[l]
    ensures forall i :: 0 <= i < |xs| && f(xs[i]).Some? ==> i in ix
  {
    if |xs| == 0 then []
    else
      var m := |xs| - 1;
      assert forall i :: 0 <= i < m ==> xs[..m][i] == xs[i];
      var init := Kept(xs[..m], f);
      if f(xs[m]).Some? then init + [m] else init
  }

  /** `FilterMap` is the values of `f` at the kept positions, in order. */
  lemma {:induction false} FilterMapAtKept<A, B>(xs: seq<A>, f: A -> Option<B>)
    ensures |FilterMap(xs, f)| == |Kept(xs, f)|
    ensures forall k :: 0 <= k < |Kept(xs, f)| ==>
      FilterMap(xs, f)[k] == f(xs[Kept(xs, f)[k]]).value
  {
    if |xs| > 0 {
      var m := |xs| - 1;
      FilterMapAtKept(xs[..m], f);
      var init := Kept(xs[..m], f);
      forall k | 0 <= k < |init| ensures xs[..m][init[k]] == xs[init[k]] {
      }
    }
  }

  /**
   Nothing is dropped exactly when `f` keeps every element, and then the
   results line up with the elements position by position.
   */
  lemma {:induction false} FilterMapKeepsAll<A, B>(xs: seq<A>, f: A -> Option<B>)
    ensures |FilterMap(xs, f)| == |xs| <==> forall i :: 0 <= i < |xs| ==> f(xs[i]).Some?
    ensures |FilterMap(xs, f)| == |xs| ==>
      forall i :: 0 <= i < |xs| ==> FilterMap(xs, f)[i] == f(xs[i]).value
  {
    if |xs| > 0 {
      var m := |xs| - 1;
      assert forall i :: 0 <= i < m ==> xs[..m][i] == xs[i];
      FilterMapKeepsAll(xs[..m], f);
      var init := FilterMap(xs[..m], f);
      if f(xs[m]).Some? {
        assert FilterMap(xs, f) == init + [f(xs[m]).value];
      } else {
        assert FilterMap(xs, f) == init;
      }
    }
  }

  /** The examples of a table of string rows whose widest row is not empty. */
  function ListExamples(rows: seq<seq<string>>): (exs: seq<Example>)
    requires MaxLen(rows) > 0
    ensures |exs| <= |rows|
    ensures forall k :: 0 <= k < |exs| ==> exs[k].input.Some?
  {
    var w := MaxLen(rows) - 1;
    var f := RowClassifier(w);
    FilterMapAtKept(rows, f);
    FilterMap(rows, f)
  }

  /** `make_examples(data)`. */
  function MakeExamples(data: seq<Line>): (exs: seq<Example>)
    requires WidthDefined(data)
    ensures |exs| <= |data|
    ensures |data| == 0 ==> exs == []
    ensures !AllTuples(data) && !AllStrings(data) ==> exs == []
    ensures ListBranch(data) ==> forall k :: 0 <= k < |exs| ==> exs[k].input.Some?
  {
    if AllTuples(data) then FilterMap(data, TupleLineExample)
    else if AllStrings(data) then ListExamples(Rows(data))
    else []
  }

  /**
   Tuple data is read row by row, in order: a pair gives an example with
   that input and output, a 1-tuple an input-only example, and tuples of
   any other length give nothing.
   */
  lemma TupleDataExamples(data: seq<Line>)
    requires AllTuples(data)
    ensures var exs := MakeExamples(data);
      var ix := Kept(data, TupleLineExample);
      && |exs| == |ix|
      && (forall k :: 0 <= k < |ix| ==>
            var cells := data[ix[k]].cells;
            || (|cells| == 2 && exs[k] == NewExample(cells[0], cells[1]))
            || (|cells| == 1 && exs[k] == NewExample(cells[0], NoneCell)))
      && (forall i :: 0 <= i < |data| ==> (i in ix <==> 1 <= |data[i].cells| <= 2))
  {
    FilterMapAtKept(data, TupleLineExample);
  }

  /**
   How the list branch reads one row when the widest row has `n` cells: a
   full row with a non-empty last cell is an example whose output is that
   cell, a full row with an empty last cell or a row one short is an
   input-only example over the first `n - 1` cells.
   */
  predicate ReadsRow(row: seq<string>, n: nat, e: Example)
    requires n > 0
  {
    || (|row| == n && row[n - 1] != "" && e == Example(Some(row[..n - 1]), Str(row[n - 1])))
    || (|row| == n && row[n - 1] == "" && e == Example(Some(row[..n - 1]), NoneCell))
    || (|row| + 1 == n && e == Example(Some(row), NoneCell))
  }

  /** A row is read exactly when it is full or one short, and as `ReadsRow` says. */
  lemma RowExampleReads(row: seq<string>, n: nat)
    requires n > 0
    ensures RowExample(row, n - 1).Some? <==> (|row| == n || |row| + 1 == n)
    ensures RowExample(row, n - 1).Some? ==> ReadsRow(row, n, RowExample(row, n - 1).value)
  {
  }

  /** The positions of the rows the list branch reads, ascending. */
  function ReadRows(rows: seq<seq<string>>): (ix: seq<nat>)
    requires MaxLen(rows) > 0
  {
    Kept(rows, RowClassifier(MaxLen(rows) - 1))
  }

  /**
   Rows of strings are read in order against the widest row's length `n`:
   each read row gives the example `ReadsRow` describes, and exactly the
   rows with at least `n - 1` cells are read.
   */
  lemma ListDataExamples(data: seq<Line>)
    requires ListBranch(data) && WidthDefined(data)
    ensures var rows := Rows(data);
      var exs := MakeExamples(data);
      var ix := ReadRows(rows);
      && |exs| == |ix|
      && (forall k :: 0 <= k < |ix| ==> ReadsRow(rows[ix[k]], MaxLen(rows), exs[k]))
      && (forall i :: 0 <= i < |rows| ==> (i in ix <==> |rows[i]| + 1 >= MaxLen(rows)))
  {
    var rows := Rows(data);
    assert MakeExamples(data) == ListExamples(rows);
    ListExamplesOrdered(rows);
    ReadRowsExactly(rows);
  }

  /** The examples of string rows are the read rows' examples, in order. */
  lemma ListExamplesOrdered(rows: seq<seq<string>>)
    requires MaxLen(rows) > 0
    ensures var exs := ListExamples(rows);
      var ix := ReadRows(rows);
      && |exs| == |ix|
      && (forall k :: 0 <= k < |ix| ==> ReadsRow(rows[ix[k]], MaxLen(rows), exs[k]))
  {
    var n := MaxLen(rows);
    var f := RowClassifier(n - 1);
    var exs := ListExamples(rows);
    var ix := ReadRows(rows);
    FilterMapAtKept(rows, f);
    forall k | 0 <= k < |ix| ensures ReadsRow(rows[ix[k]], n, exs[k]) {
      RowExampleReads(rows[ix[k]], n);
    }
  }

  /** Exactly the rows with at least `n - 1` cells are read. */
  lemma ReadRowsExactly(rows: seq<seq<string>>)
    requires MaxLen(rows) > 0
    ensures forall i :: 0 <= i < |rows| ==> (i in ReadRows(rows) <==> |rows[i]| + 1 >= MaxLen(rows))
  {
    var n := MaxLen(rows);
    var f := RowClassifier(n - 1);
    var ix := ReadRows(rows);
    forall i | 0 <= i < |rows| ensures i in ix <==> |rows[i]| + 1 >= n {
      RowExampleReads(rows[i], n);
      assert f(rows[i]) == RowExample(rows[i], n - 1);
      if i in ix {
        var k :| 0 <= k < |ix| && ix[k] == i;
      }
    }
  }

  /** No row is shorter than one less than the widest row. */
  predicate NoRowDropped(rows: seq<seq<string>>)
  {
    forall i :: 0 <= i < |rows| ==> |rows[i]| + 1 >= MaxLen(rows)
  }

  /**
   A table of rows gives one example per row exactly when no row is too
   short to be read, and then example `i` comes from row `i`.
   */
  lemma ListExamplesAligned(rows: seq<seq<string>>)
    requires MaxLen(rows) > 0
    ensures |ListExamples(rows)| == |rows| <==> NoRowDropped(rows)
    ensures NoRowDropped(rows) ==> forall i :: 0 <= i < |rows| ==>
      RowExample(rows[i], MaxLen(rows) - 1) == Some(ListExamples(rows)[i])
  {
    var f := RowClassifier(MaxLen(rows) - 1);
    ReadsEveryRow(rows);
    FilterMapKeepsAll(rows, f);
  }

  /** Every row is read exactly when no row is shorter than `n - 1`. */
  lemma ReadsEveryRow(rows: seq<seq<string>>)
    requires MaxLen(rows) > 0
    ensures var f := RowClassifier(MaxLen(rows) - 1);
      && (forall i :: 0 <= i < |rows| ==> f(rows[i]) == RowExample(rows[i], MaxLen(rows) - 1))
      && ((forall i :: 0 <= i < |rows| ==> f(rows[i]).Some?) <==> NoRowDropped(rows))
  {
    var n := MaxLen(rows);
    forall i | 0 <= i < |rows|
      ensures RowExample(rows[i], n - 1).Some? <==> |rows[i]| + 1 >= n
    {
      RowExampleReads(rows[i], n);
    }
  }

  /** Two complete three-cell rows give two examples, both with outputs. */
  lemma CompleteRowsExample()
    ensures var data := [
        ListLine([Str("Greta"), Str("Hermansson"), Str("Hermansson, G.")]),
        ListLine([Str("Kettil"), Str("Hansson"), Str("Hansson, K.")])];
      var exs := MakeExamples(data);
      |exs| == 2 && HasOutput(exs[0]) && HasOutput(exs[1])
  {
    TwoRowExamples([
      ListLine([Str("Greta"), Str("Hermansson"), Str("Hermansson, G.")]),
      ListLine([Str("Kettil"), Str("Hansson"), Str("Hansson, K.")])]);
  }

  /** A complete row followed by a row one short gives an example and an input-only example. */
  lemma PartialRowExample()
    ensures var data := [
        ListLine([Str("Greta"), Str("Hermansson"), Str("Hermansson, G.")]),
        ListLine([Str("Kettil"), Str("Hansson")])];
      var exs := MakeExamples(data);
      |exs| == 2 && HasOutput(exs[0]) && !HasOutput(exs[1])
  {
    TwoRowExamples([
      ListLine([Str("Greta"), Str("Hermansson"), Str("Hermansson, G.")]),
      ListLine([Str("Kettil"), Str("Hansson")])]);
  }

  /**
   Two rows of strings, the first complete: both are read, the first with
   an output, the second with one exactly when it is complete too.
   */
  lemma TwoRowExamples(data: seq<Line>)
    requires |data| == 2 && data[0].ListLine? && IsTextLine(data[0]) && IsTextLine(data[1])
    requires |data[0].cells| == 3 && data[0].cells[2] != Str("")
    requires |data[1].cells| == 3 || |data[1].cells| == 2
    ensures WidthDefined(data)
    ensures var exs := MakeExamples(data);
      && |exs| == 2 && HasOutput(exs[0])
      && (HasOutput(exs[1]) <==> |data[1].cells| == 3 && data[1].cells[2] != Str(""))
  {
    assert !AllTuples(data);
    var rows := Rows(data);
    assert MaxLen(rows) == 3;
    assert NoRowDropped(rows);
    ListExamplesAligned(rows);
    var exs := MakeExamples(data);
    assert exs == ListExamples(rows);
    assert data[0].cells[2] == Str(rows[0][2]);
    RowExampleReads(rows[0], 3);
    RowExampleReads(rows[1], 3);
    if |data[1].cells| == 3 {
      assert data[1].cells[2] == Str(rows[1][2]);
    }
  }
}
