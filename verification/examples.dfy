/**
 The `Example` class of the text-transformation wrapper: one input row,
 optionally paired with the output it should be transformed to.
 */
module Examples {
  import opened Wrappers

  /** A Python value that can stand in a table cell or a tuple slot. */
  datatype Cell =
    | Str(text: string)          // a `str`
    | StrList(items: seq<string>) // a list of `str`
    | NoneCell                    // `None`

  /**
   An example. `input` is `None` only when the constructor was handed
   `None`; `output` is whatever was handed in, `NoneCell` for "no output".
   */
  datatype Example = Example(input: Option<seq<string>>, output: Cell)

  /** `Example(I, O)`: a bare string input becomes a one-cell row. */
  function NewExample(i: Cell, o: Cell): (e: Example)
    ensures i.Str? ==> e.input == Some([i.text])
    ensures i.StrList? ==> e.input == Some(i.items)
    ensures i.NoneCell? ==> e.input.None?
    ensures e.output == o
    ensures HasOutput(e) <==> !o.NoneCell?
  {
    match i
    case Str(s) => Example(Some([s]), o)
    case StrList(xs) => Example(Some(xs), o)
    case NoneCell => Example(None, o)
  }

  /** `has_output`: the output is not `None`. */
  predicate HasOutput(e: Example)
  {
    !e.output.NoneCell?
  }

  /** `sep.join(parts)`. */
  function Join(sep: string, parts: seq<string>): (joined: string)
  {
    if |parts| == 0 then ""
    else if |parts| == 1 then parts[0]
    else parts[0] + sep + Join(sep, parts[1..])
  }

  /** Splits a string at every `", "`, the inverse of joining with `", "`. */
  function SplitComma(s: string): (parts: seq<string>)
    ensures |parts| >= 1
    decreases |s|
  {
    if |s| == 0 then [""]
    else if |s| >= 2 && s[0] == ',' && s[1] == ' ' then [""] + SplitComma(s[2..])
    else
      var rest := SplitComma(s[1..]);
      [[s[0]] + rest[0]] + rest[1..]
  }

  /** `str(o)` for the values a cell can hold. */
  function OutputText(o: Cell): (text: string)
  {
    match o
    case Str(s) => s
    case NoneCell => "None"
    case StrList(xs) => "[" + Join(", ", Quoted(xs)) + "]"
  }

  /** Each string wrapped in single quotes, as `repr` shows plain text. */
  function Quoted(xs: seq<string>): (qs: seq<string>)
  {
    seq(|xs|, k requires 0 <= k < |xs| => "'" + xs[k] + "'")
  }

  /** `__str__`: `"a, b -> out"`; joining a `None` input raises. */
  function Render(e: Example): (r: Result<string>)
    ensures r.Err? <==> e.input.None?
    ensures r.Err? ==> r.error == TypeError
    ensures r.Ok? ==> |r.value| >= 4 + |OutputText(e.output)|
    ensures r.Ok? ==> r.value[|r.value| - |OutputText(e.output)| - 4..] == " -> " + OutputText(e.output)
  {
    match e.input
    case None => Err(TypeError)
    case Some(row) =>
      var head := Join(", ", row);
      var text := head + " -> " + OutputText(e.output);
      assert text[|head|..] == " -> " + OutputText(e.output);
      Ok(text)
  }

  predicate NoComma(parts: seq<string>)
  {
    forall k :: 0 <= k < |parts| ==> ',' !in parts[k]
  }

  /** Splitting a comma-free prefix only extends the first part. */
  lemma {:induction false} SplitCommaFreePrefix(a: string, t: string)
    requires ',' !in a
    ensures SplitComma(a + t) == [a + SplitComma(t)[0]] + SplitComma(t)[1..]
    decreases |a|
  {
    var p := SplitComma(t);
    if |a| == 0 {
      assert a + t == t;
      assert a + p[0] == p[0];
      assert p == [p[0]] + p[1..];
    } else {
      assert (a + t)[0] == a[0];
      assert (a + t)[1..] == a[1..] + t;
      SplitCommaFreePrefix(a[1..], t);
      assert [a[0]] + (a[1..] + SplitComma(t)[0]) == a + SplitComma(t)[0];
    }
  }

  /** Joining comma-free cells with `", "` can be undone by splitting. */
  lemma {:induction false} SplitJoinRoundTrip(parts: seq<string>)
    requires |parts| >= 1
    requires NoComma(parts)
    ensures SplitComma(Join(", ", parts)) == parts
    decreases |parts|
  {
    if |parts| == 1 {
      SplitCommaFreePrefix(parts[0], "");
      assert parts[0] + "" == parts[0];
    } else {
      var tail := Join(", ", parts[1..]);
      assert NoComma(parts[1..]) by {
        forall k | 0 <= k < |parts| - 1 ensures ',' !in parts[1..][k] {
          assert parts[1..][k] == parts[k + 1];
        }
      }
      SplitJoinRoundTrip(parts[1..]);
      assert ',' !in parts[0];
      assert Join(", ", parts) == parts[0] + (", " + tail);
      SplitCommaFreePrefix(parts[0], ", " + tail);
      assert (", " + tail)[2..] == tail;
      var q := SplitComma(", " + tail);
      assert q == [""] + parts[1..];
      assert q[0] == "" && q[1..] == parts[1..];
      assert parts[0] + "" == parts[0];
      assert parts == [parts[0]] + parts[1..];
    }
  }

  /**
   The text of an example ends in `" -> "` and the output, and what comes
   before splits back into the input row when no cell holds a comma.
   */
  lemma RenderRecoversInput(e: Example)
    requires e.input.Some? && |e.input.value| >= 1 && NoComma(e.input.value)
    ensures Render(e).Ok?
    ensures var r := Render(e).value;
      var k := |r| - |OutputText(e.output)| - 4;
      0 <= k && r[k..] == " -> " + OutputText(e.output) && SplitComma(r[..k]) == e.input.value
  {
    var row := e.input.value;
    var j := Join(", ", row);
    var r := Render(e).value;
    assert r == j + (" -> " + OutputText(e.output));
    assert r[..|j|] == j;
    SplitJoinRoundTrip(row);
  }
}
