# pyprose example building and FlashFill table filling, in Dafny

pyprose wraps the PROSE program-synthesis framework for Python. Almost all of
it hands work to the PROSE .NET libraries. The part with logic of its own is
the example-building layer of `pyprose/transformation/text.py`, and this
project models that layer:

- `Example`: one input row, optionally paired with an output. It has a
  constructor that turns a bare string into a one-cell row, `has_output`,
  and `__str__` (module `Examples`, file `examples.dfy`).
- `make_examples`: turns a table into examples. The table is either a list
  of `(input, output)` / `(input,)` tuples or a list of rows of strings
  whose widest row is the "complete" width (module `Tables`, file
  `tables.dfy`).
- the filling loop of `flashfill`: each input-only example is run through
  the learned program, and the output is written back into the table
  (module `FlashFill`, file `flashfill.dfy`).

Python's dynamic values are a datatype. A cell is `Str`, `StrList` or
`NoneCell`. A table entry is a `TupleLine` or a `ListLine` of cells.
`make_examples` is a filter-map over the lines, and the model says
explicitly where each example comes from: `Kept`/`ReadRows` give the
ascending positions of the lines that produce an example. The program
learned by PROSE is a parameter, `prog: seq<string> -> string`. `flashfill`
changes the table in place; the model returns the table as the loop leaves
it, together with the exception the loop raised, if any (`FlashFill.Outcome`).

`Wrappers` (`wrappers.dfy`) holds `Option`, `Result` and the two Python
exceptions the modelled code can raise, `IndexError` and `TypeError`.

## Model

| member | source | states |
|---|---|---|
| Examples.NewExample | pyprose/transformation/text.py:34-47 | A bare string input becomes a one-cell row. A list input is kept as given, and a `None` input stays `None`. The output is stored as given, and the example has an output (`Examples.HasOutput`, the model of `has_output` at lines 57-58) exactly when that output is not `None`. |
| Examples.Render | pyprose/transformation/text.py:49-50 | Rendering fails with `TypeError` exactly when the input is `None`. Otherwise, for every input row, the text ends in `" -> "` followed by the output's text (`str` of the output). |
| Examples.SplitJoinRoundTrip | pyprose/transformation/text.py:50 | Joining a non-empty row of comma-free cells with `", "` is undone by splitting at `", "`. |
| Examples.RenderRecoversInput | pyprose/transformation/text.py:49-50 | When the input row is non-empty and no cell contains a comma, rendering succeeds and the text before the final `" -> "` and output splits back at `", "` into exactly the input row. |
| Tables.MaxLen | pyprose/transformation/text.py:109 | `n` is at least the length of every row and equals the length of some row (0 for no rows). |
| Tables.MakeExamples | pyprose/transformation/text.py:97-118 | There are never more examples than lines. Empty data gives no examples. Data that is neither all tuples nor all strings gives no examples. In the list branch every example has an input row. |
| Tables.FilterMapAtKept | pyprose/transformation/text.py:97-118 | The examples are the per-line conversions at the kept positions, in the order of the lines (order preservation for both branches). |
| Tables.FilterMapKeepsAll | pyprose/transformation/text.py:97-118 | No line is skipped exactly when the result is as long as the data. In that case example `i` comes from line `i`. |
| Tables.TupleDataExamples | pyprose/transformation/text.py:100-105 | This states the per-tuple rule `Tables.TupleLineExample`. For tuple data, in order: a 2-tuple gives `Example(line[0], line[1])` and a 1-tuple gives `Example(line[0])`. A tuple is used exactly when it has 1 or 2 entries. |
| Tables.RowExampleReads | pyprose/transformation/text.py:110-116 | This states the per-row rule `Tables.RowExample`. A row of strings gives an example exactly when its length is `n` or `n - 1`, and the example is the one `ReadsRow` describes. |
| Tables.ListDataExamples | pyprose/transformation/text.py:108-116 | For string rows, in order: a full row with a non-empty last cell gives input = first `n - 1` cells and output = last cell. A full row with an empty last cell gives an input-only example of its first `n - 1` cells. A row one short gives an input-only example of the whole row. A row is read exactly when it has at least `n - 1` cells. |
| Tables.ListExamplesOrdered | pyprose/transformation/text.py:109-116 | The same as `ListDataExamples`, for rows already known to be strings: one example per read row, in order, each as `ReadsRow` says. |
| Tables.ReadRowsExactly | pyprose/transformation/text.py:110-116 | The rows that are read are exactly those with at least `n - 1` cells. All others are dropped. |
| Tables.ListExamplesAligned | pyprose/transformation/text.py:108-116 | String rows give one example per row exactly when no row is shorter than `n - 1`. In that case example `i` is row `i`'s example. |
| Tables.CompleteRowsExample | tests/test_transformation_text.py:43-52 | Two complete three-cell rows give two examples, both with outputs. |
| Tables.PartialRowExample | tests/test_transformation_text.py:54-62 | A complete row followed by a two-cell row gives two examples. The first has an output and the second does not. |
| Tables.TwoRowExamples | tests/test_transformation_text.py:43-62 | For any two rows of strings where the first is complete and the second has three or two cells, both rows give examples. The first has an output, and the second has one exactly when it is complete too. |
| FlashFill.TableExamples | pyprose/transformation/text.py:166 | A non-empty table of strings takes the list branch of `make_examples`, and an empty table gives no examples. |
| FlashFill.Place | pyprose/transformation/text.py:171-175 | Writing an output into a row raises `IndexError` exactly when the row is not as long as the input and is empty. Otherwise the row ends in the output: a row as long as the input grows by one cell, any other row keeps its length and has its last cell replaced, and every cell before the last one is kept. |
| FlashFill.FillFrom | pyprose/transformation/text.py:168-175 | The loop over the examples keeps the number of rows, raises nothing but `IndexError`, and never touches a row before its starting position or at a position past the last example. |
| FlashFill.FillAsWritten | pyprose/transformation/text.py:166-176 | `flashfill` as written keeps the number of rows and raises nothing but `IndexError`. |
| FlashFill.Fill | pyprose/transformation/text.py:166-176 | Filling keeps the number of rows. A full row with a non-empty last cell is unchanged, and so is a row too short to be read. A full row with an empty last cell keeps its first `n - 1` cells and gets `prog` of them as its last cell. A row one short gets `prog` of itself appended. Every read row ends with `n` cells. |
| FlashFill.FillAsWrittenAgrees | pyprose/transformation/text.py:166-176 | When every row has `n` or `n - 1` cells, the source's loop raises nothing and leaves the table exactly as `Fill` fills it. |
| FlashFill.FillIdempotent | pyprose/transformation/text.py:166-176 | Filling a filled table again with the same `prog` changes nothing. |
| FlashFill.FillKeepsWidth | pyprose/transformation/text.py:168-175 | Filling does not change the length of the widest row. |
| FlashFill.FillAsWrittenMisplaces | pyprose/transformation/text.py:168-175 | If a row of length 1 sits between a complete row and a row one short, the source writes the short row's output over the 1-cell row and leaves the short row unfilled. The result differs from `Fill`. |
| FlashFill.FillAsWrittenRaises | pyprose/transformation/text.py:168-175 | If that middle row is empty, the source raises `IndexError` before writing any row, while `Fill` fills the last row. |
| FlashFill.FillAsWrittenRaisesAfterWriting | pyprose/transformation/text.py:168-175 | On a complete row, a row one short, an empty row and another row one short, the source appends the output to the second row and then raises `IndexError` at the empty row. The caller's table keeps the second row's write, and the last row stays unfilled. |
| FlashFill.FillsLastShortRow | tests/test_transformation_text.py:65-72 | Two complete rows followed by a two-cell row: the complete rows are unchanged and the short row gets `prog` of itself as its third cell. |

## Findings

| source | as written | input that shows it | evidently intended | confidence | as-written member | corrected member |
|---|---|---|---|---|---|---|
| pyprose/transformation/text.py:168-175 | The output of example `i` is written into `data[i]`, the row at the example's position in the list `make_examples` returned. `make_examples` drops rows shorter than `n - 1`, so after a dropped row the positions no longer match. | `[["a", "b", "c"], ["x"], ["d", "e"]]`: the output for `["d", "e"]` overwrites `["x"]`, and `["d", "e"]` stays unfilled. With `[]` in the middle, `line[-1] = output` raises `IndexError`. | Each incomplete row is filled in place, as the docstring says, and rows too short to be read are left alone. | medium, not executed | FlashFill.FillAsWritten (exhibited by FlashFill.FillAsWrittenMisplaces, FlashFill.FillAsWrittenRaises and FlashFill.FillAsWrittenRaisesAfterWriting) | FlashFill.Fill (FlashFill.FillAsWrittenAgrees shows the two coincide when no row is dropped; FlashFill.FillIdempotent) |

When every row of the table is a distinct list object, the in-place writes
have no aliasing effect. For a row one short, the example's input is the row
object itself, so appending to the row also changes that example's input.
The input is read only before the append, though, and the loop only writes
row `i` while handling example `i`. No example that comes later reads a row
the loop has already written, so the pure model agrees with the in-place
code. This does not hold when the same list object sits at two positions
(see "## Left out").

## Left out

- `learn_program`, `learn_programs`, `_make_session`, `_run_program`, `Example.to_prose` and `_to_python` call into PROSE (`Session`, `Program.Run`, `PythonTranslator`). They are left out, and the learned program is the parameter `prog`.
- `learn_program` returning `None` (no program found) is not modelled. In that case `flashfill` raises `TypeError` as soon as a row needs filling. The model always has a program.
- `Program.Run` returning `None` when the program fails on a row is not modelled. `prog` always returns a string.
- `make_examples` raises `IndexError` when the data takes the list branch and every row is empty. `Tables.MakeExamples` excludes this with `WidthDefined`, and `FlashFill.Fill`/`FillAsWritten` exclude it with `Fillable`.
- Some data shapes are not modelled: rows that are bare strings or other iterables (a `str` row passes the all-strings test one character at a time), cells of other Python types (numbers, nested tuples), and outputs of types other than `str`, list of `str` or `None`.
- The test `line[-1] != None` at line 111 is dropped from the model, because it can never fail on a row of strings. `Tables.RowExample` tests only the length and whether the last cell is empty.
- The rows of the table are assumed to be distinct list objects. When the same list sits at two positions, `flashfill` appends to it once per position: with `r = ["a", "b"]`, filling `[["x", "y", "z"], r, r]` turns both rows into the four-cell list `["a", "b", o1, o2]`. The model gives each position its own row and fills each once.
- Examples.Render: the part of the text before `" -> "` is pinned down only for non-empty rows whose cells contain no comma (`RenderRecoversInput`). For an empty row, or a row with a comma in some cell, the model states only how the text ends.
- Examples.OutputText: `str()` of a list output is rendered as `['a', 'b']`. Python's `repr` quote choice and escaping of quotes, backslashes and non-printable characters are not modelled.
- FlashFill.FillAsWritten: the contract itself states only that the number of rows is kept and that only `IndexError` can be raised. Its behaviour is stated by `FillAsWrittenAgrees`, `FillAsWrittenMisplaces`, `FillAsWrittenRaises` and `FillAsWrittenRaisesAfterWriting`.
- FlashFill.FillFrom: the contract states the row count, the possible exception and the rows the loop never touches, but not what it writes into the others. That is stated through `FillAsWritten` by the same four lemmas.
- `flashfill` changes the caller's table in place and returns it. The model returns the table as the loop leaves it, in an `Outcome` together with the exception raised, if any. When the loop raises, the `Outcome` still holds the rows written before the failing row, which is what the caller's table holds.
- `TextTransformationProgram.uses_columns` and `ProseProgram.score` only read PROSE objects.
- Left out as glue around foreign code, with no logic of their own: `pyprose/dependencies` (NuGet cache search, copying DLLs), `pyprose/matching/text.py`, `pyprose/split/text.py`, `pyprose/core.py`, the docs configuration and `setup.py`.
- The synthesis results asserted in `tests/test_transformation_text.py:10-40` describe the PROSE engine, not this code.
