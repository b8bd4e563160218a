# Blackboard question-pool generators, modelled in Dafny

Two small scripts write question pools that can be uploaded to Blackboard
Learn. Each pool is a text file with one question per line and tab-separated
fields:

- `FIB_PLUS.py` writes "fill in multiple blanks" items:
  `FIB_PLUS\t<question>\t` is followed, for each blank, by
  `<letter>\t<answer>\t…\t\t`, and the line ends with `\n`. Every blank's
  tag (`[A]`, `[B]`, …) has to occur in the question. The driver asks for
  the English spellings of four numbers shown in an HTML table.
- `TRUE_FALSE.py` writes true/false items, `TF\t<question>\t<true|false>\n`.
  The driver hands iteration `i` the dataset `reads_<i:03>_R1.fastq.tgz`.

Both scripts share two HTML helpers. `htmlFormatCode` wraps text in a styled
`<span>`. `html2dArrayToTable` renders a list of rows as a `<table>`. The two
copies are the same text, so they are modelled once, in module `Html`.

Files:

- `wrappers.dfy`: `Option` and `Result`.
- `text.dfy`: Python string operations the scripts use. These are
  `str.replace('\n', '<br>')`, `sep.join`, `t in s`, `str(n)` and
  `f"{n:03}"`. It also holds `Split`, which only the readers below use, a
  count of the occurrences of a pattern, and the predicate `Plain` (no
  character below the space, so no tab and no line break).
- `html.dfy`: the two HTML helpers. The table renderer is an imperative
  method over the caller's mutable rows (`seq<array<string>>`), proved
  against the function `TableHtml`.
- `fib_plus.dfy`: the FIB_PLUS serialiser, as a method with its loop and as
  the function it is proved against. It also holds a reader for the line
  format and the deterministic part of the pool driver.
- `true_false.dfy`: the TF serialiser, a reader for it, and the pool driver.

Three points where the code may surprise a reader; the model follows the
code:

- The FIB_PLUS alphabet is `range(65, 90)`, so it has 25 letters, `A` to
  `Y`. It does not have 26. A 26th blank makes `alphabet[25]` raise, and
  the model returns `Err(AlphabetExhausted(25))`.
- The FIB_PLUS docstring (`FIB_PLUS.py`, line 13) says that the format allows
  at most 10 variables. The code does not enforce that limit, and neither
  does the model.
- `bbTrueFalseFormat` copies the question verbatim. It does not replace
  line breaks. `TrueFalse.TrueFalseRoundTrip` shows that a question with a
  line break then does not read back.

The readers (`FibPlus.DecodeFibPlus`, `TrueFalse.DecodeTrueFalse`) are not
part of the scripts. `DecodeFibPlus` reads the line `bbFibPlusFormat` builds
(`FIB_PLUS.py`, lines 102-115): the docstring's fields, with each group closed
by an empty field and one more empty field before the line break. It rejects
the docstring's example (line 7), whose last group is not closed
(`FibPlus.UnclosedGroupRejected`). `DecodeTrueFalse` reads the
line that `bbTrueFalseFormat` builds (`TRUE_FALSE.py`, line 90); no docstring
describes that line. The round-trip lemmas tie each serialiser to its reader.

## Model

| member | source | states |
|---|---|---|
| Html.CodeSpanRoundTrip | Pools-FibQuestionGenerator/FIB_PLUS.py:37 | the span's text can be cut back out of `htmlFormatCode(txt)`, giving exactly `txt` |
| Html.CodeSpanInjective | Pools-TrueFalseGenerator/TRUE_FALSE.py:29 | `htmlFormatCode(a) == htmlFormatCode(b)` exactly when `a == b` |
| Html.CodeSpanPlain | Pools-FibQuestionGenerator/FIB_PLUS.py:37 | wrapping text with no character below the space in the span adds no such character |
| Html.HtmlTable | Pools-FibQuestionGenerator/FIB_PLUS.py:40-73 | the loop returns `TableHtml` of the rows as they were on entry; afterwards every row is unchanged, except that with `firstColumnBold` the first cell of each row after the first has been bolded in place |
| Html.ShowRow | Pools-FibQuestionGenerator/FIB_PLUS.py:61-68 | one pass of the outer loop yields the row as shown; the bold header is a fresh list, the first-column rewrite changes the caller's row and no other row |
| Html.TableFraming | Pools-TrueFalseGenerator/TRUE_FALSE.py:51-64 | the table starts with the fixed `<table style=…>` tag and ends with `</table>` |
| Html.TableCells | Pools-FibQuestionGenerator/FIB_PLUS.py:59-72 | the table is the opening tag, one `<tr>` per row in input order, then `</table>` |
| Html.ShownCells | Pools-FibQuestionGenerator/FIB_PLUS.py:63-68 | a bold header wraps every cell of row 0 in `<b>…</b>`; a bold first column wraps cell 0 of every later row once; all other cells are shown as given |
| Html.RowsHtmlAt | Pools-FibQuestionGenerator/FIB_PLUS.py:71 | row `k` is rendered after rows before it and before rows after it |
| Html.CellsHtmlAt | Pools-FibQuestionGenerator/FIB_PLUS.py:70 | cell `k` is rendered as `<td>…</td>` between the cells before and after it |
| Html.TableContainsCell | Pools-FibQuestionGenerator/FIB_PLUS.py:59-72 | every cell, bolded where the flags say so, occurs in the table |
| Html.TableAvoids | Pools-FibQuestionGenerator/FIB_PLUS.py:59-72 | a character in no cell and in no markup tag does not occur in the table |
| Html.TableOccurrences | Pools-FibQuestionGenerator/FIB_PLUS.py:59-72 | a short pattern whose first character no markup holds occurs in the table exactly as often as in its cells as shown, for cells that do not end near that character |
| Html.GridSingle | Pools-FibQuestionGenerator/FIB_PLUS.py:60-71 | when one cell holds a pattern once and no other cell holds it, the rows hold it once in all |
| Html.RowsAfterCells | Pools-FibQuestionGenerator/FIB_PLUS.py:63-68 | what rendering leaves in the caller's rows: the same number of rows, row 0 untouched, nothing changed without `firstColumnBold`, and with it cell 0 of each later non-empty row bolded once and every other cell kept |
| Html.CodeSpan | Pools-FibQuestionGenerator/FIB_PLUS.py:37 | computes `htmlFormatCode(txt)`: the fixed `<span style=…>` tag, `txt`, then `</span>` (the same text as `TRUE_FALSE.py`, line 29) |
| Html.TableHtml | Pools-FibQuestionGenerator/FIB_PLUS.py:59-73 | computes the table `html2dArrayToTable` returns: the opening tag, each row as shown, then `</table>` |
| Text.Join | Pools-FibQuestionGenerator/FIB_PLUS.py:111 | computes `sep.join(parts)`: the parts in order, with one separator between neighbours |
| Text.Format03 | Pools-TrueFalseGenerator/TRUE_FALSE.py:101 | computes `f"{n:03}"`: `str(n)`, padded on the left with zeros to three characters |
| Text.Contains | Pools-FibQuestionGenerator/FIB_PLUS.py:107 | the Python test `t in s`: `t` starts at some offset of `s` |
| Text.OccursOnce | Pools-FibQuestionGenerator/FIB_PLUS.py:107 | a pattern counted once is found, and at one offset only |
| Text.ReplaceNewlines | Pools-FibQuestionGenerator/FIB_PLUS.py:96 | the result has no `\n`; it equals the input when the input has none; it is 3 characters longer per line break; every other character of the input is kept |
| Text.SplitJoin | Pools-FibQuestionGenerator/FIB_PLUS.py:6-14 | splitting the tab-join of fields that hold no tab gives back the fields |
| Text.JoinSplit | Pools-FibQuestionGenerator/FIB_PLUS.py:111 | joining the fields of a split gives back the string |
| Text.SplitCount | Pools-TrueFalseGenerator/TRUE_FALSE.py:90 | a split has one more field than the string has separators |
| Text.DecimalString | Pools-FibQuestionGenerator/FIB_PLUS.py:131 | `str(n)` is a non-empty run of digits with no leading zero, one digit below 10 and at most three below 1000 |
| Text.DecimalRoundTrip | Pools-FibQuestionGenerator/FIB_PLUS.py:131 | the digits of `str(n)` denote `n` |
| Text.Format03RoundTrip | Pools-TrueFalseGenerator/TRUE_FALSE.py:101 | below 1000, `f"{n:03}"` is exactly three digits that denote `n` |
| Text.Format03Injective | Pools-TrueFalseGenerator/TRUE_FALSE.py:101 | below 1000, distinct numbers pad to distinct strings |
| Text.Format03Digits | Pools-TrueFalseGenerator/TRUE_FALSE.py:101 | `f"{n:03}"` has at least three characters, all digits |
| FibPlus.AlphabetLetters | Pools-FibQuestionGenerator/FIB_PLUS.py:93 | the blank letters are `A` to `Y`, strictly increasing, and `Z` is not one of them |
| FibPlus.FirstFailure | Pools-FibQuestionGenerator/FIB_PLUS.py:107-109 | no check fails exactly when there are at most 25 blanks and every tag occurs; otherwise it names the first blank whose tag is missing or the blank that runs past the alphabet |
| FibPlus.FibPlusItem | Pools-FibQuestionGenerator/FIB_PLUS.py:76-117 | it succeeds exactly when there are at most 25 blanks and each blank's tag occurs in the question after line breaks are replaced; a failure names the first blank that fails its check |
| FibPlus.Letter | Pools-FibQuestionGenerator/FIB_PLUS.py:93 | computes `alphabet[i]`, that is `chr(65 + i)`, for `i` below 25 |
| FibPlus.FibPlusLine | Pools-FibQuestionGenerator/FIB_PLUS.py:102-115 | computes the line built when no check fails: `FIB_PLUS`, the question, the blanks' fields, then `\n` |
| FibPlus.FibPlusFormat | Pools-FibQuestionGenerator/FIB_PLUS.py:93-117 | the loop returns what `FibPlusItem` returns, raising (an `Err`) at the same blank |
| FibPlus.TakeAnswersRoundTrip | Pools-FibQuestionGenerator/FIB_PLUS.py:111-113 | a blank's non-empty answers followed by the closing empty field read back as those answers |
| FibPlus.UnclosedGroupRejected | Pools-FibQuestionGenerator/FIB_PLUS.py:7-11 | the reader rejects the shape of the docstring's example, whose last group `variable2 TAB answer3` is not closed by an empty field |
| FibPlus.DecodeBlanksRoundTrip | Pools-FibQuestionGenerator/FIB_PLUS.py:107-115 | the blanks' fields read back as the answer lists, the letters numbered in order |
| FibPlus.BlanksAsFields | Pools-FibQuestionGenerator/FIB_PLUS.py:107-115 | the text the loop appends is the tab-join of per-blank fields: the letter, the answers and an empty field |
| FibPlus.LineRoundTrip | Pools-FibQuestionGenerator/FIB_PLUS.py:102-117 | a line built from a question with no tab or line break, and readable answers, reads back as that question and those answer lists |
| FibPlus.FibPlusRoundTrip | Pools-FibQuestionGenerator/FIB_PLUS.py:76-117 | a line `bbFibPlusFormat` returns reads back as the question, with line breaks replaced, and exactly the answer lists given, provided the question has no tab and the answers are readable |
| FibPlus.DriverQuestionTags | Pools-FibQuestionGenerator/FIB_PLUS.py:140-150 | the driver's question contains each of the tags `[A]` to `[D]`, and each exactly once |
| FibPlus.DriverTagOnce | Pools-FibQuestionGenerator/FIB_PLUS.py:140-150 | the tag of blank `k` occurs exactly once in the driver's question: it is found, and any two offsets where it starts are the same |
| FibPlus.Spelling | Pools-FibQuestionGenerator/FIB_PLUS.py:124-126 | computes `spellings[n - 1]`, the English name of `n` from 1 to 20 |
| FibPlus.DriverAnswers | Pools-FibQuestionGenerator/FIB_PLUS.py:135-138 | computes `answers`: one list per number drawn, holding its spelling |
| FibPlus.HtmlNums | Pools-FibQuestionGenerator/FIB_PLUS.py:130-133 | computes `htmlNums`: each number drawn, as `str(x)` in a code span |
| FibPlus.DriverQuestion | Pools-FibQuestionGenerator/FIB_PLUS.py:140-150 | computes `question`: the sentence, `<br><br>`, then the table of the five rows |
| FibPlus.DriverQuestionClean | Pools-FibQuestionGenerator/FIB_PLUS.py:128-150 | no character below the space, so neither a tab nor a line break, occurs in the driver's question |
| FibPlus.DriverNeverFails | Pools-FibQuestionGenerator/FIB_PLUS.py:152 | for every draw, the driver's call to `bbFibPlusFormat` does not raise, and the line-break replacement leaves the question unchanged |
| FibPlus.DriverItemLine | Pools-FibQuestionGenerator/FIB_PLUS.py:152 | the line written for a draw is exactly what `bbFibPlusFormat` returns for it |
| FibPlus.DriverAnswersReadable | Pools-FibQuestionGenerator/FIB_PLUS.py:135-138 | every blank has one accepted answer, a non-empty spelling with no tab or line break |
| FibPlus.DriverRoundTrip | Pools-FibQuestionGenerator/FIB_PLUS.py:120-152 | the line written for a draw reads back as the driver's question and one spelling per number |
| FibPlus.DriverBlanksMatch | Pools-FibQuestionGenerator/FIB_PLUS.py:128-145 | blank `k` sits beside the `k`-th number drawn, whose code span holds `str(nums[k])`, whose digits denote `nums[k]`; the blank's answer is that number's spelling |
| FibPlus.DriverRowsTags | Pools-FibQuestionGenerator/FIB_PLUS.py:139-145 | the header is `Number`, `Response`; row `k+1` is `htmlNums[k]` beside the tag of blank `k` |
| FibPlus.DriverTableRows | Pools-FibQuestionGenerator/FIB_PLUS.py:139-145 | the five rows handed to the renderer are fresh lists with exactly those contents |
| FibPlus.BuildQuestion | Pools-FibQuestionGenerator/FIB_PLUS.py:128-150 | the question built with the table renderer is `DriverQuestion(nums)`, and the answers are `DriverAnswers(nums)` |
| FibPlus.PoolIteration | Pools-FibQuestionGenerator/FIB_PLUS.py:123-152 | one loop pass writes `PoolLine(nums)` |
| FibPlus.GeneratePool | Pools-FibQuestionGenerator/FIB_PLUS.py:120-152 | the pool has `NUMBER_QUESTIONS` (25) lines, line `i` built from the `i`-th draw |
| TrueFalse.TrueFalseItem | Pools-TrueFalseGenerator/TRUE_FALSE.py:68-93 | computes `bbTrueFalseFormat`: `TF`, the question as given, and `true` or `false`, tab-separated, then `\n` |
| TrueFalse.TrueFalseRoundTrip | Pools-TrueFalseGenerator/TRUE_FALSE.py:68-93 | a TF line reads back as its question and answer exactly when the question has neither a tab nor a line break |
| TrueFalse.TrueFalseItemInjective | Pools-TrueFalseGenerator/TRUE_FALSE.py:87-90 | equal TF lines carry equal questions and equal answers |
| TrueFalse.ItemLayout | Pools-TrueFalseGenerator/TRUE_FALSE.py:87-90 | the question is copied verbatim at offset 3, and the line length gives away the answer |
| TrueFalse.DefaultIsTrue | Pools-TrueFalseGenerator/TRUE_FALSE.py:68 | without the flag the answer is `true`, so the line ends with `\ttrue\n` |
| TrueFalse.ThirdDataset | Pools-TrueFalseGenerator/TRUE_FALSE.py:101 | iteration 3 hands out `reads_003_R1.fastq.tgz` |
| TrueFalse.ThirdLine | Pools-TrueFalseGenerator/TRUE_FALSE.py:99-105 | the line written in iteration 3 is, character for character, the `TF` line with the allocation sentence, the code span around `reads_003_R1.fastq.tgz`, the instructions and `true` |
| TrueFalse.DatasetName | Pools-TrueFalseGenerator/TRUE_FALSE.py:101 | computes the file name `reads_{i:03}_R1.fastq.tgz` |
| TrueFalse.DriverQuestion | Pools-TrueFalseGenerator/TRUE_FALSE.py:101-103 | computes `question`: the allocation sentence around the dataset's code span, then the instructions |
| TrueFalse.DatasetNameDigits | Pools-TrueFalseGenerator/TRUE_FALSE.py:101 | below 1000, the dataset name has three digits between its fixed parts, and they denote the iteration number |
| TrueFalse.DatasetNameInjective | Pools-TrueFalseGenerator/TRUE_FALSE.py:99-101 | below 1000, two dataset names are equal exactly when their numbers are |
| TrueFalse.QuestionNamesDataset | Pools-TrueFalseGenerator/TRUE_FALSE.py:101-103 | the dataset name can be cut back out of the question's code span |
| TrueFalse.DriverQuestionInjective | Pools-TrueFalseGenerator/TRUE_FALSE.py:99-103 | below 1000, two iterations ask the same question exactly when they are the same iteration |
| TrueFalse.DriverQuestionPlain | Pools-TrueFalseGenerator/TRUE_FALSE.py:103 | the question has no character below the space, so no tab and no line break |
| TrueFalse.PoolLineRoundTrip | Pools-TrueFalseGenerator/TRUE_FALSE.py:99-105 | every line written is a single line, ends with `\ttrue\n`, and reads back as its question marked true |
| TrueFalse.PoolLinesDistinct | Pools-TrueFalseGenerator/TRUE_FALSE.py:99-105 | distinct iterations write distinct lines |
| TrueFalse.GeneratePool | Pools-TrueFalseGenerator/TRUE_FALSE.py:96-105 | the pool has `NUMBER_QUESTIONS` (50) lines, line `k` for iteration `k+1` |

## Left out

- Randomness: `random.seed` and `random.sample(range(1, 20), 4)` are not modelled. The driver takes the draws as input. `ValidDraw` asks only for four numbers from 1 to 19. It does not require them to be distinct, so the driver facts also hold for draws with repeats.
- File and console output: `open(..., 'w+')`, `f.write`, `print` and the `__main__` guard are not modelled. The pool is the sequence of lines that would be written. Each line is built twice, once for the file and once for `print`; only the written copy is modelled, and the two copies are equal.
- `str(x)` on answers: `bbFibPlusFormat` maps `str` over each answer list. The model takes the answers as strings, where `str` is the identity. Answers of other types are not modelled.
- Python `assert` under `python -O`: the model always checks the tag, as a plain `python` run does. With `-O` the tag check is skipped; the model does not cover that.
- Html.HtmlTable, Html.ShowRow: with `firstColumnBold` both require the row lists to be distinct objects. The model does not cover one list occurring at two rows `i < j`. Python then bolds the list's first cell in place at each of the two rows that is not row 0. If `i >= 1`, row `j` shows that cell bolded twice. If `i == 0`, the list is bolded once, after row 0 has been rendered.
- Html.HtmlTable: the bold header is a comprehension over the caller's row. It is modelled as a fresh array built by an initialiser, not as a loop.
- `CellsHtml`, `BoldAll`, `DriverAnswers`, `HtmlNums`: the Python list comprehensions they model (`FIB_PLUS.py`, lines 70, 64, 135-138 and 130-133) are written as functions, not as loops. `Snapshot` is only a ghost view of the caller's arrays. `RenderedRows` is the function that the `html +=` loop of `Html.HtmlTable` is proved against.
- `csv` and `math` are imported in both scripts but never used.
- The duplicate helpers in `TRUE_FALSE.py` (`htmlFormatCode`, `html2dArrayToTable`) are the same text as in `FIB_PLUS.py`. They are modelled once, in `Html`.
