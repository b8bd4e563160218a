/**
 * The "fill in multiple blanks" generator: the FIB_PLUS line serialiser,
 * a reader for exactly the line the serialiser builds, and the
 * deterministic part of the pool driver.
 */
module FibPlus {
  import opened Wrappers
  import opened Text
  import opened Html

  /** `len(list(map(chr, range(65, 90))))`: 25 blank letters, 'A' to 'Y'. */
  const AlphabetSize: nat := 90 - 65

  /** `Letter(i)`, that is `chr(65 + i)`. */
  function Letter(i: nat): char
    requires i < AlphabetSize
  {
    (65 + i) as char
  }

  /** The letters run from 'A' to 'Y', distinct and in order; 'Z' is not one of them. */
  lemma AlphabetLetters()
    ensures Letter(0) == 'A' && Letter(AlphabetSize - 1) == 'Y'
    ensures forall i :: 0 <= i < AlphabetSize ==> 'A' <= Letter(i) <= 'Y' && Letter(i) != 'Z'
    ensures forall i, j :: 0 <= i < j < AlphabetSize ==> Letter(i) < Letter(j)
  {
  }

  /** The response tag for a blank, such as `[A]`. */
  function Tag(letter: char): string
  {
    "[" + [letter] + "]"
  }

  /** Why `bbFibPlusFormat` raises instead of returning. */
  datatype FibError =
    | MissingTag(blank: nat)        // the assertion fails: the tag of this blank is not in the question
    | AlphabetExhausted(blank: nat) // `alphabet[blank]` is out of range

  /** The first blank from `i` on whose check fails, in the loop's order. */
  function FirstFailure(question: string, count: nat, i: nat): (r: Option<FibError>)
    requires i <= AlphabetSize
    ensures r.None? <==>
      count <= AlphabetSize && forall k :: i <= k < count ==> Contains(question, Tag(Letter(k)))
    ensures r.Some? && r.value.MissingTag? ==>
      i <= r.value.blank < count && r.value.blank < AlphabetSize &&
      !Contains(question, Tag(Letter(r.value.blank))) &&
      forall k :: i <= k < r.value.blank ==> Contains(question, Tag(Letter(k)))
    ensures r.Some? && r.value.AlphabetExhausted? ==>
      r.value.blank == AlphabetSize < count &&
      forall k :: i <= k < AlphabetSize ==> Contains(question, Tag(Letter(k)))
    decreases count - i
  {
    if i >= count then None
    else if i == AlphabetSize then Some(AlphabetExhausted(i))
    else if !Contains(question, Tag(Letter(i))) then Some(MissingTag(i))
    else FirstFailure(question, count, i + 1)
  }

  lemma {:induction false} FirstFailureSkip(question: string, count: nat, i: nat)
    requires i <= AlphabetSize && i <= count
    requires forall k :: 0 <= k < i ==> Contains(question, Tag(Letter(k)))
    ensures FirstFailure(question, count, 0) == FirstFailure(question, count, i)
  {
    if i > 0 {
      FirstFailureSkip(question, count, i - 1);
    }
  }

  /** The field group of blank `i`: `f'{Letter(i)}\t'`, the tab-joined answers, then `'\t\t'`. */
  function BlankField(i: nat, answers: seq<string>): string
    requires i < AlphabetSize
  {
    [Letter(i)] + "\t" + Join(answers, '\t') + "\t\t"
  }

  /** The field groups of the blanks numbered from `from` on, in order. */
  function Blanks(answers: seq<seq<string>>, from: nat): string
    requires from + |answers| <= AlphabetSize
    decreases |answers|
  {
    if |answers| == 0 then "" else BlankField(from, answers[0]) + Blanks(answers[1..], from + 1)
  }

  lemma {:induction false} BlanksSnoc(answers: seq<seq<string>>, from: nat)
    requires |answers| > 0 && from + |answers| <= AlphabetSize
    ensures Blanks(answers, from) ==
      Blanks(answers[..|answers| - 1], from) + BlankField(from + |answers| - 1, answers[|answers| - 1])
    decreases |answers|
  {
    var n := |answers|;
    if n > 1 {
      BlanksSnoc(answers[1..], from + 1);
      assert answers[1..][..n - 2] == answers[..n - 1][1..];
      assert answers[1..][n - 2] == answers[n - 1];
      Associate(BlankField(from, answers[0]), Blanks(answers[..n - 1][1..], from + 1), BlankField(from + n - 1, answers[n - 1]));
    } else {
      assert answers[1..] == [];
      assert answers[..0] == [];
    }
  }

  /**
   * What `bbFibPlusFormat(question, answers)` returns, or why it raises.
   * It succeeds exactly when there are at most 25 blanks and the tag of each
   * blank occurs in the question once its line breaks are replaced; when it
   * fails, it names the first blank that fails its check.
   */
  function FibPlusItem(question: string, answers: seq<seq<string>>): (r: Result<string, FibError>)
    ensures r.Ok? <==>
      |answers| <= AlphabetSize &&
      forall k :: 0 <= k < |answers| ==> Contains(ReplaceNewlines(question), Tag(Letter(k)))
    ensures r.Err? && r.error.MissingTag? ==>
      r.error.blank < |answers| && r.error.blank < AlphabetSize &&
      !Contains(ReplaceNewlines(question), Tag(Letter(r.error.blank))) &&
      forall k :: 0 <= k < r.error.blank ==> Contains(ReplaceNewlines(question), Tag(Letter(k)))
    ensures r.Err? && r.error.AlphabetExhausted? ==>
      r.error.blank == AlphabetSize < |answers| &&
      forall k :: 0 <= k < AlphabetSize ==> Contains(ReplaceNewlines(question), Tag(Letter(k)))
    ensures r.Ok? ==> r.value == FibPlusLine(ReplaceNewlines(question), answers)
  {
    var q := ReplaceNewlines(question);
    match FirstFailure(q, |answers|, 0)
    case Some(e) => Err(e)
    case None => Ok(FibPlusLine(q, answers))
  }

  /** The line `bbFibPlusFormat` builds from a question whose line breaks are already replaced. */
  function FibPlusLine(q: string, answers: seq<seq<string>>): string
    requires |answers| <= AlphabetSize
  {
    "FIB_PLUS\t" + q + "\t" + Blanks(answers, 0) + "\n"
  }

  /** Appending the field group of blank `i` extends the rendered prefix by that blank. */
  lemma AppendBlank(head: string, answers: seq<seq<string>>, i: nat, item: string)
    requires i < |answers| && i < AlphabetSize
    requires item == head + Blanks(answers[..i], 0)
    ensures item + [Letter(i)] + "\t" + Join(answers[i], '\t') + "\t\t" == head + Blanks(answers[..i + 1], 0)
  {
    var done := answers[..i + 1];
    BlanksSnoc(done, 0);
    assert done[..i] == answers[..i];
    Associate(head, Blanks(answers[..i], 0), BlankField(i, answers[i]));
  }

  /** `bbFibPlusFormat`: the serialiser's loop over the blanks. */
  method FibPlusFormat(txtQuestion: string, twoDimAnswers: seq<seq<string>>) returns (r: Result<string, FibError>)
    ensures r == FibPlusItem(txtQuestion, twoDimAnswers)
  {
    var q := ReplaceNewlines(txtQuestion);
    var numResponses := |twoDimAnswers|;
    var bbItem := "FIB_PLUS\t" + q + "\t";
    ghost var head := bbItem;
    assert twoDimAnswers[..0] == [];
    for i := 0 to numResponses
      invariant i <= AlphabetSize
      invariant forall k :: 0 <= k < i ==> Contains(q, Tag(Letter(k)))
      invariant bbItem == head + Blanks(twoDimAnswers[..i], 0)
    {
      if i == AlphabetSize {
        FirstFailureSkip(q, numResponses, i);
        return Err(AlphabetExhausted(i));
      }
      if !Contains(q, Tag(Letter(i))) {
        FirstFailureSkip(q, numResponses, i);
        return Err(MissingTag(i));
      }
      AppendBlank(head, twoDimAnswers, i, bbItem);
      bbItem := bbItem + [Letter(i)] + "\t";
      bbItem := bbItem + Join(twoDimAnswers[i], '\t');
      bbItem := bbItem + "\t\t";
    }
    FirstFailureSkip(q, numResponses, numResponses);
    assert twoDimAnswers[..numResponses] == twoDimAnswers;
    bbItem := bbItem + "\n";
    return Ok(bbItem);
  }

  // The reader of the line `bbFibPlusFormat` builds.  The line is split on
  // tabs; after the type and the question come, per blank, the blank's
  // letter, its answers and an empty field closing the group, and finally one
  // more empty field.  A line whose last group is not closed is rejected.

  /** The answers of one blank: the fields up to the next empty one, and what follows it. */
  function TakeAnswers(fields: seq<string>): (r: Option<(seq<string>, seq<string>)>)
    ensures r.Some? ==> |r.value.1| < |fields|
  {
    if |fields| == 0 then None
    else if fields[0] == "" then Some(([], fields[1..]))
    else match TakeAnswers(fields[1..])
      case None => None
      case Some(taken) => Some(([fields[0]] + taken.0, taken.1))
  }

  /** The blanks' answer lists, each introduced by the next letter from `Letter(i)` on. */
  function DecodeBlanks(fields: seq<string>, i: nat): Option<seq<seq<string>>>
    decreases |fields|
  {
    if fields == [""] then Some([])
    else if |fields| == 0 || i >= AlphabetSize || fields[0] != [Letter(i)] then None
    else match TakeAnswers(fields[1..])
      case None => None
      case Some(taken) =>
        match DecodeBlanks(taken.1, i + 1)
        case None => None
        case Some(more) => Some([taken.0] + more)
  }

  /**
   * The reader insists on the closing empty field: a last group left open, as
   * in the two-variable example of the format's description, is rejected.
   */
  lemma UnclosedGroupRejected(a1: string, a2: string, a3: string)
    requires a1 != "" && a2 != "" && a3 != ""
    ensures DecodeBlanks(["A", a1, a2, "", "B", a3], 0) == None
  {
    assert Letter(0) == 'A' && Letter(1) == 'B';
    var rest := ["B", a3];
    assert ["", "B", a3][1..] == rest;
    assert TakeAnswers(["", "B", a3]) == Some(([], rest));
    assert [a2, "", "B", a3][1..] == ["", "B", a3];
    assert [a2] + [] == [a2] && [a1] + [a2] == [a1, a2];
    assert TakeAnswers([a2, "", "B", a3]) == Some(([a2], rest));
    assert [a1, a2, "", "B", a3][1..] == [a2, "", "B", a3];
    assert TakeAnswers([a1, a2, "", "B", a3]) == Some(([a1, a2], rest));
    assert rest[1..] == [a3] && [a3][1..] == [];
    assert TakeAnswers([a3]) == None;
    assert ["A", a1, a2, "", "B", a3][1..] == [a1, a2, "", "B", a3];
  }

  /** Reads one FIB_PLUS line back into its question and answer lists. */
  function DecodeFibPlus(line: string): Option<(string, seq<seq<string>>)>
  {
    if |line| == 0 || line[|line| - 1] != '\n' || '\n' in line[..|line| - 1] then None
    else
      var fields := Split(line[..|line| - 1], '\t');
      if |fields| < 3 || fields[0] != "FIB_PLUS" then None
      else match DecodeBlanks(fields[2..], 0)
        case None => None
        case Some(answers) => Some((fields[1], answers))
  }

  /** One blank's fields: its letter, its answers and the empty field that closes them. */
  function BlankGroup(i: nat, answers: seq<string>): seq<string>
    requires i < AlphabetSize
  {
    [[Letter(i)]] + answers + [""]
  }

  /** The fields that the blanks from `from` on occupy. */
  function BlankFields(answers: seq<seq<string>>, from: nat): seq<string>
    requires from + |answers| <= AlphabetSize
    decreases |answers|
  {
    if |answers| == 0 then []
    else BlankGroup(from, answers[0]) + BlankFields(answers[1..], from + 1)
  }

  /**
   * Answer lists the line format can carry unambiguously: every blank has at
   * least one answer, and no answer is empty or holds a tab or a line break.
   */
  predicate ReadableAnswers(answers: seq<seq<string>>)
  {
    forall k :: 0 <= k < |answers| ==>
      |answers[k]| > 0 &&
      forall j :: 0 <= j < |answers[k]| ==>
        answers[k][j] != "" && '\t' !in answers[k][j] && '\n' !in answers[k][j]
  }

  lemma {:induction false} TakeAnswersRoundTrip(xs: seq<string>, rest: seq<string>)
    requires forall j :: 0 <= j < |xs| ==> xs[j] != ""
    ensures TakeAnswers(xs + [""] + rest) == Some((xs, rest))
  {
    var fields := xs + [""] + rest;
    if |xs| == 0 {
      assert fields == [""] + rest;
      assert fields[1..] == rest;
    } else {
      assert fields[1..] == xs[1..] + [""] + rest;
      TakeAnswersRoundTrip(xs[1..], rest);
      assert [xs[0]] + xs[1..] == xs;
    }
  }

  /** One decoding step: a blank's letter, its answers and the empty field that closes them. */
  lemma DecodeBlanksCons(from: nat, xs: seq<string>, rest: seq<string>, more: seq<seq<string>>)
    requires from < AlphabetSize
    requires forall j :: 0 <= j < |xs| ==> xs[j] != ""
    requires DecodeBlanks(rest, from + 1) == Some(more)
    ensures DecodeBlanks([[Letter(from)]] + (xs + [""] + rest), from) == Some([xs] + more)
  {
    var fields := [[Letter(from)]] + (xs + [""] + rest);
    assert fields[1..] == xs + [""] + rest;
    TakeAnswersRoundTrip(xs, rest);
  }

  lemma ReadableTail(answers: seq<seq<string>>)
    requires |answers| > 0 && ReadableAnswers(answers)
    ensures ReadableAnswers(answers[1..])
  {
    forall k | 0 <= k < |answers[1..]|
      ensures answers[1..][k] == answers[k + 1]
    {
    }
  }

  lemma {:induction false} DecodeBlanksRoundTrip(answers: seq<seq<string>>, from: nat)
    requires from + |answers| <= AlphabetSize
    requires ReadableAnswers(answers)
    ensures DecodeBlanks(BlankFields(answers, from) + [""], from) == Some(answers)
    decreases |answers|
  {
    if |answers| == 0 {
      assert BlankFields(answers, from) + [""] == [""];
    } else {
      var rest := BlankFields(answers[1..], from + 1) + [""];
      assert BlankFields(answers, from) + [""] == [[Letter(from)]] + (answers[0] + [""] + rest);
      ReadableTail(answers);
      DecodeBlanksRoundTrip(answers[1..], from + 1);
      DecodeBlanksCons(from, answers[0], rest, answers[1..]);
      assert [answers[0]] + answers[1..] == answers;
    }
  }

  lemma BlankFieldAsGroup(i: nat, answers: seq<string>)
    requires i < AlphabetSize && |answers| > 0
    ensures BlankField(i, answers) == Join(BlankGroup(i, answers), '\t') + "\t"
  {
    JoinAppend(answers, [""], '\t');
    assert [[Letter(i)]] + (answers + [""]) == BlankGroup(i, answers);
    JoinAppend([[Letter(i)]], answers + [""], '\t');
  }

  /** The blanks' text is the tab-join of their fields, each group closed by an empty field. */
  lemma {:induction false} BlanksAsFields(prefix: seq<string>, answers: seq<seq<string>>, from: nat)
    requires |prefix| >= 1
    requires from + |answers| <= AlphabetSize
    requires forall k :: 0 <= k < |answers| ==> |answers[k]| > 0
    ensures Join(prefix, '\t') + "\t" + Blanks(answers, from) == Join(prefix + BlankFields(answers, from) + [""], '\t')
    decreases |answers|
  {
    if |answers| == 0 {
      assert prefix + BlankFields(answers, from) + [""] == prefix + [""];
      JoinAppend(prefix, [""], '\t');
    } else {
      var group := BlankGroup(from, answers[0]);
      var next := prefix + group;
      var head := Join(prefix, '\t') + "\t";
      var tail := Blanks(answers[1..], from + 1);
      BlankFieldAsGroup(from, answers[0]);
      JoinAppend(prefix, group, '\t');
      assert Join(next, '\t') + "\t" == head + BlankField(from, answers[0]);
      assert forall k :: 0 <= k < |answers[1..]| ==> answers[1..][k] == answers[k + 1];
      BlanksAsFields(next, answers[1..], from + 1);
      assert next + BlankFields(answers[1..], from + 1) == prefix + (group + BlankFields(answers[1..], from + 1));
      Associate(head, BlankField(from, answers[0]), tail);
    }
  }

  lemma {:induction false} BlankFieldsClean(answers: seq<seq<string>>, from: nat, c: char)
    requires from + |answers| <= AlphabetSize
    requires ReadableAnswers(answers) && (c == '\t' || c == '\n')
    ensures NoneContains(BlankFields(answers, from), c)
    decreases |answers|
  {
    if |answers| > 0 {
      assert ReadableAnswers(answers[1..]) by {
        forall k | 0 <= k < |answers[1..]|
          ensures |answers[1..][k]| > 0
        {
          assert answers[1..][k] == answers[k + 1];
        }
      }
      BlankFieldsClean(answers[1..], from + 1, c);
      var fs := BlankFields(answers, from);
      var group := BlankGroup(from, answers[0]);
      assert fs == group + BlankFields(answers[1..], from + 1);
      forall k | 0 <= k < |fs| ensures c !in fs[k] {
        if k >= |group| {
          assert fs[k] == BlankFields(answers[1..], from + 1)[k - |group|];
        } else if 1 <= k <= |answers[0]| {
          assert fs[k] == answers[0][k - 1];
        }
      }
    }
  }

  /** The tab-separated fields of a FIB_PLUS line, before its final line break. */
  function ItemFields(q: string, answers: seq<seq<string>>): seq<string>
    requires |answers| <= AlphabetSize
  {
    ["FIB_PLUS", q] + BlankFields(answers, 0) + [""]
  }

  lemma ItemFieldsShape(q: string, answers: seq<seq<string>>)
    requires |answers| <= AlphabetSize
    ensures |ItemFields(q, answers)| >= 3
    ensures ItemFields(q, answers)[0] == "FIB_PLUS" && ItemFields(q, answers)[1] == q
    ensures ItemFields(q, answers)[2..] == BlankFields(answers, 0) + [""]
  {
  }

  lemma ItemAsFields(q: string, answers: seq<seq<string>>)
    requires |answers| <= AlphabetSize && forall k :: 0 <= k < |answers| ==> |answers[k]| > 0
    ensures FibPlusLine(q, answers) == Join(ItemFields(q, answers), '\t') + "\n"
  {
    BlanksAsFields(["FIB_PLUS", q], answers, 0);
    assert Join(["FIB_PLUS", q], '\t') == "FIB_PLUS" + "\t" + q;
  }

  lemma ItemFieldsClean(q: string, answers: seq<seq<string>>, c: char)
    requires |answers| <= AlphabetSize && ReadableAnswers(answers)
    requires c == '\t' || c == '\n'
    requires c !in q
    ensures NoneContains(ItemFields(q, answers), c)
  {
    var fields := ItemFields(q, answers);
    BlankFieldsClean(answers, 0, c);
    forall k | 0 <= k < |fields| ensures c !in fields[k] {
      if 2 <= k < |fields| - 1 {
        assert fields[k] == BlankFields(answers, 0)[k - 2];
      }
    }
  }

  /** How the reader takes apart a line once its body is known to split into `fields`. */
  lemma DecodeBody(body: string, fields: seq<string>)
    requires '\n' !in body && Split(body, '\t') == fields
    requires |fields| >= 3 && fields[0] == "FIB_PLUS"
    ensures DecodeFibPlus(body + "\n") ==
      match DecodeBlanks(fields[2..], 0)
      case None => None
      case Some(answers) => Some((fields[1], answers))
  {
    var line := body + "\n";
    assert line[..|line| - 1] == body;
  }

  /** A line with a single-line, tab-free question and readable answers reads back as itself. */
  lemma LineRoundTrip(q: string, answers: seq<seq<string>>)
    requires |answers| <= AlphabetSize
    requires '\t' !in q && '\n' !in q && ReadableAnswers(answers)
    ensures DecodeFibPlus(FibPlusLine(q, answers)) == Some((q, answers))
  {
    var fields := ItemFields(q, answers);
    var body := Join(fields, '\t');
    ItemAsFields(q, answers);
    ItemFieldsClean(q, answers, '\t');
    ItemFieldsClean(q, answers, '\n');
    SplitJoin(fields, '\t');
    JoinAvoids(fields, '\t', '\n');
    ItemFieldsShape(q, answers);
    DecodeBlanksRoundTrip(answers, 0);
    DecodeBody(body, fields);
  }

  /**
   * Reading back a line `bbFibPlusFormat` produced gives the question (line
   * breaks replaced) and exactly the answer lists it was given, as long as
   * the question holds no tab and the answers are readable.
   */
  lemma FibPlusRoundTrip(question: string, answers: seq<seq<string>>)
    requires FibPlusItem(question, answers).Ok?
    requires '\t' !in question && ReadableAnswers(answers)
    ensures DecodeFibPlus(FibPlusItem(question, answers).value) == Some((ReplaceNewlines(question), answers))
  {
    LineRoundTrip(ReplaceNewlines(question), answers);
  }

  // The pool driver `generateQuestionPool`.  The random draw of four numbers
  // is an input; the output file becomes the sequence of lines written.

  /** `NUMBER_QUESTIONS` */
  const NumberQuestions: nat := 25

  /** `spellings[n - 1]`: the English name of `n`, for `n` from 1 to 20. */
  function Spelling(n: nat): string
    requires 1 <= n <= 20
  {
    match n
    case 1 => "one" case 2 => "two" case 3 => "three" case 4 => "four" case 5 => "five"
    case 6 => "six" case 7 => "seven" case 8 => "eight" case 9 => "nine" case 10 => "ten"
    case 11 => "eleven" case 12 => "twelve" case 13 => "thirteen" case 14 => "fourteen"
    case 15 => "fifteen" case 16 => "sixteen" case 17 => "seventeen" case 18 => "eighteen"
    case 19 => "nineteen" case _ => "twenty"
  }

  const Intro: string :=
    "Provide the English " + "spelling of the " + "numbers in the " + "table below." + "<br><br>"

  /**
   * What `random.sample(range(1, 20), 4)` can return: four numbers from 1
   * to 19.  The sample is also free of repeats; nothing below relies on that.
   */
  predicate ValidDraw(nums: seq<nat>)
  {
    |nums| == 4 && forall k :: 0 <= k < 4 ==> 1 <= nums[k] < 20
  }

  /** `[[spellings[x-1]] for x in nums]`: one accepted answer per blank. */
  function DriverAnswers(nums: seq<nat>): seq<seq<string>>
    requires ValidDraw(nums)
  {
    seq(4, k requires 0 <= k < 4 => [Spelling(nums[k])])
  }

  /** `htmlNums`: each number drawn, in code style. */
  function HtmlNums(nums: seq<nat>): seq<string>
    requires ValidDraw(nums)
  {
    seq(4, k requires 0 <= k < 4 => CodeSpan(DecimalString(nums[k])))
  }

  /**
   * The rows handed to `html2dArrayToTable`: the header, then row k+1 with
   * `htmlNums[k]` beside the tag of blank k.
   */
  function DriverRows(htmlNums: seq<string>): seq<seq<string>>
    requires |htmlNums| == 4
  {
    [["Number", "Response"],
     [htmlNums[0], "[A]"],
     [htmlNums[1], "[B]"],
     [htmlNums[2], "[C]"],
     [htmlNums[3], "[D]"]]
  }

  /** Row k+1 of the driver's table carries `htmlNums[k]` and the tag of blank k. */
  lemma DriverRowsTags(htmlNums: seq<string>)
    requires |htmlNums| == 4
    ensures |DriverRows(htmlNums)| == 5 && DriverRows(htmlNums)[0] == ["Number", "Response"]
    ensures forall k :: 0 <= k < 4 ==> DriverRows(htmlNums)[k + 1] == [htmlNums[k], Tag(Letter(k))]
  {
    assert Tag(Letter(0)) == "[A]" && Tag(Letter(1)) == "[B]";
    assert Tag(Letter(2)) == "[C]" && Tag(Letter(3)) == "[D]";
  }

  /** The table of one iteration. */
  function DriverGrid(nums: seq<nat>): seq<seq<string>>
    requires ValidDraw(nums)
  {
    DriverRows(HtmlNums(nums))
  }

  /** The question text of one iteration. */
  function DriverQuestion(nums: seq<nat>): string
    requires ValidDraw(nums)
  {
    Intro + TableHtml(DriverGrid(nums), true, false)
  }

  lemma SpellingsLowPlain(n: nat)
    requires 1 <= n <= 7
    ensures Spelling(n) != "" && Plain(Spelling(n))
  {
  }

  lemma SpellingsMidPlain(n: nat)
    requires 8 <= n <= 14
    ensures Spelling(n) != "" && Plain(Spelling(n))
  {
  }

  lemma SpellingsHighPlain(n: nat)
    requires 15 <= n <= 20
    ensures Spelling(n) != "" && Plain(Spelling(n))
  {
  }

  lemma SpellingReadable(n: nat)
    requires 1 <= n <= 20
    ensures Spelling(n) != "" && Plain(Spelling(n))
  {
    if n <= 7 {
      SpellingsLowPlain(n);
    } else if n <= 14 {
      SpellingsMidPlain(n);
    } else {
      SpellingsHighPlain(n);
    }
  }

  lemma IntroPiecesPlain()
    ensures Plain("Provide the English ") && Plain("spelling of the ")
  {
  }

  lemma IntroTailPlain()
    ensures Plain("numbers in the ") && Plain("table below.") && Plain("<br><br>")
  {
  }

  lemma IntroPlain()
    ensures Plain(Intro)
  {
    IntroPiecesPlain();
    IntroTailPlain();
    var s := "Provide the English ";
    PlainAppend(s, "spelling of the ");
    s := s + "spelling of the ";
    PlainAppend(s, "numbers in the ");
    s := s + "numbers in the ";
    PlainAppend(s, "table below.");
    s := s + "table below.";
    PlainAppend(s, "<br><br>");
  }

  lemma TagPlain(k: nat)
    requires k < AlphabetSize
    ensures Plain(Tag(Letter(k)))
  {
    var t := Tag(Letter(k));
    assert t[0] == '[' && t[1] == Letter(k) && t[2] == ']';
  }

  lemma HeaderPlain()
    ensures Plain("Number") && Plain("Response")
  {
  }

  /** No character below the space occurs in any cell of the driver's table. */
  lemma DriverGridPlain(nums: seq<nat>, c: char)
    requires ValidDraw(nums) && c < ' '
    ensures CellsFree(DriverGrid(nums), c)
  {
    var htmlNums := HtmlNums(nums);
    var grid := DriverRows(htmlNums);
    DriverRowsTags(htmlNums);
    HeaderPlain();
    PlainAvoids("Number", c);
    PlainAvoids("Response", c);
    forall i, j | 0 <= i < |grid| && 0 <= j < |grid[i]| ensures c !in grid[i][j] {
      if i > 0 && j == 0 {
        var n := nums[i - 1];
        DigitsPlain(DecimalString(n));
        CodeSpanPlain(DecimalString(n));
        PlainAvoids(CodeSpan(DecimalString(n)), c);
      } else if i > 0 {
        TagPlain(i - 1);
        PlainAvoids(Tag(Letter(i - 1)), c);
      }
    }
  }

  /** No character below the space, so neither a tab nor a line break, occurs in a driver question. */
  lemma DriverQuestionClean(nums: seq<nat>, c: char)
    requires ValidDraw(nums) && c < ' '
    ensures c !in DriverQuestion(nums)
  {
    DriverGridPlain(nums, c);
    ControlMarkupFree(c);
    TableAvoids(DriverGrid(nums), true, false, c);
    IntroPlain();
    PlainAvoids(Intro, c);
  }

  // Each tag occurs exactly once: no markup and no other cell holds a `[`.

  /** A tag holds another tag exactly when the two are the same one. */
  lemma TagOccurrences(c: char, d: char)
    requires c != '[' && d != '['
    ensures Occurrences(Tag(c), Tag(d)) == if c == d then 1 else 0
    ensures EndsClear(Tag(c), '[')
  {
    var s := Tag(c);
    assert s[1..] == [c, ']'];
    OccurrencesAbsent(s[1..], Tag(d));
    assert s[1] == c && Tag(d)[1] == d;
  }

  lemma IntroUnbracketed()
    ensures '[' !in Intro
  {
    assert '[' !in "Provide the English " && '[' !in "spelling of the ";
    assert '[' !in "numbers in the " && '[' !in "table below." && '[' !in "<br><br>";
  }

  lemma NumberUnbracketed(n: nat)
    ensures '[' !in CodeSpan(DecimalString(n))
  {
    BracketMarkupFree();
    var d := DecimalString(n);
    assert '[' !in d by {
      forall k | 0 <= k < |d| ensures d[k] != '[' {
        assert '0' <= d[k] <= '9';
      }
    }
  }

  lemma HeaderUnbracketed()
    ensures '[' !in "Number" && '[' !in "Response"
    ensures '[' !in Bold("Number") && '[' !in Bold("Response")
  {
    BracketMarkupFree();
  }

  /** No cell of the driver's table ends within two characters of a `[`. */
  lemma DriverCellsEndClear(nums: seq<nat>)
    requires ValidDraw(nums)
    ensures CellsEndClear(DriverGrid(nums), '[')
  {
    var grid := DriverGrid(nums);
    DriverRowsTags(HtmlNums(nums));
    HeaderUnbracketed();
    forall i, j | 0 <= i < |grid| && 0 <= j < |grid[i]| ensures EndsClear(grid[i][j], '[') {
      if i > 0 && j == 0 {
        NumberUnbracketed(nums[i - 1]);
      } else if i > 0 {
        TagOccurrences(Letter(i - 1), Letter(i - 1));
      }
    }
  }

  /** In the driver's table as shown, the tag of blank k occurs once: in row k+1's response cell. */
  lemma DriverShownTags(nums: seq<nat>, k: nat)
    requires ValidDraw(nums) && k < 4
    ensures var shown := Shown(DriverGrid(nums), true, false);
      forall i, j :: 0 <= i < |shown| && 0 <= j < |shown[i]| ==>
        Occurrences(shown[i][j], Tag(Letter(k))) == if i == k + 1 && j == 1 then 1 else 0
  {
    var grid := DriverGrid(nums);
    var shown := Shown(grid, true, false);
    var t := Tag(Letter(k));
    DriverRowsTags(HtmlNums(nums));
    ShownCells(grid, true, false);
    forall i, j | 0 <= i < |shown| && 0 <= j < |shown[i]|
      ensures Occurrences(shown[i][j], t) == if i == k + 1 && j == 1 then 1 else 0
    {
      if i == 0 {
        HeaderUnbracketed();
        OccurrencesAbsent(shown[i][j], t);
      } else if j == 0 {
        NumberUnbracketed(nums[i - 1]);
        OccurrencesAbsent(shown[i][j], t);
      } else {
        TagOccurrences(Letter(i - 1), Letter(k));
      }
    }
  }

  /** The tag of blank k occurs in the driver question exactly once. */
  lemma DriverTagOnce(nums: seq<nat>, k: nat)
    requires ValidDraw(nums) && k < 4
    ensures Occurrences(DriverQuestion(nums), Tag(Letter(k))) == 1
    ensures Contains(DriverQuestion(nums), Tag(Letter(k)))
    ensures forall p, q ::
      (OccursAt(DriverQuestion(nums), Tag(Letter(k)), p) && OccursAt(DriverQuestion(nums), Tag(Letter(k)), q)) ==> p == q
  {
    var grid := DriverGrid(nums);
    var t := Tag(Letter(k));
    DriverCellsEndClear(nums);
    BracketMarkupFree();
    TableOccurrences(grid, true, false, t);
    DriverShownTags(nums, k);
    DriverRowsTags(HtmlNums(nums));
    ShownCells(grid, true, false);
    GridSingle(Shown(grid, true, false), t, k + 1, 1);
    IntroUnbracketed();
    OccurrencesAbsent(Intro, t);
    OccurrencesAppend(Intro, TableHtml(grid, true, false), t);
    OccursOnce(DriverQuestion(nums), t);
  }

  /** The tag of each of the four blanks occurs in the driver question, and exactly once. */
  lemma DriverQuestionTags(nums: seq<nat>)
    requires ValidDraw(nums)
    ensures forall k :: 0 <= k < 4 ==> Contains(DriverQuestion(nums), Tag(Letter(k)))
    ensures forall k :: 0 <= k < 4 ==> Occurrences(DriverQuestion(nums), Tag(Letter(k))) == 1
  {
    forall k | 0 <= k < 4
      ensures Contains(DriverQuestion(nums), Tag(Letter(k)))
      ensures Occurrences(DriverQuestion(nums), Tag(Letter(k))) == 1
    {
      DriverTagOnce(nums, k);
    }
  }

  /** The driver's call to `bbFibPlusFormat` never raises. */
  lemma DriverNeverFails(nums: seq<nat>)
    requires ValidDraw(nums)
    ensures FibPlusItem(DriverQuestion(nums), DriverAnswers(nums)).Ok?
    ensures ReplaceNewlines(DriverQuestion(nums)) == DriverQuestion(nums)
  {
    DriverQuestionClean(nums, '\n');
    DriverQuestionTags(nums);
  }

  /** The line written for one draw. */
  function PoolLine(nums: seq<nat>): string
    requires ValidDraw(nums)
  {
    FibPlusLine(DriverQuestion(nums), DriverAnswers(nums))
  }

  /** Every spelling the driver accepts is a readable answer. */
  lemma DriverAnswersReadable(nums: seq<nat>)
    requires ValidDraw(nums)
    ensures ReadableAnswers(DriverAnswers(nums))
  {
    var answers := DriverAnswers(nums);
    forall k | 0 <= k < |answers|
      ensures |answers[k]| > 0 && forall j :: 0 <= j < |answers[k]| ==>
        answers[k][j] != "" && '\t' !in answers[k][j] && '\n' !in answers[k][j]
    {
      SpellingReadable(nums[k]);
      PlainAvoids(Spelling(nums[k]), '\t');
      PlainAvoids(Spelling(nums[k]), '\n');
    }
  }

  /** The driver's line is the one `bbFibPlusFormat` returns. */
  lemma DriverItemLine(nums: seq<nat>)
    requires ValidDraw(nums)
    ensures FibPlusItem(DriverQuestion(nums), DriverAnswers(nums)) == Ok(PoolLine(nums))
  {
    DriverNeverFails(nums);
  }

  /** A driver question is a single tab-free field of its line. */
  lemma DriverQuestionSingleField(nums: seq<nat>)
    requires ValidDraw(nums)
    ensures '\t' !in DriverQuestion(nums) && '\n' !in DriverQuestion(nums)
  {
    DriverQuestionClean(nums, '\t');
    DriverQuestionClean(nums, '\n');
  }

  /** The line written for a draw reads back as the driver's question and the four answer lists. */
  lemma DriverRoundTrip(nums: seq<nat>)
    requires ValidDraw(nums)
    ensures DecodeFibPlus(PoolLine(nums)) == Some((DriverQuestion(nums), DriverAnswers(nums)))
  {
    DriverQuestionSingleField(nums);
    DriverAnswersReadable(nums);
    LineRoundTrip(DriverQuestion(nums), DriverAnswers(nums));
  }

  /**
   * Blank k asks for the k-th number drawn: row k+1 of the table shows that
   * number in code style beside the tag of blank k, and the one accepted
   * answer of blank k is its English spelling.
   */
  lemma DriverBlanksMatch(nums: seq<nat>, k: nat)
    requires ValidDraw(nums) && k < 4
    ensures DriverGrid(nums)[k + 1][1] == Tag(Letter(k))
    ensures UnwrapCodeSpan(DriverGrid(nums)[k + 1][0]) == Some(DecimalString(nums[k]))
    ensures DecimalValue(DecimalString(nums[k])) == nums[k]
    ensures DriverAnswers(nums)[k] == [Spelling(nums[k])]
  {
    DriverRowsTags(HtmlNums(nums));
    CodeSpanRoundTrip(DecimalString(nums[k]));
    DecimalRoundTrip(nums[k]);
  }

  /** Five row arrays holding the driver's rows snapshot to `DriverRows`. */
  lemma GridMatches(grid: seq<array<string>>, htmlNums: seq<string>)
    requires |grid| == 5 && |htmlNums| == 4 && grid[0][..] == ["Number", "Response"]
    requires grid[1][..] == [htmlNums[0], "[A]"] && grid[2][..] == [htmlNums[1], "[B]"]
    requires grid[3][..] == [htmlNums[2], "[C]"] && grid[4][..] == [htmlNums[3], "[D]"]
    ensures Snapshot(grid) == DriverRows(htmlNums)
  {
    var s, rows := Snapshot(grid), DriverRows(htmlNums);
    forall i | 0 <= i < 5 ensures s[i] == rows[i] {
    }
  }

  /** A fresh two-cell row, as the list display `[left, right]` builds it. */
  method NewRow(left: string, right: string) returns (row: array<string>)
    ensures fresh(row) && row[..] == [left, right]
  {
    row := new string[] [left, right];
  }

  /** The list of lists the driver passes to `html2dArrayToTable`, each row a fresh list. */
  method DriverTableRows(htmlNums: seq<string>) returns (grid: seq<array<string>>)
    requires |htmlNums| == 4
    ensures Snapshot(grid) == DriverRows(htmlNums)
    ensures forall i :: 0 <= i < |grid| ==> fresh(grid[i])
  {
    var header := NewRow("Number", "Response");
    var rowA := NewRow(htmlNums[0], "[A]");
    var rowB := NewRow(htmlNums[1], "[B]");
    var rowC := NewRow(htmlNums[2], "[C]");
    var rowD := NewRow(htmlNums[3], "[D]");
    grid := [header, rowA, rowB, rowC, rowD];
    assert forall i | 0 <= i < 5 :: grid[i] in {header, rowA, rowB, rowC, rowD};
    GridMatches(grid, htmlNums);
  }

  /** One iteration's question and answers, built as the driver builds them. */
  method BuildQuestion(nums: seq<nat>) returns (question: string, answers: seq<seq<string>>)
    requires ValidDraw(nums)
    ensures question == DriverQuestion(nums) && answers == DriverAnswers(nums)
  {
    var htmlNums := HtmlNums(nums);
    answers := DriverAnswers(nums);
    var grid := DriverTableRows(htmlNums);
    var htmlTable := HtmlTable(grid);
    question := Intro + htmlTable;
  }

  /** One pass of the driver's loop: build the question, then format it. */
  method PoolIteration(nums: seq<nat>) returns (line: string)
    requires ValidDraw(nums)
    ensures line == PoolLine(nums)
  {
    var question, answers := BuildQuestion(nums);
    DriverNeverFails(nums);
    var item := FibPlusFormat(question, answers);
    line := item.value;
  }

  /** `generateQuestionPool`: one line per draw, in order; `draws` are the successive random samples. */
  method GeneratePool(draws: seq<seq<nat>>) returns (lines: seq<string>)
    requires |draws| == NumberQuestions
    requires forall i :: 0 <= i < |draws| ==> ValidDraw(draws[i])
    ensures |lines| == NumberQuestions
    ensures forall i :: 0 <= i < |lines| ==> lines[i] == PoolLine(draws[i])
  {
    ghost var expected := seq(NumberQuestions, j requires 0 <= j < NumberQuestions => PoolLine(draws[j]));
    lines := [];
    for i := 0 to NumberQuestions
      invariant lines == expected[..i]
    {
      var line := PoolIteration(draws[i]);
      lines := lines + [line];
    }
  }
}
