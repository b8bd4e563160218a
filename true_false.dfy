/**
 * The "true or false" generator: the TF line serialiser, a reader for the
 * line, and the pool driver that hands every student a numbered dataset.
 */
module TrueFalse {
  import opened Wrappers
  import opened Text
  import opened Html

  /** The answer column: the flag spelled out by hand, never `str(bool)`. */
  function AnswerWord(isTrue: bool): string
  {
    if isTrue then "true" else "false"
  }

  /**
   * `bbTrueFalseFormat(txtQuestion, isTrueTheCorrectAnswer=True)`: the
   * question is copied as it is, line breaks included.
   */
  function TrueFalseItem(question: string, isTrueTheCorrectAnswer: bool := true): string
  {
    "TF\t" + question + "\t" + AnswerWord(isTrueTheCorrectAnswer) + "\n"
  }

  // Reading a TF line back: it must end in its one line break and hold
  // exactly three tab-separated fields, the type, the question and
  // "true" or "false".

  function DecodeAnswer(field: string): Option<bool>
  {
    if field == "true" then Some(true)
    else if field == "false" then Some(false)
    else None
  }

  function DecodeTrueFalse(line: string): Option<(string, bool)>
  {
    if |line| == 0 || line[|line| - 1] != '\n' || '\n' in line[..|line| - 1] then None
    else
      var fields := Split(line[..|line| - 1], '\t');
      if |fields| != 3 || fields[0] != "TF" then None
      else match DecodeAnswer(fields[2])
        case None => None
        case Some(b) => Some((fields[1], b))
  }

  /** The line is its three fields joined by tabs, then a line break. */
  lemma ItemAsFields(question: string, b: bool)
    ensures TrueFalseItem(question, b) == Join(["TF", question, AnswerWord(b)], '\t') + "\n"
  {
    var w := AnswerWord(b);
    JoinCons("TF", [question, w], '\t');
    JoinCons(question, [w], '\t');
    assert ["TF"] + [question, w] == ["TF", question, w];
    assert [question] + [w] == [question, w];
  }

  /** Removing the final line break leaves the item's body. */
  lemma ItemBody(question: string, b: bool)
    ensures var line := TrueFalseItem(question, b);
      |line| > 0 && line[|line| - 1] == '\n' &&
      line[..|line| - 1] == "TF\t" + question + "\t" + AnswerWord(b)
  {
    var body := "TF\t" + question + "\t" + AnswerWord(b);
    assert (body + "\n")[..|body|] == body;
  }

  /** Every occurrence of a character of the question shows up in the body. */
  lemma BodyShowsQuestion(question: string, b: bool, c: char)
    requires c in question
    ensures c in "TF\t" + question + "\t" + AnswerWord(b)
  {
    var k :| 0 <= k < |question| && question[k] == c;
    var body := "TF\t" + question + "\t" + AnswerWord(b);
    assert body[3 + k] == question[k];
  }

  lemma CountConcat(a: string, b: string, c: char)
    ensures multiset(a + b)[c] == multiset(a)[c] + multiset(b)[c]
  {
    assert multiset(a + b) == multiset(a) + multiset(b);
  }

  /** A question holding a tab splits into more than three fields. */
  lemma TabbedQuestionSplits(question: string, b: bool)
    requires '\t' in question
    ensures |Split("TF\t" + question + "\t" + AnswerWord(b), '\t')| > 3
  {
    var w := AnswerWord(b);
    var body := "TF\t" + question + "\t" + w;
    SplitCount(body, '\t');
    CountConcat("TF\t" + question + "\t", w, '\t');
    CountConcat("TF\t" + question, "\t", '\t');
    CountConcat("TF\t", question, '\t');
    assert "TF\t" == "TF" + "\t";
    CountConcat("TF", "\t", '\t');
    assert multiset("\t")['\t'] == 1;
    assert multiset(question)['\t'] >= 1;
  }

  /**
   * A TF line reads back as its question and answer exactly when the
   * question holds neither a tab nor a line break: nothing escapes either.
   */
  lemma TrueFalseRoundTrip(question: string, b: bool)
    ensures DecodeTrueFalse(TrueFalseItem(question, b)) == Some((question, b)) <==>
      '\t' !in question && '\n' !in question
  {
    var line := TrueFalseItem(question, b);
    var body := "TF\t" + question + "\t" + AnswerWord(b);
    ItemBody(question, b);
    if '\n' in question {
      BodyShowsQuestion(question, b, '\n');
    } else if '\t' in question {
      TabbedQuestionSplits(question, b);
    } else {
      ItemAsFields(question, b);
      assert body == Join(["TF", question, AnswerWord(b)], '\t');
      assert NoneContains(["TF", question, AnswerWord(b)], '\t');
      assert '\n' !in body by {
        assert NoneContains(["TF", question, AnswerWord(b)], '\n');
        JoinAvoids(["TF", question, AnswerWord(b)], '\t', '\n');
      }
      SplitJoin(["TF", question, AnswerWord(b)], '\t');
    }
  }

  /** Where the question and the answer sit in a line. */
  lemma ItemLayout(question: string, b: bool)
    ensures var line := TrueFalseItem(question, b);
      |line| == |question| + (if b then 9 else 10) &&
      line[3..3 + |question|] == question &&
      line[|line| - 5] == (if b then 't' else 'a')
  {
    var line := TrueFalseItem(question, b);
    var tail := "\t" + AnswerWord(b) + "\n";
    assert line == "TF\t" + question + tail;
    SliceMiddle("TF\t", question, tail);
    assert line[|line| - 5] == tail[|tail| - 5];
  }

  /** Distinct questions give distinct lines, whatever the answers. */
  lemma TrueFalseItemInjective(q1: string, b1: bool, q2: string, b2: bool)
    requires TrueFalseItem(q1, b1) == TrueFalseItem(q2, b2)
    ensures q1 == q2 && b1 == b2
  {
    ItemLayout(q1, b1);
    ItemLayout(q2, b2);
  }

  /** The default answer: a line built without the flag is marked true. */
  lemma DefaultIsTrue(question: string)
    ensures TrueFalseItem(question) == TrueFalseItem(question, true)
    ensures var line := TrueFalseItem(question); |line| >= 6 && line[|line| - 6..] == "\ttrue\n"
  {
    var line := TrueFalseItem(question);
    assert line == ("TF\t" + question) + "\ttrue\n";
  }

  // The pool driver `generateQuestionPool`: question i hands out the
  // dataset file numbered i.

  /** `NUMBER_QUESTIONS` */
  const NumberQuestions: nat := 50

  const NamePrefix: string := "reads_"
  const NameSuffix: string := "_R1.fastq.tgz"

  /** `f"reads_{i:03}_R1.fastq.tgz"` */
  function DatasetName(i: nat): string
  {
    NamePrefix + Format03(i) + NameSuffix
  }

  /** The question text before the dataset's code span. */
  const Allocated: string := "<b>You have been " + "allocated the dataset "

  /** The question text after the dataset's code span. */
  const Instructions: string :=
    "</b><br><br>" + "Do not proceed until " + "you have downloaded " + "this file.<br><br>" +
    "Click True when " + "you're ready."

  /** The question of iteration `i`. */
  function DriverQuestion(i: nat): string
  {
    Allocated + CodeSpan(DatasetName(i)) + Instructions
  }

  /** The line written for iteration `i`. */
  function PoolLine(i: nat): string
  {
    TrueFalseItem(DriverQuestion(i))
  }

  /** Iteration 3 hands out `reads_003_R1.fastq.tgz`. */
  lemma ThirdDataset()
    ensures DatasetName(3) == "reads_" + "003" + "_R1.fastq.tgz"
  {
    assert DecimalString(3) == "3";
    assert Zeros(2) == "00";
  }

  /** The whole line that iteration 3 writes to the pool file, grouped as the question is built. */
  lemma ThirdLine()
    ensures PoolLine(3) ==
      "TF\t" +
      (("<b>You have been " + "allocated the dataset ") +
       ("<span style=\"" + "border: 1px solid " + "grey; " + "border-radius: 5px; " + "padding: 3px; " +
        "font-family: " + "Courier New;\">" + ("reads_" + "003" + "_R1.fastq.tgz") + "</span>") +
       ("</b><br><br>" + "Do not proceed until " + "you have downloaded " + "this file.<br><br>" +
        "Click True when " + "you're ready.")) +
      "\t" + "true" + "\n"
  {
    ThirdDataset();
  }

  /** Below 1000, the name's three digits sit between the fixed parts and denote `i`. */
  lemma DatasetNameDigits(i: nat)
    requires i < 1000
    ensures |DatasetName(i)| == |NamePrefix| + 3 + |NameSuffix|
    ensures DatasetName(i)[|NamePrefix|..|NamePrefix| + 3] == Format03(i)
    ensures DecimalValue(DatasetName(i)[|NamePrefix|..|NamePrefix| + 3]) == i
  {
    Format03RoundTrip(i);
    SliceMiddle(NamePrefix, Format03(i), NameSuffix);
  }

  /** Distinct numbers below 1000 name distinct datasets. */
  lemma DatasetNameInjective(i: nat, j: nat)
    requires i < 1000 && j < 1000
    ensures DatasetName(i) == DatasetName(j) <==> i == j
  {
    DatasetNameDigits(i);
    DatasetNameDigits(j);
  }

  /** The dataset name can be cut back out of the question. */
  lemma QuestionNamesDataset(i: nat)
    ensures var q := DriverQuestion(i);
      |q| >= |Allocated| + |Instructions| &&
      UnwrapCodeSpan(q[|Allocated|..|q| - |Instructions|]) == Some(DatasetName(i))
  {
    SliceMiddle(Allocated, CodeSpan(DatasetName(i)), Instructions);
    CodeSpanRoundTrip(DatasetName(i));
  }

  /** Distinct iterations below 1000 ask distinct questions. */
  lemma DriverQuestionInjective(i: nat, j: nat)
    requires i < 1000 && j < 1000
    ensures DriverQuestion(i) == DriverQuestion(j) <==> i == j
  {
    QuestionNamesDataset(i);
    QuestionNamesDataset(j);
    DatasetNameInjective(i, j);
  }

  lemma AllocatedPlain()
    ensures Plain(Allocated)
  {
    assert Plain("<b>You have been ");
    assert Plain("allocated the dataset ");
    PlainAppend("<b>You have been ", "allocated the dataset ");
  }

  lemma InstructionsHeadPlain()
    ensures Plain("</b><br><br>") && Plain("Do not proceed until ")
  {
  }

  lemma InstructionsMidPlain()
    ensures Plain("you have downloaded ") && Plain("this file.<br><br>")
  {
  }

  lemma InstructionsTailPlain()
    ensures Plain("Click True when ") && Plain("you're ready.")
  {
  }

  lemma InstructionsPlain()
    ensures Plain(Instructions)
  {
    InstructionsHeadPlain();
    InstructionsMidPlain();
    InstructionsTailPlain();
    var s := "</b><br><br>";
    PlainAppend(s, "Do not proceed until ");
    s := s + "Do not proceed until ";
    PlainAppend(s, "you have downloaded ");
    s := s + "you have downloaded ";
    PlainAppend(s, "this file.<br><br>");
    s := s + "this file.<br><br>";
    PlainAppend(s, "Click True when ");
    s := s + "Click True when ";
    PlainAppend(s, "you're ready.");
  }

  lemma DatasetNamePlain(i: nat)
    ensures Plain(DatasetName(i))
  {
    Format03Digits(i);
    DigitsPlain(Format03(i));
    assert Plain(NamePrefix) && Plain(NameSuffix);
    PlainAppend(NamePrefix, Format03(i));
    PlainAppend(NamePrefix + Format03(i), NameSuffix);
  }

  /** No character below the space, so neither a tab nor a line break, occurs in the question of any iteration. */
  lemma DriverQuestionPlain(i: nat)
    ensures Plain(DriverQuestion(i))
  {
    AllocatedPlain();
    InstructionsPlain();
    DatasetNamePlain(i);
    CodeSpanPlain(DatasetName(i));
    PlainAppend(Allocated, CodeSpan(DatasetName(i)));
    PlainAppend(Allocated + CodeSpan(DatasetName(i)), Instructions);
  }

  /**
   * Every line of the pool is a single line that reads back as its own
   * question, marked true.
   */
  lemma PoolLineRoundTrip(i: nat)
    ensures DecodeTrueFalse(PoolLine(i)) == Some((DriverQuestion(i), true))
    ensures var line := PoolLine(i); |line| > 0 && '\n' !in line[..|line| - 1]
    ensures var line := PoolLine(i); |line| >= 6 && line[|line| - 6..] == "\ttrue\n"
  {
    DriverQuestionPlain(i);
    PlainAvoids(DriverQuestion(i), '\t');
    PlainAvoids(DriverQuestion(i), '\n');
    TrueFalseRoundTrip(DriverQuestion(i), true);
    DefaultIsTrue(DriverQuestion(i));
  }

  /** Distinct iterations below 1000 write distinct lines. */
  lemma PoolLinesDistinct(i: nat, j: nat)
    requires i < 1000 && j < 1000 && i != j
    ensures PoolLine(i) != PoolLine(j)
  {
    if PoolLine(i) == PoolLine(j) {
      TrueFalseItemInjective(DriverQuestion(i), true, DriverQuestion(j), true);
      DriverQuestionInjective(i, j);
    }
  }

  /** `generateQuestionPool`: the lines for iterations 1 to `NUMBER_QUESTIONS`, in order. */
  method GeneratePool() returns (lines: seq<string>)
    ensures |lines| == NumberQuestions
    ensures forall k :: 0 <= k < |lines| ==> lines[k] == PoolLine(k + 1)
  {
    ghost var expected := seq(NumberQuestions, k requires 0 <= k < NumberQuestions => PoolLine(k + 1));
    lines := [];
    for i := 1 to NumberQuestions + 1
      invariant lines == expected[..i - 1]
    {
      var dataset := CodeSpan(DatasetName(i));
      var question := Allocated + dataset + Instructions;
      assert question == DriverQuestion(i);
      var line := TrueFalseItem(question);
      assert line == expected[i - 1];
      lines := lines + [line];
    }
  }
}
