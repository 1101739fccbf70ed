/** The quiz-reply parser of `api_generate_quiz`: the model's raw reply is
    cut into blank-line separated blocks, each block into lines; the first
    line is the question and every later line a labelled choice. */
module QuizParser {
  import opened PyStr

  datatype Choice = Choice(text: string, correct: bool)

  datatype Question = Question(text: string, choices: seq<Choice>)

  /** The `IndexError` raised by `split(') ')[1]` on a choice line with no
      label separator left once every `CorrectMarker` is removed; it carries
      that stripped choice line. */
  datatype ParseError = IndexError(line: string)

  datatype Result<T> = Ok(value: T) | Err(error: ParseError)

  const BlockSeparator: string := "\n\n"
  const LineSeparator: string := "\n"
  /** Sets the `correct` flag wherever it occurs in a choice line. */
  const CorrectFlag: string := "(correct)"
  /** Removed from a choice line before its text is cut out. */
  const CorrectMarker: string := " (correct)"
  /** Ends the option label of a choice line, as in `a) `. */
  const LabelSeparator: string := ") "

  /** The question blocks of a reply: `raw.strip().split('\n\n')`. */
  function Blocks(raw: string): seq<string> {
    Split(Strip(raw), BlockSeparator)
  }

  /** The lines of a block: `block.strip().split('\n')`. */
  function Lines(block: string): seq<string> {
    Split(Strip(block), LineSeparator)
  }

  /** A stripped choice line with every `CorrectMarker` removed. */
  function Unmarked(line: string): string {
    Replace(line, CorrectMarker, "")
  }

  /** A choice line that `split(') ')[1]` cannot index. */
  predicate Malformed(rawLine: string) {
    !Contains(Unmarked(Strip(rawLine)), LabelSeparator)
  }

  /** One choice line: the flag is the presence of `(correct)`, the text is
      the second `) `-separated piece of the unmarked line, stripped. */
  function ParseChoice(rawLine: string): (r: Result<Choice>)
    ensures r.Err? <==> Malformed(rawLine)
    ensures r.Err? ==> r.error == IndexError(Strip(rawLine))
    ensures r.Ok? ==> (r.value.correct <==> Contains(Strip(rawLine), CorrectFlag))
    ensures r.Ok? ==> IsStripped(r.value.text) && !Contains(r.value.text, LabelSeparator)
  {
    var line := Strip(rawLine);
    var pieces := Split(Unmarked(line), LabelSeparator);
    if |pieces| < 2 then Err(IndexError(line))
    else
      StripKeepsAbsence(pieces[1], LabelSeparator);
      Ok(Choice(Strip(pieces[1]), Contains(line, CorrectFlag)))
  }

  /** A choice's text is cut from strictly between the first and the second
      label separator of the unmarked line (or its end): the option label
      before the first separator, and anything after a second one, are lost. */
  lemma ChoiceTextBetweenSeparators(rawLine: string)
    requires ParseChoice(rawLine).Ok?
    ensures var u := Unmarked(Strip(rawLine)); var ps := Split(u, LabelSeparator);
      && |ps| >= 2
      && u == ps[0] + LabelSeparator + ps[1]
           + (if |ps| == 2 then "" else LabelSeparator + Join(ps[2..], LabelSeparator))
      && !Contains(ps[0], LabelSeparator) && !Contains(ps[1], LabelSeparator)
      && ParseChoice(rawLine).value.text == Strip(ps[1])
  {
    var ps := Split(Unmarked(Strip(rawLine)), LabelSeparator);
    JoinFirstTwo(ps, LabelSeparator);
  }

  /** Applies `f` to every element in order, as a Python loop that appends
      each result does; the first error ends the loop and is the result. */
  function MapAll<A, B>(f: A -> Result<B>, xs: seq<A>): (r: Result<seq<B>>)
    ensures r.Ok? <==> forall k :: 0 <= k < |xs| ==> f(xs[k]).Ok?
    ensures r.Ok? ==> |r.value| == |xs| && forall k :: 0 <= k < |xs| ==> f(xs[k]) == Ok(r.value[k])
    decreases |xs|
  {
    if xs == [] then Ok([])
    else
      var init := xs[..|xs| - 1];
      assert forall k :: 0 <= k < |init| ==> init[k] == xs[k];
      match MapAll(f, init)
      case Err(e) => Err(e)
      case Ok(ys) =>
        match f(xs[|xs| - 1])
        case Err(e) => Err(e)
        case Ok(y) => Ok(ys + [y])
  }

  /** A loop over one element yields that element's value, or its error. */
  lemma MapAllSingle<A, B>(f: A -> Result<B>, x: A)
    ensures MapAll(f, [x]) == match f(x)
      case Ok(y) => Ok([y])
      case Err(e) => Err(e)
  {
    assert [x][..0] == [];
    match f(x)
    case Ok(y) => assert [] + [y] == [y];
    case Err(e) =>
  }

  /** A loop every element of which succeeds yields exactly their values. */
  lemma MapAllOk<A, B>(f: A -> Result<B>, xs: seq<A>, ys: seq<B>)
    requires |xs| == |ys| && forall k :: 0 <= k < |xs| ==> f(xs[k]) == Ok(ys[k])
    ensures MapAll(f, xs) == Ok(ys)
  {
    var r := MapAll(f, xs);
    assert r.Ok?;
    forall k | 0 <= k < |xs| ensures r.value[k] == ys[k] {
      assert f(xs[k]) == Ok(r.value[k]);
    }
    assert r.value == ys;
  }

  /** One block: its first line, stripped, is the question; every later
      line is a choice. */
  function ParseBlock(block: string): Result<Question> {
    ParseLines(Lines(block))
  }

  /** The question built from a block's lines. */
  function ParseLines(lines: seq<string>): Result<Question>
    requires lines != []
  {
    match MapAll(ParseChoice, lines[1..])
    case Err(e) => Err(e)
    case Ok(choices) => Ok(Question(Strip(lines[0]), choices))
  }

  /** The whole reply: one question per block, in order. */
  function ParseQuiz(raw: string): Result<seq<Question>> {
    MapAll(ParseBlock, Blocks(raw))
  }

  /** Each question is the stripped first line of its block, with one
      choice per later line; there is one question per block, in order;
      and the parse fails exactly when some choice line is malformed. */
  lemma ParseQuizShape(raw: string)
    ensures var r := ParseQuiz(raw); var blocks := Blocks(raw);
      && (r.Ok? ==> |r.value| == |blocks| >= 1)
      && (r.Ok? ==> forall k :: 0 <= k < |r.value| ==> ParsedFrom(r.value[k], blocks[k]))
      && (r.Err? <==> exists k :: 0 <= k < |blocks| && HasMalformedChoice(blocks[k]))
  {
    BlocksShape(Blocks(raw));
  }

  lemma BlocksShape(blocks: seq<string>)
    ensures var r := MapAll(ParseBlock, blocks);
      && (r.Ok? ==> |r.value| == |blocks|)
      && (r.Ok? ==> forall k :: 0 <= k < |r.value| ==> ParsedFrom(r.value[k], blocks[k]))
      && (r.Err? <==> exists k :: 0 <= k < |blocks| && HasMalformedChoice(blocks[k]))
  {
    var r := MapAll(ParseBlock, blocks);
    forall k | 0 <= k < |blocks| ensures ParseBlock(blocks[k]).Err? <==> HasMalformedChoice(blocks[k]) {
      BlockFailsOnMalformed(blocks[k]);
    }
    if r.Ok? {
      forall k | 0 <= k < |blocks| ensures ParsedFrom(r.value[k], blocks[k]) {
        assert ParseBlock(blocks[k]) == Ok(r.value[k]);
        BlockParse(blocks[k]);
      }
    }
  }

  /** `q` is what the source builds from `block`: the stripped first line
      as its text and one parsed choice per later line, in order. */
  predicate ParsedFrom(q: Question, block: string) {
    var lines := Lines(block);
    && q.text == Strip(lines[0])
    && |q.choices| == |lines| - 1
    && forall m :: 0 <= m < |lines| - 1 ==> ParseChoice(lines[m + 1]) == Ok(q.choices[m])
  }

  lemma BlockParse(block: string)
    requires ParseBlock(block).Ok?
    ensures ParsedFrom(ParseBlock(block).value, block)
  {
    var lines := Lines(block);
    var choiceLines := lines[1..];
    forall m | 0 <= m < |choiceLines| ensures choiceLines[m] == lines[m + 1] {}
  }

  /** Some choice line of the block (a line after the first) is malformed. */
  predicate HasMalformedChoice(block: string) {
    exists m :: 1 <= m < |Lines(block)| && Malformed(Lines(block)[m])
  }

  lemma BlockFailsOnMalformed(block: string)
    ensures ParseBlock(block).Err? <==> HasMalformedChoice(block)
  {
    var lines := Lines(block);
    var choiceLines := lines[1..];
    forall m | 1 <= m < |lines| ensures lines[m] == choiceLines[m - 1] {}
    forall m | 0 <= m < |choiceLines| ensures choiceLines[m] == lines[m + 1] {}
  }

  /** A blank reply (empty or whitespace only) still yields one question,
      with empty text and no choices. */
  lemma BlankReply(raw: string)
    requires AllSpace(raw)
    ensures ParseQuiz(raw) == Ok([Question("", [])])
  {
    assert Strip(raw) == [];
    AbsentChar("", BlockSeparator, 0);
    AbsentChar("", LineSeparator, 0);
    assert Blocks(raw) == [""];
    assert Lines("") == [""];
    StripOfStripped("");
    assert MapAll(ParseChoice, [""][1..]) == Ok([]);
    assert ParseBlock("") == Ok(Question("", []));
    assert [""][..0] == [];
    assert MapAll(ParseBlock, [""]) == Ok([] + [Question("", [])]);
    assert [] + [Question("", [])] == [Question("", [])];
    assert ParseQuiz(raw) == MapAll(ParseBlock, Blocks(raw));
  }

  /** The error the loop reports is that of its first failing element. */
  lemma {:induction false} MapAllFirstError<A, B>(f: A -> Result<B>, xs: seq<A>)
    requires MapAll(f, xs).Err?
    ensures exists k :: 0 <= k < |xs| && f(xs[k]) == Err(MapAll(f, xs).error)
                        && forall j :: 0 <= j < k ==> f(xs[j]).Ok?
    decreases |xs|
  {
    var init := xs[..|xs| - 1];
    if MapAll(f, init).Err? {
      MapAllFirstError(f, init);
      var k :| 0 <= k < |init| && f(init[k]) == Err(MapAll(f, init).error)
               && forall j :: 0 <= j < k ==> f(init[j]).Ok?;
      assert xs[k] == init[k];
      assert forall j :: 0 <= j < k ==> xs[j] == init[j];
    } else {
      assert f(xs[|xs| - 1]) == Err(MapAll(f, xs).error);
      assert forall j :: 0 <= j < |xs| - 1 ==> f(init[j]).Ok? && xs[j] == init[j];
    }
  }

  /** The parsing loop of `api_generate_quiz`, as written: the stripped
      reply is cut at blank lines, and a loop over the blocks appends the
      question each parses to. */
  method ParseQuizReply(raw: string) returns (r: Result<seq<Question>>)
    ensures r == ParseQuiz(raw)
  {
    var questions := Split(Strip(raw), BlockSeparator);
    r := ParseQuestionBlocks(questions);
  }

  /** The loop over blocks: each block's question is appended in order; the
      first block with a malformed choice line raises its error. */
  method ParseQuestionBlocks(questions: seq<string>) returns (r: Result<seq<Question>>)
    ensures r == MapAll(ParseBlock, questions)
  {
    var quizQuestions: seq<Question> := [];
    for i := 0 to |questions|
      invariant MapAll(ParseBlock, questions[..i]) == Ok(quizQuestions)
    {
      var question := ParseQuestionBlock(questions[i]);
      if question.Err? {
        FirstErrorIsResult(ParseBlock, questions, i);
        return Err(question.error);
      }
      OkExtends(ParseBlock, questions, i, quizQuestions, question.value);
      quizQuestions := quizQuestions + [question.value];
    }
    assert questions[..|questions|] == questions;
    return Ok(quizQuestions);
  }

  /** The body of the loop over blocks: the stripped first line is the
      question, and an inner loop appends one choice per later line; the
      first line with no label separator left once every `CorrectMarker` is
      removed raises. */
  method ParseQuestionBlock(block: string) returns (r: Result<Question>)
    ensures r == ParseBlock(block)
  {
    var lines := Split(Strip(block), LineSeparator);
    var questionText := Strip(lines[0]);
    var choiceLines := lines[1..];
    var choices: seq<Choice> := [];
    for j := 0 to |choiceLines|
      invariant MapAll(ParseChoice, choiceLines[..j]) == Ok(choices)
    {
      var choiceText := Strip(choiceLines[j]);
      var correct := Contains(choiceText, CorrectFlag);
      var pieces := Split(Replace(choiceText, CorrectMarker, ""), LabelSeparator);
      if |pieces| < 2 {
        FirstErrorIsResult(ParseChoice, choiceLines, j);
        return Err(IndexError(choiceText));
      }
      var choice := Choice(Strip(pieces[1]), correct);
      OkExtends(ParseChoice, choiceLines, j, choices, choice);
      choices := choices + [choice];
    }
    assert choiceLines[..|choiceLines|] == choiceLines;
    return Ok(Question(questionText, choices));
  }

  /** One more successful element extends the loop's result by its value. */
  lemma OkExtends<A, B>(f: A -> Result<B>, xs: seq<A>, i: nat, ys: seq<B>, y: B)
    requires i < |xs| && MapAll(f, xs[..i]) == Ok(ys) && f(xs[i]) == Ok(y)
    ensures MapAll(f, xs[..i + 1]) == Ok(ys + [y])
  {
    assert xs[..i + 1][..i] == xs[..i];
  }

  /** Once the loop has failed, further elements do not change the error. */
  lemma {:induction false} ErrorPersists<A, B>(f: A -> Result<B>, xs: seq<A>, n: nat, e: ParseError)
    requires n <= |xs| && MapAll(f, xs[..n]) == Err(e)
    ensures MapAll(f, xs) == Err(e)
    decreases |xs|
  {
    if n == |xs| {
      assert xs[..n] == xs;
    } else {
      var init := xs[..|xs| - 1];
      assert init[..n] == xs[..n];
      ErrorPersists(f, init, n, e);
    }
  }

  /** When every element before `i` succeeds and element `i` fails, the
      whole loop fails with element `i`'s error. */
  lemma FirstErrorIsResult<A, B>(f: A -> Result<B>, xs: seq<A>, i: nat)
    requires i < |xs| && MapAll(f, xs[..i]).Ok? && f(xs[i]).Err?
    ensures MapAll(f, xs) == Err(f(xs[i]).error)
  {
    assert xs[..i + 1][..i] == xs[..i];
    ErrorPersists(f, xs, i + 1, f(xs[i]).error);
  }
}
