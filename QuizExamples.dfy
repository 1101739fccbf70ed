/** Lines and replies worked through the parser: a choice line in the
    layout the parser expects, a line without a label separator, a flag
    without its space, extra space before the marker, a label separator
    taken by the marker, a second label separator, and two whole replies. */
module QuizExamples {
  import opened PyStr
  import opened QuizParser
  import opened QuizLayout
  import opened QuizRender
  import opened QuizQuirks

  /** A marked line in the expected layout is correct, the marker gone
      from its text. */
  lemma MarkedChoice()
    ensures ParseChoice("b) London (correct)") == Ok(Choice("London", true))
  {
    MarkedLine("b) London (correct)", "London");
  }

  lemma MarkedLine(line: string, t: string)
    requires t == "London" && line == ['b'] + LabelSeparator + t + CorrectMarker
    ensures ParseChoice(line) == Ok(Choice(t, true))
  {
    AbsentChar(t, LabelSeparator, 0);
    AbsentChar(t, CorrectFlag, 0);
    ChoiceLineRoundTrip(1, Choice(t, true));
    FirstLabels();
    assert ChoiceLine(1, Choice(t, true)) == line;
  }

  /** A line without `) ` is an error, reported with that line. */
  lemma UnlabelledChoice()
    ensures ParseChoice("a Paris") == Err(IndexError("a Paris"))
  {
    AbsentChar("a Paris", CorrectMarker, 1);
    AbsentChar("a Paris", LabelSeparator, 0);
    UnlabelledLine("a Paris");
  }

  /** `(correct)` written without the space before it marks the choice
      correct but stays in its text. */
  lemma UnspacedFlag()
    ensures ParseChoice("a) Paris(correct)") == Ok(Choice("Paris(correct)", true))
  {
    UnspacedLine("a) Paris(correct)", "Paris(correct)");
  }

  lemma UnspacedLine(line: string, t: string)
    requires t == "Paris" + CorrectFlag && line == ['a'] + LabelSeparator + t
    ensures ParseChoice(line) == Ok(Choice(t, true))
  {
    AbsentChar(t, LabelSeparator, 1);
    AbsentChar(t, CorrectMarker, 0);
    NoMarkerAfterLabel('a', t);
    assert OccursAt(t, CorrectFlag, 5);
    LabelledLine('a', t);
  }

  /** Two spaces before `(correct)`: the marker goes with one, and the
      other is stripped from the text. */
  lemma DoubleSpacedMarker()
    ensures ParseChoice("b) London  (correct)") == Ok(Choice("London", true))
  {
    DoubleSpacedLine("b) London  (correct)", "London ", "London");
  }

  lemma DoubleSpacedLine(line: string, t: string, core: string)
    requires core == "London" && t == core + " " && line == ['b'] + LabelSeparator + t + CorrectMarker
    ensures ParseChoice(line) == Ok(Choice(core, true))
  {
    AbsentChar(t, LabelSeparator, 0);
    AbsentChar(t, CorrectFlag, 0);
    PaddedMarker('b', t);
    TrailingSpaceStripped(core);
  }

  lemma TrailingSpaceStripped(core: string)
    requires IsStripped(core)
    ensures Strip(core + " ") == core
  {
    assert [] + core + " " == core + " ";
    StripUnique([], core, " ");
  }

  /** In `b) (correct)` the marker takes the space of the only `) `, so
      the line raises the index error although it holds `) `. */
  lemma MarkerOnlyChoice()
    ensures ParseChoice("b) (correct)") == Err(IndexError("b) (correct)"))
  {
    MarkerOnlyLine("b) (correct)");
  }

  lemma MarkerOnlyLine(line: string)
    requires line == ['b', ')'] + CorrectMarker
    ensures ParseChoice(line) == Err(IndexError(line))
  {
    MarkerTakesSeparatorSpace('b');
  }

  /** A second `) ` ends the choice text. */
  lemma SecondSeparator()
    ensures ParseChoice("b) Option B) or C") == Ok(Choice("Option B", false))
  {
    TruncatedLine("b) Option B) or C");
  }

  lemma TruncatedLine(line: string)
    requires line == ['b'] + LabelSeparator + "Option B" + LabelSeparator + "or C"
    ensures ParseChoice(line) == Ok(Choice("Option B", false))
  {
    AbsentChar("Option B", LabelSeparator, 0);
    AbsentChar(line, CorrectFlag, 0);
    SecondSeparatorTruncates('b', "Option B", "or C");
    StripOfStripped("Option B");
  }

  lemma FirstLabels()
    ensures Label(0) == 'a' && Label(1) == 'b'
  {
  }

  /** A reply in the layout the parser expects parses to its question, the
      marked choice correct and the marker gone from its text. */
  lemma LaidOutExample(raw: string)
    requires raw == "Q1?\na) Paris\nb) London (correct)"
    ensures ParseQuiz(raw) == Ok([Question("Q1?", [Choice("Paris", false), Choice("London", true)])])
  {
    var c1 := Choice("Paris", false);
    var c2 := Choice("London", true);
    FirstLabels();
    RenderedReply(raw, c1, c2);
    CanonicalParts("Q1?", c1, c2);
    TwoRenderedChoices(raw, "Q1?", c1, c2);
  }

  lemma RenderedReply(raw: string, c1: Choice, c2: Choice)
    requires raw == "Q1?\na) Paris\nb) London (correct)"
    requires c1 == Choice("Paris", false) && c2 == Choice("London", true)
    requires Label(0) == 'a' && Label(1) == 'b'
    ensures raw == "Q1?" + LineSeparator + ChoiceLine(0, c1) + LineSeparator + ChoiceLine(1, c2)
  {
    RenderedLines(c1, c2);
    ReplyLines(raw);
  }

  lemma RenderedLines(c1: Choice, c2: Choice)
    requires c1 == Choice("Paris", false) && c2 == Choice("London", true)
    requires Label(0) == 'a' && Label(1) == 'b'
    ensures ChoiceLine(0, c1) == "a) Paris" && ChoiceLine(1, c2) == "b) London (correct)"
  {
  }

  lemma ReplyLines(raw: string)
    requires raw == "Q1?\na) Paris\nb) London (correct)"
    ensures raw == "Q1?" + LineSeparator + "a) Paris" + LineSeparator + "b) London (correct)"
  {
  }

  lemma CanonicalParts(q: string, c1: Choice, c2: Choice)
    requires q == "Q1?" && c1 == Choice("Paris", false) && c2 == Choice("London", true)
    ensures IsLayoutLine(q) && IsCanonicalChoice(c1) && IsCanonicalChoice(c2)
  {
    AbsentChar(c1.text, LabelSeparator, 0);
    AbsentChar(c1.text, CorrectFlag, 0);
    AbsentChar(c2.text, LabelSeparator, 0);
    AbsentChar(c2.text, CorrectFlag, 0);
  }

  /** A question line followed by two rendered choice lines parses back
      to that question with those two choices. */
  lemma TwoRenderedChoices(raw: string, q: string, c1: Choice, c2: Choice)
    requires IsLayoutLine(q) && IsCanonicalChoice(c1) && IsCanonicalChoice(c2)
    requires raw == q + LineSeparator + ChoiceLine(0, c1) + LineSeparator + ChoiceLine(1, c2)
    ensures ParseQuiz(raw) == Ok([Question(q, [c1, c2])])
  {
    ChoiceLineRoundTrip(0, c1);
    ChoiceLineRoundTrip(1, c2);
    TwoChoiceReply(raw, q, ChoiceLine(0, c1), ChoiceLine(1, c2), c1, c2);
  }

  /** A reply whose choice line has no `) ` fails, naming that line. */
  lemma MissingLabel(raw: string)
    requires raw == "Q1?\na Paris"
    ensures ParseQuiz(raw) == Err(IndexError("a Paris"))
  {
    MissingLabelReply(raw, "Q1?", "a Paris");
  }

  lemma MissingLabelReply(raw: string, q: string, line: string)
    requires q == "Q1?" && line == "a Paris" && raw == q + LineSeparator + line
    ensures ParseQuiz(raw) == Err(IndexError(line))
  {
    AbsentChar(line, CorrectMarker, 1);
    AbsentChar(line, LabelSeparator, 0);
    UnlabelledReply(raw, q, line);
  }
}
