/** What the choice-line rules do to lines that stray from the layout the
    parser expects: a flag written without its leading space is kept in the
    text, whitespace before the spaced marker is stripped away, a label
    separator consumed by the marker leaves none, and a second label
    separator cuts the text short. */
module QuizQuirks {
  import opened PyStr
  import opened QuizParser
  import opened QuizLayout
  import opened QuizRender

  /** A line with neither the marker nor a label separator cannot be
      indexed past its label: it is the error, carrying the line. */
  lemma UnlabelledLine(line: string)
    requires IsStripped(line) && !Contains(line, CorrectMarker) && !Contains(line, LabelSeparator)
    ensures ParseChoice(line) == Err(IndexError(line))
  {
    StripOfStripped(line);
  }

  /** A labelled line with no spaced marker anywhere keeps its whole text
      after the label, a `(correct)` written inside it included, and is correct
      exactly when that text holds `(correct)`. */
  lemma LabelledLine(x: char, t: string)
    requires 'a' <= x <= 'z'
    requires t != [] && IsStripped(t) && !Contains(t, LabelSeparator)
    requires !Contains([x] + LabelSeparator + t, CorrectMarker)
    ensures ParseChoice([x] + LabelSeparator + t) == Ok(Choice(t, Contains(t, CorrectFlag)))
  {
    var u := [x] + LabelSeparator + t;
    assert IsStripped(u);
    StripOfStripped(u);
    LabelledSplit(x, t);
    assert Split(t, LabelSeparator) == [t];
    StripOfStripped(t);
    FlagAfterLabel(x, t);
  }

  /** With a second label separator, the text stops at it: whatever
      follows is lost. */
  lemma SecondSeparatorTruncates(x: char, t1: string, t2: string)
    requires 'a' <= x <= 'z'
    requires !Contains(t1, LabelSeparator)
    requires var line := [x] + LabelSeparator + t1 + LabelSeparator + t2;
      IsStripped(line) && !Contains(line, CorrectFlag)
    ensures ParseChoice([x] + LabelSeparator + t1 + LabelSeparator + t2) == Ok(Choice(Strip(t1), false))
  {
    var line := [x] + LabelSeparator + t1 + LabelSeparator + t2;
    StripOfStripped(line);
    NoFlagNoMarker(line);
    assert Unmarked(line) == line;
    assert line == [x] + LabelSeparator + (t1 + LabelSeparator + t2);
    LabelledSplit(x, t1 + LabelSeparator + t2);
    TwoCharSeparatorEnds(t1, LabelSeparator);
    SplitFirst(t1, LabelSeparator, t2);
  }

  /** Whatever precedes the spaced marker after the label, trailing
      whitespace included, is the text once stripped: the marker removed,
      the piece after the label is all that is left. */
  lemma PaddedMarker(x: char, t: string)
    requires 'a' <= x <= 'z' && !Contains(t, LabelSeparator) && !Contains(t, CorrectFlag)
    ensures ParseChoice([x] + LabelSeparator + t + CorrectMarker) == Ok(Choice(Strip(t), true))
  {
    var u := [x] + LabelSeparator + t;
    var line := u + CorrectMarker;
    assert IsStripped(line);
    StripOfStripped(line);
    FlagAfterLabel(x, t);
    FlagOnlyIfMarked(u, true);
    MarkerRemoved(u, true);
    LabelledSplit(x, t);
    assert Split(t, LabelSeparator) == [t];
  }

  /** A line whose only label separator is the `) ` of `x) (correct)` loses
      it with the marker, and so raises the index error. */
  lemma MarkerTakesSeparatorSpace(x: char)
    requires 'a' <= x <= 'z'
    ensures var line := [x, ')'] + CorrectMarker;
      Contains(line, LabelSeparator) && ParseChoice(line) == Err(IndexError(line))
  {
    var u := [x, ')'];
    var line := u + CorrectMarker;
    assert OccursAt(line, LabelSeparator, 1);
    assert IsStripped(line);
    StripOfStripped(line);
    AbsentChar(u, CorrectFlag, 0);
    MarkerRemoved(u, true);
    AbsentChar(u, LabelSeparator, 1);
  }

  /** The label and its separator hold no marker, nor does a marker begin
      at the separator's space when the text does not open with `(`. */
  lemma NoMarkerAfterLabel(x: char, t: string)
    requires 'a' <= x <= 'z' && t != [] && t[0] != '(' && !Contains(t, CorrectMarker)
    ensures !Contains([x] + LabelSeparator + t, CorrectMarker)
  {
    var u := [x] + LabelSeparator + t;
    assert u[3..] == t;
    forall i: nat | i + |CorrectMarker| <= |u| ensures !OccursAt(u, CorrectMarker, i) {
      if i >= 3 {
        SliceOfSlice(u, 3, |u|, i - 3, i - 3 + |CorrectMarker|);
        assert !OccursAt(t, CorrectMarker, i - 3);
      } else if i == 2 {
        assert u[i..i + |CorrectMarker|][1] == u[3];
      } else {
        assert u[i..i + |CorrectMarker|][0] == u[i];
      }
    }
  }

  /** A reply whose only choice line has no label separator fails with
      that line. */
  lemma UnlabelledReply(raw: string, question: string, line: string)
    requires IsLayoutLine(question) && IsLayoutLine(line) && raw == question + LineSeparator + line
    requires !Contains(line, CorrectMarker) && !Contains(line, LabelSeparator)
    ensures ParseQuiz(raw) == Err(IndexError(line))
  {
    OneChoiceReply(raw, question, line);
    UnlabelledLine(line);
  }

  /** A reply whose only choice line is labelled and holds no spaced marker
      keeps that line's whole text, a `(correct)` written without its space
      included. */
  lemma LabelledReply(raw: string, question: string, x: char, t: string)
    requires 'a' <= x <= 'z' && IsLayoutLine(question) && IsLayoutLine(t)
    requires !Contains(t, LabelSeparator) && !Contains([x] + LabelSeparator + t, CorrectMarker)
    requires raw == question + LineSeparator + ([x] + LabelSeparator + t)
    ensures ParseQuiz(raw) == Ok([Question(question, [Choice(t, Contains(t, CorrectFlag))])])
  {
    OneChoiceReply(raw, question, [x] + LabelSeparator + t);
    LabelledLine(x, t);
  }

  /** A reply whose only choice line holds a second label separator keeps
      only the text before it. */
  lemma TruncatedReply(raw: string, question: string, x: char, t1: string, t2: string)
    requires 'a' <= x <= 'z' && IsLayoutLine(question)
    requires !Contains(t1, LabelSeparator)
    requires var line := [x] + LabelSeparator + t1 + LabelSeparator + t2;
      IsLayoutLine(line) && !Contains(line, CorrectFlag) && raw == question + LineSeparator + line
    ensures ParseQuiz(raw) == Ok([Question(question, [Choice(Strip(t1), false)])])
  {
    var line := [x] + LabelSeparator + t1 + LabelSeparator + t2;
    OneChoiceReply(raw, question, line);
    SecondSeparatorTruncates(x, t1, t2);
  }

  /** A reply of one question line and one choice line parses to that
      question with that choice, or fails with that choice's error. */
  lemma OneChoiceReply(raw: string, question: string, line: string)
    requires IsLayoutLine(question) && IsLayoutLine(line) && raw == question + LineSeparator + line
    ensures ParseChoice(line).Ok? ==> ParseQuiz(raw) == Ok([Question(question, [ParseChoice(line).value])])
    ensures ParseChoice(line).Err? ==> ParseQuiz(raw) == Err(ParseChoice(line).error)
  {
    var ls := [question, line];
    assert ls[1..] == [line];
    JoinTwo(question, line, LineSeparator);
    MapAllSingle(ParseChoice, line);
    StripOfStripped(question);
    SingleBlockReply(ls);
  }

  /** A reply of one question line and two choice lines that parse gives
      that question with those two choices, in order. */
  lemma TwoChoiceReply(raw: string, question: string, l1: string, l2: string, c1: Choice, c2: Choice)
    requires IsLayoutLine(question) && IsLayoutLine(l1) && IsLayoutLine(l2)
    requires raw == question + LineSeparator + l1 + LineSeparator + l2
    requires ParseChoice(l1) == Ok(c1) && ParseChoice(l2) == Ok(c2)
    ensures ParseQuiz(raw) == Ok([Question(question, [c1, c2])])
  {
    var ls := [question, l1, l2];
    forall k | 0 <= k < |ls| ensures IsLayoutLine(ls[k]) {
      if k == 0 {} else if k == 1 {} else {}
    }
    assert ls[1..] == [l1, l2];
    JoinThree(question, l1, l2, LineSeparator);
    MapAllOk(ParseChoice, [l1, l2], [c1, c2]);
    StripOfStripped(question);
    SingleBlockReply(ls);
  }
}
