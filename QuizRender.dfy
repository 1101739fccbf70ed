/** Rendering parsed questions back into the reply layout the parser
    expects: the question line, then one labelled choice line per choice,
    the correct ones followed by ` (correct)`. Parsing a rendering gives the
    questions back whenever their texts fit in that format. */
module QuizRender {
  import opened PyStr
  import opened QuizParser
  import opened QuizLayout

  /** The option label of the `m`-th choice: `a`, `b`, `c`, ... */
  function Label(m: nat): (c: char)
    ensures 'a' <= c <= 'z'
  {
    (('a' as int) + m % 26) as char
  }

  /** The line `a) Paris`, or `b) London (correct)` for a correct choice. */
  function ChoiceLine(m: nat, c: Choice): string {
    [Label(m)] + LabelSeparator + c.text + (if c.correct then CorrectMarker else "")
  }

  function QuestionLines(q: Question): (ls: seq<string>)
    ensures |ls| == |q.choices| + 1 && ls[0] == q.text
    ensures forall m :: 0 <= m < |q.choices| ==> ls[m + 1] == ChoiceLine(m, q.choices[m])
  {
    [q.text] + seq(|q.choices|, m requires 0 <= m < |q.choices| => ChoiceLine(m, q.choices[m]))
  }

  function RenderLayout(qs: seq<Question>): (bs: seq<seq<string>>)
    ensures |bs| == |qs| && forall k :: 0 <= k < |qs| ==> bs[k] == QuestionLines(qs[k])
  {
    seq(|qs|, k requires 0 <= k < |qs| => QuestionLines(qs[k]))
  }

  /** The reply text for `qs`: one block per question. */
  function Render(qs: seq<Question>): string {
    ReplyText(RenderLayout(qs))
  }

  /** A choice text that a choice line carries unchanged: one stripped,
      non-empty line without a label separator or a correctness flag. */
  predicate IsCanonicalChoice(c: Choice) {
    IsLayoutLine(c.text) && !Contains(c.text, LabelSeparator) && !Contains(c.text, CorrectFlag)
  }

  predicate IsCanonicalQuestion(q: Question) {
    IsLayoutLine(q.text) && forall m :: 0 <= m < |q.choices| ==> IsCanonicalChoice(q.choices[m])
  }

  /** Parsing the rendering of canonical questions gives them back. */
  lemma RenderRoundTrip(qs: seq<Question>)
    requires qs != [] && forall k :: 0 <= k < |qs| ==> IsCanonicalQuestion(qs[k])
    ensures ParseQuiz(Render(qs)) == Ok(qs)
  {
    var bs := RenderLayout(qs);
    forall k | 0 <= k < |qs|
      ensures IsLayoutBlock(bs[k]) && ChoicesWellFormed(bs[k]) && bs[k][0] == qs[k].text
      ensures MapAll(ParseChoice, bs[k][1..]) == Ok(qs[k].choices)
    {
      QuestionRoundTrip(qs[k]);
    }
    LaidOutRoundTrip(bs, qs);
  }

  /** The lines of a canonical question are laid out, and its choice lines
      parse back to its choices. */
  lemma QuestionRoundTrip(q: Question)
    requires IsCanonicalQuestion(q)
    ensures var ls := QuestionLines(q);
      && IsLayoutBlock(ls) && ChoicesWellFormed(ls)
      && MapAll(ParseChoice, ls[1..]) == Ok(q.choices)
  {
    var ls := QuestionLines(q);
    ChoiceLinesRoundTrip(q);
    forall k | 1 <= k < |ls| ensures IsLayoutLine(ls[k]) && !Malformed(ls[k]) {
      var m := k - 1;
      assert ParseChoice(ls[m + 1]).Ok?;
    }
    var cl := ls[1..];
    forall m | 0 <= m < |cl| ensures ParseChoice(cl[m]) == Ok(q.choices[m]) {
      assert cl[m] == ls[m + 1];
    }
    MapAllOk(ParseChoice, cl, q.choices);
  }

  /** Every choice line of a canonical question is laid out and parses
      back to its choice. */
  lemma ChoiceLinesRoundTrip(q: Question)
    requires IsCanonicalQuestion(q)
    ensures var ls := QuestionLines(q);
      forall m :: 0 <= m < |q.choices| ==> IsLayoutLine(ls[m + 1]) && ParseChoice(ls[m + 1]) == Ok(q.choices[m])
  {
    forall m | 0 <= m < |q.choices| ensures
      IsLayoutLine(ChoiceLine(m, q.choices[m])) && ParseChoice(ChoiceLine(m, q.choices[m])) == Ok(q.choices[m])
    {
      ChoiceLineRoundTrip(m, q.choices[m]);
    }
  }

  /** A canonical choice's line is laid out and parses back to the choice. */
  lemma ChoiceLineRoundTrip(m: nat, c: Choice)
    requires IsCanonicalChoice(c)
    ensures IsLayoutLine(ChoiceLine(m, c))
    ensures ParseChoice(ChoiceLine(m, c)) == Ok(c)
  {
    var x := Label(m);
    var t := c.text;
    var u := [x] + LabelSeparator + t;
    var line := ChoiceLine(m, c);
    assert line == u + (if c.correct then CorrectMarker else "");
    FlagAfterLabel(x, t);
    assert '\n' !in line;
    assert IsStripped(line);
    StripOfStripped(line);
    MarkerRemoved(u, c.correct);
    LabelledSplit(x, t);
    assert Split(t, LabelSeparator) == [t];
    StripOfStripped(t);
    FlagOnlyIfMarked(u, c.correct);
  }

  /** The correctness flag is found in a choice line exactly when the
      marker was appended. */
  lemma FlagOnlyIfMarked(u: string, correct: bool)
    requires !Contains(u, CorrectFlag)
    ensures Contains(u + (if correct then CorrectMarker else ""), CorrectFlag) == correct
  {
    if correct {
      var s := u + CorrectMarker;
      assert s[|u| + 1..|u| + 1 + |CorrectFlag|] == CorrectFlag;
      assert OccursAt(s, CorrectFlag, |u| + 1);
    } else {
      assert u + "" == u;
    }
  }

  /** A labelled line is split first at its label separator. */
  lemma LabelledSplit(x: char, rest: string)
    requires 'a' <= x <= 'z'
    ensures Split([x] + LabelSeparator + rest, LabelSeparator) == [[x]] + Split(rest, LabelSeparator)
  {
    assert !Contains([x], LabelSeparator);
    TwoCharSeparatorEnds([x], LabelSeparator);
    SplitFirst([x], LabelSeparator, rest);
  }

  /** Removing the correctness marker from a choice line leaves the
      labelled text. */
  lemma MarkerRemoved(u: string, correct: bool)
    requires !Contains(u, CorrectFlag)
    ensures Unmarked(u + (if correct then CorrectMarker else "")) == u
  {
    if correct {
      var s := u + CorrectMarker;
      MarkerFirstAtEnd(u);
      assert s[..|u|] == u;
      assert s[|u| + |CorrectMarker|..] == [];
      assert !Contains([], CorrectMarker);
      assert Replace(s, CorrectMarker, "") == u + "" + Replace([], CorrectMarker, "");
    } else {
      NoFlagNoMarker(u);
      assert u + "" == u;
    }
  }

  lemma NoFlagNoMarker(s: string)
    requires !Contains(s, CorrectFlag)
    ensures !Contains(s, CorrectMarker)
  {
    assert CorrectMarker == [' '] + CorrectFlag;
    forall j: nat | j <= |s| ensures !OccursAt(s, CorrectMarker, j) {
      ShiftedOccurrence(s, ' ', CorrectFlag, j);
      assert !OccursAt(s, CorrectFlag, j + 1);
    }
  }

  /** A marker appended to a flag-free string is the first marker. */
  lemma MarkerFirstAtEnd(u: string)
    requires !Contains(u, CorrectFlag)
    ensures Find(u + CorrectMarker, CorrectMarker) == Some(|u|)
  {
    MarkerIsSpacedFlag();
    FirstAtEnd(u, CorrectMarker, ' ', CorrectFlag);
  }

  /** The marker is a space followed by the flag, which holds no space. */
  lemma MarkerIsSpacedFlag()
    ensures CorrectMarker == [' '] + CorrectFlag && ' ' !in CorrectFlag
  {
  }

  /** An occurrence of `[c] + f` holds an occurrence of `f` one later. */
  lemma ShiftedOccurrence(s: string, c: char, f: string, j: nat)
    ensures OccursAt(s, [c] + f, j) ==> OccursAt(s, f, j + 1)
  {
    if OccursAt(s, [c] + f, j) {
      SliceOfSlice(s, j, j + 1 + |f|, 1, 1 + |f|);
      assert ([c] + f)[1..] == f;
    }
  }

  /** `[c] + f`, appended to a string free of `f`, is first found where it
      was appended, provided `c` does not occur in `f`. */
  lemma FirstAtEnd(u: string, pat: string, c: char, f: string)
    requires pat == [c] + f && f != [] && c !in f && !Contains(u, f)
    ensures Find(u + pat, pat) == Some(|u|)
  {
    var s := u + pat;
    assert s[|u|..|u| + |pat|] == pat;
    forall j: nat | j < |u| ensures !OccursAt(s, pat, j) {
      ShiftedOccurrence(s, c, f, j);
      if j + 1 + |f| <= |u| {
        SliceOfConcat(u, pat, j + 1, j + 1 + |f|);
        assert !OccursAt(u, f, j + 1);
      } else if j + 1 + |f| <= |s| {
        assert s[|u|] == c;
        assert s[j + 1..j + 1 + |f|][|u| - j - 1] == s[|u|];
      }
    }
    FindIs(s, pat, |u|);
  }

  /** The flag occurs in a labelled line exactly when it occurs in the text. */
  lemma FlagAfterLabel(x: char, t: string)
    requires 'a' <= x <= 'z'
    ensures Contains([x] + LabelSeparator + t, CorrectFlag) == Contains(t, CorrectFlag)
  {
    var u := [x] + LabelSeparator + t;
    assert u[3..] == t;
    if Contains(t, CorrectFlag) {
      var j: nat :| j <= |t| && OccursAt(t, CorrectFlag, j);
      SliceOfSlice(u, 3, |u|, j, j + |CorrectFlag|);
      assert OccursAt(u, CorrectFlag, j + 3);
    } else {
      forall i: nat | i + |CorrectFlag| <= |u| ensures !OccursAt(u, CorrectFlag, i) {
        if i >= 3 {
          SliceOfSlice(u, 3, |u|, i - 3, i - 3 + |CorrectFlag|);
          assert !OccursAt(t, CorrectFlag, i - 3);
        } else {
          assert u[i..i + |CorrectFlag|][0] == u[i];
        }
      }
    }
  }
}
