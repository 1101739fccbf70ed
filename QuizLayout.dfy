/** Replies laid out the way the parser expects them: blocks of
    non-empty, stripped lines, blocks separated by one blank line. For such
    replies the parser recovers the lines exactly; and a canonical rendering
    of parsed questions parses back to the same questions. */
module QuizLayout {
  import opened PyStr
  import opened QuizParser

  /** A non-empty line without surrounding whitespace or line breaks. */
  predicate IsLayoutLine(l: string) {
    l != [] && IsStripped(l) && '\n' !in l
  }

  /** A question line followed by its choice lines. */
  predicate IsLayoutBlock(ls: seq<string>) {
    ls != [] && forall k :: 0 <= k < |ls| ==> IsLayoutLine(ls[k])
  }

  function BlockText(ls: seq<string>): string {
    Join(ls, LineSeparator)
  }

  function BlockTexts(bs: seq<seq<string>>): (ts: seq<string>)
    ensures |ts| == |bs| && forall k :: 0 <= k < |bs| ==> ts[k] == BlockText(bs[k])
  {
    seq(|bs|, k requires 0 <= k < |bs| => BlockText(bs[k]))
  }

  /** The reply text: blocks joined by a blank line. */
  function ReplyText(bs: seq<seq<string>>): string {
    Join(BlockTexts(bs), BlockSeparator)
  }

  /** A laid-out block is stripped, holds no blank line, and splits back
      into its lines. */
  lemma LaidOutBlock(ls: seq<string>)
    requires IsLayoutBlock(ls)
    ensures var t := BlockText(ls);
      && t != [] && IsStripped(t) && t[|t| - 1] != '\n'
      && !Contains(t, BlockSeparator)
      && Lines(t) == ls
  {
    var t := BlockText(ls);
    JoinEnds(ls, LineSeparator);
    StripOfStripped(t);
    JoinNoDouble(ls, '\n');
    assert BlockSeparator == ['\n', '\n'];
    forall k | 0 <= k < |ls| - 1 ensures EndsAtSeparator(ls[k], LineSeparator) {
      EndsWhereFirstCharAbsent(ls[k], LineSeparator);
    }
    AbsentChar(ls[|ls| - 1], LineSeparator, 0);
    SplitJoin(ls, LineSeparator);
  }

  /** A laid-out reply splits back into its blocks. */
  lemma LaidOutBlocks(bs: seq<seq<string>>)
    requires bs != [] && forall k :: 0 <= k < |bs| ==> IsLayoutBlock(bs[k])
    ensures Blocks(ReplyText(bs)) == BlockTexts(bs)
  {
    var ts := BlockTexts(bs);
    forall k | 0 <= k < |ts|
      ensures ts[k] != [] && IsStripped(ts[k]) && ts[k][|ts[k]| - 1] != '\n'
      ensures !Contains(ts[k], BlockSeparator)
    {
      LaidOutBlock(bs[k]);
    }
    JoinEnds(ts, BlockSeparator);
    StripOfStripped(ReplyText(bs));
    forall k | 0 <= k < |ts| - 1 ensures EndsAtSeparator(ts[k], BlockSeparator) {
      TwoCharSeparatorEnds(ts[k], BlockSeparator);
    }
    SplitJoin(ts, BlockSeparator);
  }

  /** No choice line (a line after the first) of the block is malformed. */
  predicate ChoicesWellFormed(ls: seq<string>) {
    forall m :: 1 <= m < |ls| ==> !Malformed(ls[m])
  }

  /** No choice line of a laid-out reply is malformed. */
  predicate ChoiceLinesWellFormed(bs: seq<seq<string>>) {
    forall k :: 0 <= k < |bs| ==> ChoicesWellFormed(bs[k])
  }

  /** Each question is its block's first line, verbatim, with the choices
      its later lines parse to. */
  predicate ParsedLineByLine(qs: seq<Question>, bs: seq<seq<string>>) {
    && |qs| == |bs|
    && forall k :: 0 <= k < |bs| ==>
         bs[k] != [] && qs[k].text == bs[k][0] && MapAll(ParseChoice, bs[k][1..]) == Ok(qs[k].choices)
  }

  /** A laid-out reply parses line by line, and fails exactly when some
      choice line is malformed. */
  lemma ParseLaidOutReply(bs: seq<seq<string>>)
    requires bs != [] && forall k :: 0 <= k < |bs| ==> IsLayoutBlock(bs[k])
    ensures ParseQuiz(ReplyText(bs)).Ok? <==> ChoiceLinesWellFormed(bs)
    ensures ParseQuiz(ReplyText(bs)).Ok? ==> ParsedLineByLine(ParseQuiz(ReplyText(bs)).value, bs)
  {
    var raw := ReplyText(bs);
    LaidOutBlocks(bs);
    forall k | 0 <= k < |bs|
      ensures bs[k] != [] && ParseBlock(Blocks(raw)[k]) == ParseLines(bs[k])
    {
      LaidOutBlock(bs[k]);
    }
    ParseOfLines(raw, bs);
  }

  /** When each block of `raw` has the lines `bs[k]`, whose question lines
      are stripped, the parse is read off those lines. */
  lemma ParseOfLines(raw: string, bs: seq<seq<string>>)
    requires |Blocks(raw)| == |bs|
    requires forall k :: 0 <= k < |bs| ==>
      IsLayoutBlock(bs[k]) && ParseBlock(Blocks(raw)[k]) == ParseLines(bs[k])
    ensures ParseQuiz(raw).Ok? <==> ChoiceLinesWellFormed(bs)
    ensures ParseQuiz(raw).Ok? ==> ParsedLineByLine(ParseQuiz(raw).value, bs)
  {
    var blocks := Blocks(raw);
    forall k | 0 <= k < |bs|
      ensures ParseBlock(blocks[k]).Ok? <==> ChoicesWellFormed(bs[k])
      ensures ParseBlock(blocks[k]).Ok? ==>
        ParseBlock(blocks[k]).value.text == bs[k][0]
        && MapAll(ParseChoice, bs[k][1..]) == Ok(ParseBlock(blocks[k]).value.choices)
    {
      StripOfStripped(bs[k][0]);
      LinesParse(bs[k]);
    }
    BlocksParse(blocks, bs);
    assert ParseQuiz(raw) == MapAll(ParseBlock, blocks);
  }

  lemma BlocksParse(blocks: seq<string>, bs: seq<seq<string>>)
    requires |blocks| == |bs|
    requires forall k :: 0 <= k < |bs| ==> bs[k] != []
    requires forall k :: 0 <= k < |bs| ==> (ParseBlock(blocks[k]).Ok? <==> ChoicesWellFormed(bs[k]))
    requires forall k :: 0 <= k < |bs| ==> ParseBlock(blocks[k]).Ok? ==>
      ParseBlock(blocks[k]).value.text == bs[k][0]
      && MapAll(ParseChoice, bs[k][1..]) == Ok(ParseBlock(blocks[k]).value.choices)
    ensures MapAll(ParseBlock, blocks).Ok? <==> ChoiceLinesWellFormed(bs)
    ensures MapAll(ParseBlock, blocks).Ok? ==> ParsedLineByLine(MapAll(ParseBlock, blocks).value, bs)
  {
    var r := MapAll(ParseBlock, blocks);
    if r.Ok? {
      forall k | 0 <= k < |bs|
        ensures bs[k] != [] && r.value[k].text == bs[k][0] && MapAll(ParseChoice, bs[k][1..]) == Ok(r.value[k].choices)
      {
        assert ParseBlock(blocks[k]) == Ok(r.value[k]);
      }
    }
  }

  /** Lines whose question line is stripped give that line verbatim as the
      question, and fail exactly when a choice line is malformed. */
  lemma LinesParse(ls: seq<string>)
    requires ls != [] && Strip(ls[0]) == ls[0]
    ensures ParseLines(ls).Ok? <==> ChoicesWellFormed(ls)
    ensures ParseLines(ls).Ok? ==>
      ParseLines(ls).value.text == ls[0] && MapAll(ParseChoice, ls[1..]) == Ok(ParseLines(ls).value.choices)
  {
    var cl := ls[1..];
    assert forall m :: 1 <= m < |ls| ==> cl[m - 1] == ls[m];
    assert forall m :: 0 <= m < |cl| ==> cl[m] == ls[m + 1];
  }

  /** A laid-out reply whose lines match the questions `qs`, line by line,
      parses to `qs`. */
  lemma LaidOutRoundTrip(bs: seq<seq<string>>, qs: seq<Question>)
    requires bs != [] && |bs| == |qs|
    requires forall k :: 0 <= k < |bs| ==>
      && IsLayoutBlock(bs[k]) && ChoicesWellFormed(bs[k]) && bs[k][0] == qs[k].text
      && MapAll(ParseChoice, bs[k][1..]) == Ok(qs[k].choices)
    ensures ParseQuiz(ReplyText(bs)) == Ok(qs)
  {
    ParseLaidOutReply(bs);
    assert ChoiceLinesWellFormed(bs);
    var r := ParseQuiz(ReplyText(bs));
    LinesDetermineQuestions(r.value, bs, qs);
  }

  lemma LinesDetermineQuestions(ps: seq<Question>, bs: seq<seq<string>>, qs: seq<Question>)
    requires ParsedLineByLine(ps, bs) && |bs| == |qs|
    requires forall k :: 0 <= k < |bs| ==>
      bs[k] != [] && bs[k][0] == qs[k].text && MapAll(ParseChoice, bs[k][1..]) == Ok(qs[k].choices)
    ensures ps == qs
  {
    forall k | 0 <= k < |qs| ensures ps[k] == qs[k] {
      assert ps[k].text == qs[k].text;
      assert ps[k].choices == qs[k].choices;
    }
  }

  /** A reply of one laid-out block gives the one question of its lines,
      or their error. */
  lemma SingleBlockReply(ls: seq<string>)
    requires IsLayoutBlock(ls)
    ensures ParseQuiz(BlockText(ls)) == match ParseLines(ls)
      case Ok(q) => Ok([q])
      case Err(e) => Err(e)
  {
    var t := BlockText(ls);
    assert ReplyText([ls]) == t by {
      assert BlockTexts([ls]) == [t];
    }
    LaidOutBlocks([ls]);
    LaidOutBlock(ls);
    assert ParseBlock(t) == ParseLines(ls);
    OneBlock(t, t);
  }

  lemma OneBlock(raw: string, t: string)
    requires Blocks(raw) == [t]
    ensures ParseQuiz(raw) == match ParseBlock(t)
      case Ok(q) => Ok([q])
      case Err(e) => Err(e)
  {
    MapAllSingle(ParseBlock, t);
  }
}
