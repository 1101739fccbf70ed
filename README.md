# Quizcribe quiz generation, modelled in Dafny

Quizcribe turns a lecture transcript into a summary and then into
multiple-choice quiz questions. It does both with a generative model
(`backend/ai_core/gemini_app.py`). This project models the deterministic
part of that file:

- **Prompt building.** `call_gemini` puts the system instruction, a blank
  line and the prompt into one full prompt. It sends that to the model
  `gemini-1.5-flash` and returns the reply text, stripped.
  `summarize_text` and `generate_quiz_questions` fill in fixed templates
  and instructions.
- **The API wrappers.** `api_summarize` and `api_generate_quiz` sit on top
  of prompt building. In the model, the reply text the remote model would
  return is a parameter, and the request that would be sent is returned as
  a value.
- **The quiz-reply parser** inside `api_generate_quiz`. It strips the
  reply and splits it at blank lines into question blocks. It splits each
  block into lines. The first line, stripped, is the question text. Every
  later line is a choice:
  - the choice is correct exactly when its stripped line contains
    `(correct)`;
  - the text is the line with every ` (correct)` removed, split at `) `,
    piece `[1]`, stripped;
  - a line with no `) ` left once every ` (correct)` is removed raises
    `IndexError`.

Modules:

- `PyStr` models the Python string built-ins the parser calls: `strip()`,
  `in`, `split(sep)` and `replace(old, new)`. `Find` is the leftmost scan
  that `split` and `replace` perform, and `Join` is the inverse of `split`
  in which their contracts are stated.
- `QuizParser` holds the parser in two forms:
  - as functions (`ParseChoice`, `ParseBlock`, `ParseQuiz`);
  - as the nested loops of the source (`ParseQuizReply`,
    `ParseQuestionBlocks`, `ParseQuestionBlock`), proved equal to those
    functions.
- `QuizLayout` and `QuizRender` prove round trips. A reply laid out the
  way the parser expects it is read back line by line. Rendering well-formed
  questions and parsing them gives the same questions back.
- `QuizQuirks` and `QuizExamples` pin down what the parser does with lines
  that stray from the format, and work through concrete replies.
- `GeminiApp` holds the prompts, the requests and the two API entry
  points.

The Python `IndexError` becomes the result `Err(IndexError(line))`. `line`
is the stripped choice line that could not be indexed. When several lines
are malformed, the error is the first one in reply order, as with the
exception.

### Quirks of the parser

The comment at line 81 says a choice is marked correct if `(correct)` is
found. The comment at line 84 says the `a)`, `b)` label is stripped. The
code does both in its own way, and the model follows the code:

- **An unspaced flag stays in the text.** Only ` (correct)`, with its
  leading space, is removed, but any `(correct)` sets the flag. So
  `a) Paris(correct)` is the correct choice `Paris(correct)`
  (`QuizQuirks.LabelledLine`, `QuizExamples.UnspacedFlag`).
- **Extra whitespace before the spaced marker is stripped.** Whatever
  stands between the label and ` (correct)` becomes the text once
  stripped, so `b) London  (correct)` is the correct choice `London`
  (`QuizQuirks.PaddedMarker`, `QuizExamples.DoubleSpacedMarker`).
  A marker with no space before it is kept in the text, as above, and so
  is one after other whitespace only (`London\t(correct)`); both still set
  the flag. A marker with spaces inside its parentheses is no marker at
  all: it stays in the text and does not set the flag.
- **The marker can take the label's space.** In `b) (correct)` the only
  `) ` shares its space with ` (correct)`. Removing the marker leaves `b)`,
  and the line raises although it holds `) `
  (`QuizQuirks.MarkerTakesSeparatorSpace`, `QuizExamples.MarkerOnlyChoice`).
- **The text stops at a second `) `.** The code keeps only piece `[1]` of
  the split, so anything after a second `) ` is lost
  (`QuizQuirks.SecondSeparatorTruncates`).
- **A malformed line raises.** A line with no `) ` left after the marker is
  removed makes the indexing at line 84 raise `IndexError`, which ends
  `api_generate_quiz`. The model returns an error value carrying the line.

## Model

| member | source | states |
|---|---|---|
| PyStr.Strip | backend/ai_core/gemini_app.py:70 | the result has no whitespace at either end, and is empty exactly when the input is all whitespace |
| PyStr.StripIsInfix | backend/ai_core/gemini_app.py:70 | what `strip()` keeps is a contiguous part of the input with only whitespace before and after it |
| PyStr.StripUnique | backend/ai_core/gemini_app.py:36 | whatever whitespace surrounds a stripped core, `strip()` returns exactly that core |
| PyStr.StripIdempotent | backend/ai_core/gemini_app.py:36 | stripping twice is stripping once, as the reply stripped by `call_gemini` is stripped again before splitting |
| PyStr.Find | backend/ai_core/gemini_app.py:70 | the leftmost-occurrence scan of `split` and `replace`: the index found is an occurrence with none before it; there is none exactly when the pattern does not occur |
| PyStr.Contains | backend/ai_core/gemini_app.py:81 | no contract; Python's `in`, tied to the scan by `Find`'s contract |
| PyStr.Join | backend/ai_core/gemini_app.py:70 | no contract; the inverse of `split`, in which `Split`'s contract and `SplitJoin` are stated |
| PyStr.Split | backend/ai_core/gemini_app.py:70 | at least one piece; exactly one when the separator is absent; every cut is at the leftmost occurrence in what remains; the pieces joined by the separator give the input back; no piece contains the separator |
| PyStr.SplitJoin | backend/ai_core/gemini_app.py:73 | splitting undoes joining when no separator can be found inside or across the pieces |
| PyStr.SplitFirst | backend/ai_core/gemini_app.py:84 | a piece that ends where the separator starts is the first piece of the split |
| PyStr.Replace | backend/ai_core/gemini_app.py:84 | a string without the pattern is returned unchanged |
| PyStr.ReplaceIsJoinOfSplit | backend/ai_core/gemini_app.py:84 | replacing is joining the split with the replacement: both cut at the same leftmost occurrences |
| PyStr.StripKeepsAbsence | backend/ai_core/gemini_app.py:84 | stripping a string cannot create an occurrence of a pattern |
| QuizParser.Blocks | backend/ai_core/gemini_app.py:70 | no contract; the question blocks, stated by `ParseQuizShape`, `LaidOutBlocks` and `BlankReply` |
| QuizParser.Lines | backend/ai_core/gemini_app.py:73 | no contract; a block's lines, stated by `ParsedFrom` in `ParseQuizShape` and by `LaidOutBlock` |
| QuizParser.Unmarked | backend/ai_core/gemini_app.py:84 | no contract; the line with ` (correct)` removed, stated by `MarkerRemoved` and `NoFlagNoMarker` |
| QuizParser.Malformed | backend/ai_core/gemini_app.py:84 | no contract; the lines that raise, stated by `ParseChoice`'s contract |
| QuizParser.ParseBlock | backend/ai_core/gemini_app.py:73-86 | no contract; one block's question, stated by `BlockParse` and `BlockFailsOnMalformed` |
| QuizParser.ParseLines | backend/ai_core/gemini_app.py:76-86 | no contract; the question from a block's lines, stated by `LinesParse` |
| QuizParser.ParseQuiz | backend/ai_core/gemini_app.py:69-92 | no contract; the whole parse, stated by `ParseQuizShape`, `BlankReply`, `MapAllFirstError` and `RenderRoundTrip` |
| QuizParser.ParseChoice | backend/ai_core/gemini_app.py:80-86 | fails exactly when the unmarked stripped line has no `) `, with that line; otherwise correct iff the stripped line contains `(correct)`, and the text is stripped and free of `) ` |
| QuizParser.ChoiceTextBetweenSeparators | backend/ai_core/gemini_app.py:84 | the text is the stripped piece strictly between the first `) ` and the next one or the end; the label before and anything after a second `) ` are dropped |
| QuizParser.MapAll | backend/ai_core/gemini_app.py:79-86 | the loop succeeds exactly when every element does, and then yields one value per element, each the element's own, in order |
| QuizParser.MapAllFirstError | backend/ai_core/gemini_app.py:72-92 | a failing loop reports the error of its first failing element, every earlier one having succeeded |
| QuizParser.MapAllSingle | backend/ai_core/gemini_app.py:79-86 | a loop over one element yields its value or its error |
| QuizParser.MapAllOk | backend/ai_core/gemini_app.py:79-86 | a loop in which every element succeeds yields exactly their values |
| QuizParser.ParseQuizShape | backend/ai_core/gemini_app.py:69-92 | one question per block, at least one, in order; each question is its block's stripped first line with one choice per later line; the parse fails exactly when some block has a malformed choice line |
| QuizParser.BlocksShape | backend/ai_core/gemini_app.py:72-92 | for any list of blocks: one question per block in order, each parsed from its block, failure exactly when a block has a malformed choice line |
| QuizParser.BlockParse | backend/ai_core/gemini_app.py:73-86 | a parsed block's question is its stripped first line, with the choice each later line parses to, in order |
| QuizParser.BlockFailsOnMalformed | backend/ai_core/gemini_app.py:73-86 | a block fails exactly when one of its lines after the first is malformed |
| QuizParser.BlankReply | backend/ai_core/gemini_app.py:70-79 | an empty or all-whitespace reply gives one question with empty text and no choices |
| QuizParser.ParseQuizReply | backend/ai_core/gemini_app.py:69-92 | the parsing code as written returns what the parser functions define |
| QuizParser.ParseQuestionBlocks | backend/ai_core/gemini_app.py:72-92 | the loop over blocks appends each block's question in order and stops at the first error |
| QuizParser.ParseQuestionBlock | backend/ai_core/gemini_app.py:73-86 | the loop body builds the stripped first line and one choice per later line, stopping at the first line with no `) ` left once ` (correct)` is removed |
| QuizParser.OkExtends | backend/ai_core/gemini_app.py:83-89 | one more successful element appends its value to the loop's result |
| QuizParser.ErrorPersists | backend/ai_core/gemini_app.py:84 | once the loop has raised, later elements do not change the error |
| QuizParser.FirstErrorIsResult | backend/ai_core/gemini_app.py:84 | when all elements before one succeed and that one fails, its error is the loop's result |
| QuizLayout.LaidOutBlock | backend/ai_core/gemini_app.py:73 | a block of non-empty stripped lines is stripped, holds no blank line, and splits back into exactly those lines |
| QuizLayout.LaidOutBlocks | backend/ai_core/gemini_app.py:70 | a reply of such blocks separated by blank lines splits back into exactly those blocks |
| QuizLayout.ParseLaidOutReply | backend/ai_core/gemini_app.py:69-92 | a laid-out reply parses line by line: each question is its block's first line verbatim with the choices of its later lines; it fails exactly when a choice line is malformed |
| QuizLayout.LinesParse | backend/ai_core/gemini_app.py:76-86 | a block whose first line is stripped keeps that line verbatim as its question, and fails exactly when a later line is malformed |
| QuizLayout.LaidOutRoundTrip | backend/ai_core/gemini_app.py:69-92 | a laid-out reply whose lines match given questions parses to exactly those questions |
| QuizLayout.SingleBlockReply | backend/ai_core/gemini_app.py:69-92 | a reply of one laid-out block gives the one question of its lines, or their error |
| QuizRender.RenderRoundTrip | backend/ai_core/gemini_app.py:69-92 | rendering well-formed questions in the layout the parser expects and parsing gives them back, for any number of choices and of correct ones |
| QuizRender.QuestionRoundTrip | backend/ai_core/gemini_app.py:73-86 | a well-formed question's lines are laid out and its choice lines parse back to its choices |
| QuizRender.ChoiceLineRoundTrip | backend/ai_core/gemini_app.py:80-86 | a labelled choice line, with ` (correct)` appended when correct, parses back to the choice |
| QuizRender.FlagOnlyIfMarked | backend/ai_core/gemini_app.py:81 | `(correct)` is found in a flag-free line exactly when the marker was appended |
| QuizRender.MarkerRemoved | backend/ai_core/gemini_app.py:84 | removing ` (correct)` from a flag-free text, with or without the marker appended, gives back the text |
| QuizRender.NoFlagNoMarker | backend/ai_core/gemini_app.py:81-84 | a line without `(correct)` has no ` (correct)` either, so removing the marker leaves it unchanged |
| QuizRender.LabelledSplit | backend/ai_core/gemini_app.py:84 | a line opening with a letter label is split first right after `) ` |
| QuizRender.FlagAfterLabel | backend/ai_core/gemini_app.py:81 | `(correct)` occurs in a labelled line exactly when it occurs in the text after the label |
| QuizQuirks.UnlabelledLine | backend/ai_core/gemini_app.py:84 | a line with neither the marker nor `) ` raises the index error, carrying the line |
| QuizQuirks.LabelledLine | backend/ai_core/gemini_app.py:81-84 | a labelled line with no ` (correct)` anywhere keeps all its text after the label, an unspaced `(correct)` included, and is correct exactly when that text holds `(correct)` |
| QuizQuirks.SecondSeparatorTruncates | backend/ai_core/gemini_app.py:84 | a line with a second `) ` keeps only the text before it |
| QuizQuirks.PaddedMarker | backend/ai_core/gemini_app.py:80-86 | whatever stands between the label and the spaced marker, trailing whitespace included, is the text once stripped, and the choice is correct |
| QuizQuirks.MarkerTakesSeparatorSpace | backend/ai_core/gemini_app.py:84 | `x) (correct)` holds `) ` yet raises the index error, the marker having taken the separator's space |
| QuizQuirks.NoMarkerAfterLabel | backend/ai_core/gemini_app.py:84 | a label and its separator add no ` (correct)` to a text that holds none and does not open with `(` |
| QuizQuirks.OneChoiceReply | backend/ai_core/gemini_app.py:69-92 | a question line and one choice line give that question with that choice, or that choice's error |
| QuizQuirks.TwoChoiceReply | backend/ai_core/gemini_app.py:69-92 | a question line and two parsing choice lines give that question with those choices in order |
| QuizQuirks.UnlabelledReply | backend/ai_core/gemini_app.py:69-92 | a reply whose only choice line holds neither `) ` nor ` (correct)` fails with that line |
| QuizQuirks.LabelledReply | backend/ai_core/gemini_app.py:69-92 | a reply whose only choice line is labelled and holds no ` (correct)` keeps the whole text after the label, an unspaced `(correct)` included, and is correct exactly when that text holds `(correct)` |
| QuizQuirks.TruncatedReply | backend/ai_core/gemini_app.py:69-92 | a reply whose only choice line has a second `) ` keeps only the text before it |
| QuizExamples.MarkedChoice | backend/ai_core/gemini_app.py:80-86 | `b) London (correct)` is the correct choice `London` |
| QuizExamples.UnlabelledChoice | backend/ai_core/gemini_app.py:84 | `a Paris` raises the index error with that line |
| QuizExamples.UnspacedFlag | backend/ai_core/gemini_app.py:81-84 | `a) Paris(correct)` is the correct choice `Paris(correct)` |
| QuizExamples.DoubleSpacedMarker | backend/ai_core/gemini_app.py:80-86 | `b) London  (correct)` is the correct choice `London` |
| QuizExamples.MarkerOnlyChoice | backend/ai_core/gemini_app.py:84 | `b) (correct)` raises the index error with that line |
| QuizExamples.SecondSeparator | backend/ai_core/gemini_app.py:84 | `b) Option B) or C` is the incorrect choice `Option B` |
| QuizExamples.LaidOutExample | backend/ai_core/gemini_app.py:69-92 | the reply `Q1?`, `a) Paris`, `b) London (correct)` gives one question with Paris incorrect and London correct |
| QuizExamples.TwoRenderedChoices | backend/ai_core/gemini_app.py:69-92 | a question line followed by two rendered choice lines parses to that question with those two choices |
| QuizExamples.MissingLabel | backend/ai_core/gemini_app.py:69-92 | the reply `Q1?`, `a Paris` fails with the line `a Paris` |
| GeminiApp.FullPrompt | backend/ai_core/gemini_app.py:30 | no contract; the full prompt, stated by `FullPromptParts` |
| GeminiApp.GeminiRequest | backend/ai_core/gemini_app.py:33-34 | no contract; the model name and full prompt sent, stated by the two `Carries` lemmas |
| GeminiApp.SummaryPrompt | backend/ai_core/gemini_app.py:41 | no contract; stated by `SummaryRequestCarriesInput` |
| GeminiApp.SummaryRequest | backend/ai_core/gemini_app.py:41-43 | no contract; stated by `SummaryRequestCarriesInput` and `RequestsDetermineInput` |
| GeminiApp.QuizPrompt | backend/ai_core/gemini_app.py:48 | no contract; stated by `QuizRequestCarriesSummary` |
| GeminiApp.QuizRequest | backend/ai_core/gemini_app.py:48-50 | no contract; stated by `QuizRequestCarriesSummary` and `RequestsDetermineInput` |
| GeminiApp.FullPromptParts | backend/ai_core/gemini_app.py:30 | the full prompt opens with the system instruction and a blank line, and what follows them is exactly the prompt |
| GeminiApp.GeminiResult | backend/ai_core/gemini_app.py:36 | the returned text has no whitespace at either end, and is empty exactly when the reply was all whitespace |
| GeminiApp.SummaryRequestCarriesInput | backend/ai_core/gemini_app.py:33-43 | the summary request names the model and carries the input verbatim after the summary instruction and the summary template |
| GeminiApp.QuizRequestCarriesSummary | backend/ai_core/gemini_app.py:47-50 | the quiz request names the model and carries the summary verbatim after the quiz instruction and the quiz template |
| GeminiApp.RequestsDetermineInput | backend/ai_core/gemini_app.py:40-50 | different inputs give different summary requests, and different summaries different quiz requests |
| GeminiApp.ParseIgnoresStrip | backend/ai_core/gemini_app.py:36 | the strip `call_gemini` applies to the reply does not change how it parses |
| GeminiApp.ApiSummarize | backend/ai_core/gemini_app.py:53-60 | sends the summary request for the input and returns the stripped reply |
| GeminiApp.ApiGenerateQuiz | backend/ai_core/gemini_app.py:63-95 | sends the quiz request for the summary and returns the parse of the reply |

## Left out

- Loading the API key from the environment, the error when it is missing, and configuring the client (lines 1-16): these are process setup outside the model.
- The remote call (lines 33-34): the model has no network. The request is returned as a value (model name and full prompt), and the reply text is a parameter. Failures of the remote service are not modelled.
- The console output (lines 57, 59, 67, 94): it does not affect any result.
- The unreachable second `return` (line 100) and the `__main__` demonstration (lines 104-112).
- PyStr.Strip: removes only the ASCII characters Python's `str.isspace` accepts. Python's `strip()` also removes other Unicode whitespace (for example U+00A0 and U+2028), which the model treats as ordinary text.
- PyStr.Split: models `split(sep)` only for a non-empty separator, the only way the source calls it. Python's `split()` with no argument is not modelled.
- The dictionaries the parser builds become the datatypes `Choice` and `Question`, with the same two fields each; the question dictionary's key `question` becomes the field `text`.
- The raised `IndexError` becomes an `Err` result carrying the stripped line. This is the model's rendering of the exception; the source's exception carries only Python's message.
