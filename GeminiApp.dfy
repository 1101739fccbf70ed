/** The prompt side of `gemini_app.py`: the full prompt `call_gemini`
    sends, the two fixed prompt templates, and the two API entry points,
    with the model's reply text taken as a parameter in place of the remote
    call. */
module GeminiApp {
  import opened PyStr
  import opened QuizParser

  const ModelName: string := "gemini-1.5-flash"
  /** Between the system instruction and the prompt in the full prompt. */
  const InstructionSeparator: string := "\n\n"
  /** Both system instructions open with it. */
  const ExpertIntro: string := "You are an expert "
  const SummaryInstruction: string := ExpertIntro + "at summarizing transcripts."
  const SummaryPrefix: string := "Summarize the following text:\n\n"
  const QuizInstruction: string := ExpertIntro + "in generating quiz questions "
    + "from summarized content."
  const QuizPrefix: string := "Generate three quiz questions based on the following summary:\n\n"

  /** What `call_gemini` hands to the generative model: the model's name
      and the full prompt. */
  datatype Request = Request(model: string, prompt: string)

  /** The text after `prefix`, when `s` starts with it. */
  function After(s: string, prefix: string): (r: Option<string>)
    ensures r.Some? <==> |prefix| <= |s| && s[..|prefix|] == prefix
    ensures r.Some? ==> s == prefix + r.value
  {
    if |prefix| <= |s| && s[..|prefix|] == prefix then
      assert s == s[..|prefix|] + s[|prefix|..];
      Some(s[|prefix|..])
    else None
  }

  /** Removing a prefix that was put in front gives the text back. */
  lemma AfterPrefix(prefix: string, x: string)
    ensures After(prefix + x, prefix) == Some(x)
  {
    assert (prefix + x)[..|prefix|] == prefix;
    assert (prefix + x)[|prefix|..] == x;
  }

  /** `call_gemini`'s full prompt: the system instruction, a blank line,
      then the prompt. */
  function FullPrompt(prompt: string, systemInstruction: string): string {
    systemInstruction + InstructionSeparator + prompt
  }

  /** The request `call_gemini` makes for `prompt` under `systemInstruction`. */
  function GeminiRequest(prompt: string, systemInstruction: string): Request {
    Request(ModelName, FullPrompt(prompt, systemInstruction))
  }

  /** What `call_gemini` returns for the model's reply text: that text,
      stripped. */
  function GeminiResult(replyText: string): (r: string)
    ensures IsStripped(r) && (r == [] <==> AllSpace(replyText))
  {
    Strip(replyText)
  }

  /** The prompt `summarize_text` sends for `input`. */
  function SummaryPrompt(input: string): string {
    SummaryPrefix + input
  }

  /** The prompt `generate_quiz_questions` sends for `summary`. */
  function QuizPrompt(summary: string): string {
    QuizPrefix + summary
  }

  function SummaryRequest(input: string): Request {
    GeminiRequest(SummaryPrompt(input), SummaryInstruction)
  }

  function QuizRequest(summary: string): Request {
    GeminiRequest(QuizPrompt(summary), QuizInstruction)
  }

  /** The full prompt starts with the system instruction and a blank line,
      and the prompt is exactly what follows them. */
  lemma FullPromptParts(prompt: string, systemInstruction: string)
    ensures After(FullPrompt(prompt, systemInstruction), systemInstruction + InstructionSeparator)
      == Some(prompt)
  {
    AfterPrefix(systemInstruction + InstructionSeparator, prompt);
  }

  /** The summary request carries the input text verbatim after its
      instruction and template. */
  lemma SummaryRequestCarriesInput(input: string)
    ensures SummaryRequest(input).model == ModelName
    ensures var p := SummaryRequest(input).prompt;
      && After(p, SummaryInstruction + InstructionSeparator) == Some(SummaryPrompt(input))
      && After(SummaryPrompt(input), SummaryPrefix) == Some(input)
  {
    FullPromptParts(SummaryPrompt(input), SummaryInstruction);
    AfterPrefix(SummaryPrefix, input);
  }

  /** The quiz request carries the summary verbatim after its instruction
      and template. */
  lemma QuizRequestCarriesSummary(summary: string)
    ensures QuizRequest(summary).model == ModelName
    ensures var p := QuizRequest(summary).prompt;
      && After(p, QuizInstruction + InstructionSeparator) == Some(QuizPrompt(summary))
      && After(QuizPrompt(summary), QuizPrefix) == Some(summary)
  {
    FullPromptParts(QuizPrompt(summary), QuizInstruction);
    AfterPrefix(QuizPrefix, summary);
  }

  /** Different inputs give different requests: a request determines its
      input. */
  lemma RequestsDetermineInput(x: string, y: string)
    ensures SummaryRequest(x) == SummaryRequest(y) ==> x == y
    ensures QuizRequest(x) == QuizRequest(y) ==> x == y
  {
    SummaryRequestCarriesInput(x);
    SummaryRequestCarriesInput(y);
    QuizRequestCarriesSummary(x);
    QuizRequestCarriesSummary(y);
  }

  /** The strip `call_gemini` applies to the reply does not change how
      the reply parses. */
  lemma ParseIgnoresStrip(replyText: string)
    ensures ParseQuiz(GeminiResult(replyText)) == ParseQuiz(replyText)
  {
    StripIdempotent(replyText);
    assert Blocks(Strip(replyText)) == Blocks(replyText);
  }

  /** `api_summarize`: the request for the summary and, given the model's
      reply text, the summary it returns. */
  method ApiSummarize(textInput: string, replyText: string) returns (request: Request, summary: string)
    ensures request == SummaryRequest(textInput)
    ensures summary == GeminiResult(replyText)
  {
    request := SummaryRequest(textInput);
    summary := GeminiResult(replyText);
  }

  /** `api_generate_quiz`: the request for the quiz and, given the model's
      reply text, the parsed questions, the parsing loop run on the
      stripped reply. */
  method ApiGenerateQuiz(summary: string, replyText: string) returns (request: Request, r: Result<seq<Question>>)
    ensures request == QuizRequest(summary)
    ensures r == ParseQuiz(replyText)
  {
    request := QuizRequest(summary);
    var rawQuizQuestions := GeminiResult(replyText);
    r := ParseQuizReply(rawQuizQuestions);
    ParseIgnoresStrip(replyText);
  }
}
