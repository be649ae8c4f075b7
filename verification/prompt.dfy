/**
 Prompt assembly of `generate_table_from_resumes` (resumep.py, lines 68-95).
 An empty list of texts short-circuits to a fixed message; otherwise the
 texts are joined with a fixed separator, embedded in a fixed instruction
 template and sent to the language model once. The model is a parameter:
 `llm` maps the prompt to the model's answer or to the exception it raised.
 */
module ResumePrompt {
  import opened PyStr

  /** The literal placed between two resume texts. */
  const Separator: string := "\n\n--- NEW RESUME ---\n\n"

  /** Returned, without contacting the model, for an empty list of texts. */
  const NoTextMessage: string := "No resume text provided."

  /** The text of the prompt's f-string up to the `{combined_text}` field. */
  const PromptHead: string :=
    "\n    Based on the following resume texts, create a Markdown table summarizing the key information for each candidate." +
    "\n    The table should have the following columns: \"Name\", \"Age / DOB\", \"Years of Experience\", \"Specialization / JD\", \"Key Skills / Certifications\", and \"Other Details\"." +
    "\n    Extract the information as accurately as possible. If a piece of information is not found, write \"Not specified\"." +
    "\n\n    Resume Texts:\n    "

  /** The text of the prompt's f-string after the `{combined_text}` field. */
  const PromptTail: string := "\n    "

  /** Prefix of the message returned when the model call raises. */
  const ApiErrorPrefix: string := "An error occurred while calling the Gemini API: "

  /** What the model call does: answer with a text, or raise. */
  datatype Reply = Answer(text: string) | Raised(error: string)

  /** `"\n\n--- NEW RESUME ---\n\n".join(resume_texts)`. */
  function CombinedText(texts: seq<string>): (combined: string)
  {
    Join(Separator, texts)
  }

  /** A single text is passed on unchanged; in general the combined text is
      as long as all texts plus one separator between each two of them. */
  lemma {:induction false} CombinedTextLength(texts: seq<string>)
    requires |texts| >= 1
    ensures |texts| == 1 ==> CombinedText(texts) == texts[0]
    ensures |CombinedText(texts)| == TotalLength(texts) + (|texts| - 1) * |Separator|
  {
    JoinLength(Separator, texts);
  }

  /** The f-string of resumep.py, lines 82-89. */
  function BuildPrompt(combined: string): (prompt: string)
  {
    PromptHead + combined + PromptTail
  }

  /** `generate_table_from_resumes`: an empty list gives the fixed message
      whatever the model would say; otherwise the model is asked once, with
      the prompt built from all the texts, and its answer (or the error
      message) is the result. */
  function GenerateTable(texts: seq<string>, llm: string -> Reply): (r: string)
    ensures texts == [] ==> r == NoTextMessage
    ensures texts != [] ==>
      var reply := llm(BuildPrompt(CombinedText(texts)));
      r == (if reply.Answer? then reply.text else ApiErrorPrefix + reply.error)
  {
    if texts == [] then NoTextMessage
    else
      match llm(BuildPrompt(CombinedText(texts)))
      case Answer(text) => text
      case Raised(e) => ApiErrorPrefix + e
  }

  /** The model is never consulted for an empty list: two different models
      give the same result. */
  lemma EmptyNeverAsksModel(llm1: string -> Reply, llm2: string -> Reply)
    ensures GenerateTable([], llm1) == GenerateTable([], llm2) == NoTextMessage
  {
  }

  /** Each text appears unchanged in the prompt, the `i`-th one right after
      the first `i` texts and `i` separators: the prompt keeps every text and
      their order. */
  lemma PromptHoldsText(texts: seq<string>, i: nat)
    requires i < |texts|
    ensures var prompt := BuildPrompt(CombinedText(texts));
            var at := |PromptHead| + Offset(Separator, texts, i);
            at + |texts[i]| <= |prompt| && prompt[at..at + |texts[i]|] == texts[i]
  {
    TextBetween(PromptHead, texts, PromptTail, i);
  }

  /** The `i`-th text sits at its offset in any combined text put between a
      fixed head and tail. */
  lemma TextBetween(head: string, texts: seq<string>, tail: string, i: nat)
    requires i < |texts|
    ensures var whole := head + CombinedText(texts) + tail;
            var at := |head| + Offset(Separator, texts, i);
            at + |texts[i]| <= |whole| && whole[at..at + |texts[i]|] == texts[i]
  {
    JoinAt(Separator, texts, i);
    SliceOfMiddle(head, CombinedText(texts), tail, Offset(Separator, texts, i), |texts[i]|);
  }
}
