/**
 * `analyze` (app/endpoints/analyzing.py) up to the language-model call: the
 * discussion, conclusion and limitation sections are looked up, a request
 * without any of them is refused, and the prompt is built from the present
 * ones, in a fixed order, between a fixed instruction and a fixed closing
 * request. The result is the two chat messages that are sent.
 */
module Analyzing {
  import opened Wrappers
  import opened Http

  const Instruction: string := "Below are sections from a scientific article. Identify and describe any research gaps present in the text."
  const Closing: string := "\n\nPlease provide the main research gaps identified in the text."
  const SystemRole: string := "You are an AI specialized in identifying research gaps in scientific articles."
  const AnalysisFailed: string := "Unknown error occurred in analysis."

  /** A chat message: `{"role": ..., "content": ...}`. */
  datatype Message = Message(role: string, content: string)

  /** `sections.get(name, "")`. */
  function Section(sections: map<string, string>, name: string): (text: string)
    ensures name !in sections ==> text == ""
    ensures name in sections ==> text == sections[name]
  {
    if name in sections then sections[name] else ""
  }

  /** `data.get("sections", {})`: a request without sections reads as an empty one. */
  function SectionsOf(data: Option<map<string, string>>): (sections: map<string, string>)
    ensures data.None? ==> sections == map[]
    ensures data.Some? ==> sections == data.value
  {
    if data.Some? then data.value else map[]
  }

  /** The block a present section adds to the prompt: a blank line, its heading line, its text. */
  function Block(heading: string, text: string): (b: string)
    ensures b == "" <==> text == ""
  {
    if text == "" then "" else "\n\n" + heading + ":\n" + text
  }

  /** The blocks of the non-empty sections: discussion first, then conclusion, then limitation. */
  function Blocks(discussion: string, conclusion: string, limitation: string): string {
    Block("Discussion", discussion) + Block("Conclusion", conclusion) + Block("Limitation", limitation)
  }

  /** The prompt: the instruction, the present blocks, the closing request. */
  function Prompt(discussion: string, conclusion: string, limitation: string): string {
    Instruction + Blocks(discussion, conclusion, limitation) + Closing
  }

  /** `if text: content += f"\n\n{heading}:\n{text}"`: the block of a non-empty section is appended. */
  method AppendSection(content: string, header: string, heading: string, text: string) returns (r: string)
    requires header == "\n\n" + heading + ":\n"
    ensures r == content + Block(heading, text)
  {
    r := content;
    if text != "" {
      r := r + header + text;
    }
  }

  /** Strings laid end to end can be grouped either way. */
  lemma Regroup(a: string, b1: string, b2: string, b3: string, c: string)
    ensures a + b1 + b2 + b3 + c == a + (b1 + b2 + b3) + c
  {
  }

  /** The prompt built the way `analyze` builds it: successive `+=` on `message_content`. */
  method BuildPrompt(discussion: string, conclusion: string, limitation: string) returns (content: string)
    ensures content == Prompt(discussion, conclusion, limitation)
  {
    content := Instruction;
    content := AppendSection(content, "\n\nDiscussion:\n", "Discussion", discussion);
    content := AppendSection(content, "\n\nConclusion:\n", "Conclusion", conclusion);
    content := AppendSection(content, "\n\nLimitation:\n", "Limitation", limitation);
    content := content + Closing;
    Regroup(Instruction, Block("Discussion", discussion), Block("Conclusion", conclusion), Block("Limitation", limitation), Closing);
  }

  /** Framing: a text laid between a prefix and a suffix is found between them. */
  lemma Framed(a: string, m: string, c: string)
    ensures (a + m + c)[..|a|] == a && (a + m + c)[|a| + |m|..] == c && (a + m + c)[|a|..|a| + |m|] == m
  {
  }

  /**
   * The prompt starts with the instruction and ends with the closing
   * request; between them are exactly the blocks of the non-empty sections,
   * discussion first, then conclusion, then limitation.
   */
  lemma PromptLayout(discussion: string, conclusion: string, limitation: string)
    ensures var p := Prompt(discussion, conclusion, limitation);
      && |p| >= |Instruction| + |Closing|
      && p[..|Instruction|] == Instruction
      && p[|p| - |Closing|..] == Closing
      && p[|Instruction|..|p| - |Closing|]
         == Block("Discussion", discussion) + Block("Conclusion", conclusion) + Block("Limitation", limitation)
  {
    Framed(Instruction, Blocks(discussion, conclusion, limitation), Closing);
  }

  /** A section's block is in the prompt just when the section is non-empty, and then it holds the section's text. */
  lemma BlockPresence(heading: string, text: string)
    ensures text != "" ==> Block(heading, text) == "\n\n" + heading + ":\n" + text
    ensures text == "" ==> Block(heading, text) == ""
    ensures text != "" ==> Block(heading, text)[|Block(heading, text)| - |text|..] == text
  {
  }

  /** The prompt grows by each present block: its length is the fixed parts plus every block. */
  lemma PromptLength(discussion: string, conclusion: string, limitation: string)
    ensures |Prompt(discussion, conclusion, limitation)|
            == |Instruction| + |Closing|
               + (if discussion == "" then 0 else 14 + |discussion|)
               + (if conclusion == "" then 0 else 14 + |conclusion|)
               + (if limitation == "" then 0 else 14 + |limitation|)
  {
  }

  /** The two messages sent: the fixed system message, then the prompt from the user. */
  function Messages(prompt: string): (ms: seq<Message>)
    ensures |ms| == 2 && ms[0] == Message("system", SystemRole)
    ensures ms[1].role == "user" && ms[1].content == prompt
  {
    [Message("system", SystemRole), Message("user", prompt)]
  }

  /**
   * `analyze` up to the model call. A request whose discussion, conclusion
   * and limitation are all missing or empty is refused: the 400 raised
   * inside the `try` is caught by the catch-all and answered with a 500.
   */
  method Analyze(data: Option<map<string, string>>) returns (r: Result<seq<Message>, HttpError>)
    ensures var s := SectionsOf(data);
      r.Err? <==> Section(s, "discussion") == "" && Section(s, "conclusion") == "" && Section(s, "limitation") == ""
    ensures r.Err? ==> r.error == HttpError(500, AnalysisFailed)
    ensures r.Ok? ==> r.value == Messages(Prompt(Section(SectionsOf(data), "discussion"),
                                                  Section(SectionsOf(data), "conclusion"),
                                                  Section(SectionsOf(data), "limitation")))
  {
    var sections := SectionsOf(data);
    var discussion := Section(sections, "discussion");
    var conclusion := Section(sections, "conclusion");
    var limitation := Section(sections, "limitation");
    if !(discussion != "" || conclusion != "" || limitation != "") {
      // HttpException(400, "No relevant sections found in the data."), caught below
      return Err(HttpError(500, AnalysisFailed));
    }
    var content := BuildPrompt(discussion, conclusion, limitation);
    r := Ok(Messages(content));
  }

  /** Only the three analysed sections matter: any other section is ignored. */
  lemma OtherSectionsIgnored(sections: map<string, string>, name: string, text: string)
    requires name !in {"discussion", "conclusion", "limitation"}
    ensures Section(sections[name := text], "discussion") == Section(sections, "discussion")
    ensures Section(sections[name := text], "conclusion") == Section(sections, "conclusion")
    ensures Section(sections[name := text], "limitation") == Section(sections, "limitation")
  {
  }
}
