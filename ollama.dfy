/**
 * The prompt assembly of `generate_response`: a conversation, given as a list
 * of role/content messages, becomes one transcript with a line per message
 * (`User: ...` for the role "user", `Assistant: ...` for any other role) and a
 * trailing `Assistant: ` cue for the model to continue from. The HTTP request
 * that sends the prompt is not part of this model.
 */
module Ollama {

  /** One message of the conversation window: `{"role": ..., "content": ...}`. */
  datatype Message = Message(role: string, content: string)

  const UserPrefix: string := "User: "
  const AssistantPrefix: string := "Assistant: "

  /** The label of a message's line: only the exact role "user" is labelled as the user. */
  function RolePrefix(role: string): string {
    if role == "user" then UserPrefix else AssistantPrefix
  }

  /** The line one message contributes to the prompt, newline included. */
  function Line(m: Message): string {
    RolePrefix(m.role) + m.content + "\n"
  }

  /** The lines of all messages, in order. */
  function Transcript(ms: seq<Message>): string {
    if ms == [] then "" else Line(ms[0]) + Transcript(ms[1..])
  }

  /** The complete prompt: the transcript followed by the assistant cue. */
  function Prompt(ms: seq<Message>): (r: string)
    ensures |r| >= |AssistantPrefix| && r[|r| - |AssistantPrefix|..] == AssistantPrefix
    ensures ms == [] ==> r == AssistantPrefix
  {
    Transcript(ms) + AssistantPrefix
  }

  /** The transcript of a concatenation is the concatenation of the transcripts. */
  lemma {:induction false} TranscriptAppend(a: seq<Message>, b: seq<Message>)
    ensures Transcript(a + b) == Transcript(a) + Transcript(b)
    decreases |a|
  {
    if a == [] {
      assert a + b == b;
    } else {
      assert (a + b)[1..] == a[1..] + b;
      TranscriptAppend(a[1..], b);
    }
  }

  /** The length of one message's line: its label, its content and the newline. */
  function LineLength(m: Message): nat {
    (if m.role == "user" then 6 else 11) + |m.content| + 1
  }

  function TotalLineLength(ms: seq<Message>): nat {
    if ms == [] then 0 else LineLength(ms[0]) + TotalLineLength(ms[1..])
  }

  /** The prompt is as long as all message lines together plus the 11 characters of the cue. */
  lemma {:induction false} PromptLength(ms: seq<Message>)
    ensures |Prompt(ms)| == TotalLineLength(ms) + 11
  {
    TranscriptLength(ms);
  }

  lemma {:induction false} TranscriptLength(ms: seq<Message>)
    ensures |Transcript(ms)| == TotalLineLength(ms)
  {
    if ms != [] {
      TranscriptLength(ms[1..]);
    }
  }

  /**
   * Message `k` contributes, at the offset where the lines of the messages
   * before it end, the text `User: <content>\n` when its role is "user" and
   * `Assistant: <content>\n` otherwise.
   */
  lemma LineInPrompt(ms: seq<Message>, k: nat)
    requires k < |ms|
    ensures var off := |Transcript(ms[..k])|;
            var line := (if ms[k].role == "user" then "User: " else "Assistant: ") + ms[k].content + "\n";
            off + |line| <= |Prompt(ms)| && Prompt(ms)[off..off + |line|] == line
  {
    SplitAt(ms, k);
    var a, b, c := Transcript(ms[..k]), Line(ms[k]), Transcript(ms[k + 1..]) + AssistantPrefix;
    assert (a + b + c)[|a|..|a| + |b|] == b;
  }

  /** The transcript splits around message `k`. */
  lemma SplitAt(ms: seq<Message>, k: nat)
    requires k < |ms|
    ensures Prompt(ms) == Transcript(ms[..k]) + Line(ms[k]) + (Transcript(ms[k + 1..]) + AssistantPrefix)
  {
    assert ms == ms[..k] + ms[k..];
    TranscriptAppend(ms[..k], ms[k..]);
    TranscriptFrom(ms, k);
    Regroup(Transcript(ms[..k]), Line(ms[k]), Transcript(ms[k + 1..]), AssistantPrefix);
  }

  lemma TranscriptFrom(ms: seq<Message>, k: nat)
    requires k < |ms|
    ensures Transcript(ms[k..]) == Line(ms[k]) + Transcript(ms[k + 1..])
  {
    assert ms[k..][0] == ms[k];
    assert ms[k..][1..] == ms[k + 1..];
  }


  /** One more message adds its line at the end of the transcript. */
  lemma TranscriptSnoc(ms: seq<Message>, k: nat)
    requires k < |ms|
    ensures Transcript(ms[..k + 1]) == Transcript(ms[..k]) + Line(ms[k])
  {
    assert ms[..k + 1] == ms[..k] + [ms[k]];
    TranscriptAppend(ms[..k], [ms[k]]);
    assert Transcript([ms[k]]) == Line(ms[k]) + Transcript([]);
  }

  lemma Regroup(a: string, b: string, c: string, d: string)
    ensures a + (b + c) + d == a + b + (c + d)
  {
  }

  /**
   * The loop of `generate_response`: grow the prompt by one line per message,
   * then append the assistant cue.
   */
  method BuildPrompt(messages: seq<Message>) returns (prompt: string)
    ensures prompt == Prompt(messages)
  {
    prompt := "";
    for k := 0 to |messages|
      invariant prompt == Transcript(messages[..k])
    {
      var msg := messages[k];
      var rolePrefix := if msg.role == "user" then "User: " else "Assistant: ";
      var line := rolePrefix + msg.content + "\n";
      assert line == Line(msg);
      TranscriptSnoc(messages, k);
      prompt := prompt + line;
    }
    assert messages[..|messages|] == messages;
    prompt := prompt + "Assistant: ";
  }
}
