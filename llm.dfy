/**
 * The extraction client of backend/llm.py: the fixed prompts, the initial
 * conversation, and the bounded retry-and-parse loop `call_and_parse_lead`.
 *
 * The chat-completion endpoint is an oracle: `replies[k]` is the message
 * content of the k-th call's first choice (`None` when the content is null);
 * a k-th call with `k >= |replies|` is a call that raised (network or
 * authentication failure). `json.loads` is the parameter `parse`, which maps
 * a text either to a value of type `J` or to the decode error's message.
 */
module Llm {
  import opened Wrappers
  import opened Text

  const SystemPrompt: string :=
    "You are an information extraction engine.\n"
    + "Return JSON only. No markdown. No backticks. No explanation.\n"
    + "If a field is unknown, use null.\n"
    + "Valid urgency values: \"low\", \"medium\", \"high\".\n"

  const JsonShape: string :=
    "{\n"
    + "  \"name\": null,\n"
    + "  \"email\": null,\n"
    + "  \"phone\": null,\n"
    + "  \"company\": null,\n"
    + "  \"request_summary\": null,\n"
    + "  \"urgency\": null\n"
    + "}"

  const PromptIntro: string :=
    "Extract lead info from the following message into EXACTLY this JSON shape:\n"

  /** The part of the user prompt before the input text. */
  const PromptHead: string := PromptIntro + JsonShape + "\n\nMessage:\n"

  /** The corrective instruction that precedes the rejected reply. */
  const CorrectionHead: string :=
    "Your previous response was invalid JSON. "
    + "Return JSON only, matching the exact shape. "
    + "No markdown, no comments, no trailing commas.\n\n"
    + "Invalid response:\n"

  datatype Role = System | User

  datatype Message = Message(role: Role, content: string)

  /** `build_user_prompt`: the input text under the exact JSON shape, newline-terminated. */
  function BuildUserPrompt(text: string): (r: string)
    ensures Contains(r, JsonShape) && Contains(r, text)
    ensures |r| > |text| && r[|r| - 1] == '\n'
  {
    ContainsInfix(PromptIntro, JsonShape, "\n\nMessage:\n" + text + "\n");
    assert PromptIntro + JsonShape + ("\n\nMessage:\n" + text + "\n") == PromptHead + text + "\n";
    ContainsInfix(PromptHead, text, "\n");
    PromptHead + text + "\n"
  }

  /** Reads the input text back out of a user prompt; `None` if `prompt` is not one. */
  function MessageOf(prompt: string): (r: Option<string>)
    ensures r.Some? ==> |r.value| + |PromptHead| + 1 == |prompt|
  {
    if |prompt| > |PromptHead| && prompt[..|PromptHead|] == PromptHead && prompt[|prompt| - 1] == '\n'
    then Some(prompt[|PromptHead|..|prompt| - 1])
    else None
  }

  /** The input text can be read back from its prompt, so distinct texts give distinct prompts. */
  lemma PromptRoundTrip(text: string)
    ensures MessageOf(BuildUserPrompt(text)) == Some(text)
  {
    var p := BuildUserPrompt(text);
    assert p == PromptHead + text + "\n";
    assert p[..|PromptHead|] == PromptHead;
    assert p[|PromptHead|..|p| - 1] == text;
  }

  /** The two messages a conversation starts with. */
  function InitialMessages(text: string): seq<Message> {
    [Message(System, SystemPrompt), Message(User, BuildUserPrompt(text))]
  }

  /**
   * The initial conversation is exactly two messages: the system prompt, then
   * a user prompt holding the JSON shape and the input text, from which the
   * text can be read back.
   */
  lemma InitialConversation(text: string)
    ensures var r := InitialMessages(text);
      && |r| == 2
      && r[0] == Message(System, SystemPrompt)
      && r[1].role == User && MessageOf(r[1].content) == Some(text)
      && Contains(r[1].content, JsonShape) && Contains(r[1].content, text)
  {
    PromptRoundTrip(text);
  }

  /** The user message appended after a reply `raw` that did not parse. */
  function Corrective(raw: string): Message {
    Message(User, CorrectionHead + raw)
  }

  /** The corrective message is a user message that ends with the rejected reply. */
  lemma CorrectiveCarriesReply(raw: string)
    ensures Corrective(raw).role == User && Contains(Corrective(raw).content, raw)
    ensures Corrective(raw).content[|CorrectionHead|..] == raw
  {
    ContainsInfix(CorrectionHead, raw, []);
    assert CorrectionHead + raw + [] == CorrectionHead + raw;
  }

  /** `resp.choices[0].message.content or ""`: a null content reads as the empty string. */
  function Content(reply: Option<string>): string {
    reply.GetOr("")
  }

  /** How a call of `call_and_parse_lead` ends. */
  datatype Outcome<J> =
    | Parsed(raw: string, value: J)                        // returns (raw, parsed)
    | InvalidJson(attempts: int, error: string, lastRaw: string)  // raises ValueError
    | Unexpected(lastRaw: string)                          // raises RuntimeError
    | CallFailed(attempt: nat)                             // the chat-completion call raised

  /** An outcome with the conversations sent, one per call, in call order. */
  datatype Trace<J> = Trace(outcome: Outcome<J>, sent: seq<seq<Message>>)

  /** The number of iterations of `range(maxRetries + 1)`. */
  function Budget(maxRetries: int): (n: nat)
    ensures maxRetries >= 0 ==> n == maxRetries + 1
    ensures maxRetries < 0 ==> n == 0
  {
    if maxRetries < 0 then 0 else maxRetries + 1
  }

  /**
   * The loop of `call_and_parse_lead` from iteration `attempt` on, with the
   * conversation `messages` and the last reply `lastRaw` so far.
   */
  function Attempts<J>(maxRetries: int, replies: seq<Option<string>>, parse: string -> Result<J, string>,
                       attempt: nat, messages: seq<Message>, lastRaw: string): (t: Trace<J>)
    ensures t.sent == [] || attempt + |t.sent| <= maxRetries + 1
    ensures attempt <= maxRetries ==> t.sent != [] && t.sent[0] == messages
    decreases maxRetries + 1 - attempt
  {
    if attempt > maxRetries then Trace(Unexpected(lastRaw), [])
    else if attempt >= |replies| then Trace(CallFailed(attempt), [messages])
    else
      var raw := Content(replies[attempt]);
      match parse(raw)
      case Success(parsed) => Trace(Parsed(raw, parsed), [messages])
      case Failure(e) =>
        if attempt >= maxRetries then Trace(InvalidJson(maxRetries + 1, e, raw), [messages])
        else
          var grown := messages + [Corrective(raw)];
          var rest := Attempts(maxRetries, replies, parse, attempt + 1, grown, raw);
          Trace(rest.outcome, [messages] + rest.sent)
  }

  /** The whole of `call_and_parse_lead`: the loop from its first iteration. */
  function Run<J>(text: string, maxRetries: int, replies: seq<Option<string>>,
                  parse: string -> Result<J, string>): (t: Trace<J>)
    ensures |t.sent| <= Budget(maxRetries)
    ensures maxRetries >= 0 ==> t.sent != [] && t.sent[0] == InitialMessages(text)
    ensures maxRetries < 0 ==> t == Trace(Unexpected(""), [])
  {
    Attempts(maxRetries, replies, parse, 0, InitialMessages(text), "")
  }

  /** `t` with `sent` recorded before its calls. */
  function After<J>(sent: seq<seq<Message>>, t: Trace<J>): Trace<J> {
    Trace(t.outcome, sent + t.sent)
  }

  /**
   * `call_and_parse_lead(text, max_retries=maxRetries)`: calls the model with a
   * growing conversation until a reply parses, the retries are used up, or a
   * call fails. Returns the outcome and the conversations sent, one per call.
   * As in the source, the retry count is passed by name and defaults to 2.
   */
  method CallAndParseLead<J>(text: string, replies: seq<Option<string>>,
                             parse: string -> Result<J, string>, nameonly maxRetries: int := 2)
    returns (outcome: Outcome<J>, sent: seq<seq<Message>>)
    ensures Trace(outcome, sent) == Run(text, maxRetries, replies, parse)
  {
    var messages := InitialMessages(text);
    var lastRaw := "";
    sent := [];
    var attempt: nat := 0;
    ghost var whole := Run(text, maxRetries, replies, parse);
    while attempt < maxRetries + 1
      invariant whole == After(sent, Attempts(maxRetries, replies, parse, attempt, messages, lastRaw))
      decreases maxRetries + 1 - attempt
    {
      ghost var before := sent;
      ghost var rest := Attempts(maxRetries, replies, parse, attempt, messages, lastRaw);
      sent := sent + [messages];
      if attempt >= |replies| {
        outcome := CallFailed(attempt);
        assert rest == Trace(outcome, [messages]);
        return;
      }
      var raw := Content(replies[attempt]);
      lastRaw := raw;
      match parse(raw) {
        case Success(parsed) =>
          outcome := Parsed(raw, parsed);
          assert rest == Trace(outcome, [messages]);
          return;
        case Failure(e) =>
          if attempt >= maxRetries {
            outcome := InvalidJson(maxRetries + 1, e, lastRaw);
            assert rest == Trace(outcome, [messages]);
            return;
          }
          ghost var next := Attempts(maxRetries, replies, parse, attempt + 1, messages + [Corrective(raw)], raw);
          assert rest == Trace(next.outcome, [messages] + next.sent);
          assert before + ([messages] + next.sent) == sent + next.sent;
          messages := messages + [Corrective(raw)];
      }
      attempt := attempt + 1;
    }
    outcome := Unexpected(lastRaw);
  }

  /** Every reply with index in [lo, hi) was received and failed to parse. */
  ghost predicate AllFail<J>(replies: seq<Option<string>>, parse: string -> Result<J, string>, lo: nat, hi: nat) {
    && hi <= |replies|
    && forall j :: lo <= j < hi ==> parse(Content(replies[j])).Failure?
  }

  /** The corrective messages for a run of rejected replies, in order. */
  function Corrections(rs: seq<Option<string>>): (r: seq<Message>)
    ensures |r| == |rs|
    ensures forall i :: 0 <= i < |rs| ==> r[i] == Corrective(Content(rs[i]))
  {
    seq(|rs|, i requires 0 <= i < |rs| => Corrective(Content(rs[i])))
  }

  /** The corrections of a run of replies start with the correction of its first reply. */
  lemma CorrectionsCons(rs: seq<Option<string>>)
    requires rs != []
    ensures Corrections(rs) == [Corrective(Content(rs[0]))] + Corrections(rs[1..])
  {
  }

  /** Correcting reply `a` and then replies a+1 .. a+j-1 corrects replies a .. a+j-1. */
  lemma CorrectionsStep(messages: seq<Message>, replies: seq<Option<string>>, a: nat, j: nat)
    requires a < a + j <= |replies|
    ensures messages + [Corrective(Content(replies[a]))] + Corrections(replies[a + 1..a + j])
         == messages + Corrections(replies[a..a + j])
  {
    var cs := Corrections(replies[a + 1..a + j]);
    CorrectionsCons(replies[a..a + j]);
    assert replies[a..a + j][1..] == replies[a + 1..a + j];
  }

  /** The conversation of the k-th call: the two initial messages and one correction per earlier reply. */
  function Conversation(text: string, replies: seq<Option<string>>, k: nat): (r: seq<Message>)
    requires k <= |replies|
    ensures |r| == 2 + k && r[..2] == InitialMessages(text)
  {
    InitialMessages(text) + Corrections(replies[..k])
  }

  /** A loop that makes a second call got a reply at iteration `a` that failed to parse, and retried. */
  lemma AttemptsRetry<J>(maxRetries: int, replies: seq<Option<string>>, parse: string -> Result<J, string>,
                         a: nat, messages: seq<Message>, lastRaw: string)
    requires |Attempts(maxRetries, replies, parse, a, messages, lastRaw).sent| > 1
    ensures a < |replies| && a < maxRetries && parse(Content(replies[a])).Failure?
    ensures var raw := Content(replies[a]);
      Attempts(maxRetries, replies, parse, a, messages, lastRaw).sent
      == [messages] + Attempts(maxRetries, replies, parse, a + 1, messages + [Corrective(raw)], raw).sent
  {
  }

  /** From iteration `a`, the j-th call sends `messages` followed by the corrections of the replies before it. */
  lemma {:induction false} AttemptsSent<J>(maxRetries: int, replies: seq<Option<string>>, parse: string -> Result<J, string>,
                                           a: nat, messages: seq<Message>, lastRaw: string, j: nat)
    requires a <= |replies|
    requires j < |Attempts(maxRetries, replies, parse, a, messages, lastRaw).sent|
    ensures a + j <= |replies|
    ensures Attempts(maxRetries, replies, parse, a, messages, lastRaw).sent[j]
            == messages + Corrections(replies[a..a + j])
    decreases j
  {
    if j > 0 {
      AttemptsRetry(maxRetries, replies, parse, a, messages, lastRaw);
      var raw := Content(replies[a]);
      var grown := messages + [Corrective(raw)];
      AttemptsSent(maxRetries, replies, parse, a + 1, grown, raw, j - 1);
      CorrectionsStep(messages, replies, a, j);
    } else {
      assert Corrections(replies[a..a]) == [];
    }
  }

  /**
   * From an iteration `a` within the budget, the loop ends at the call with
   * index `a + |sent| - 1`; every reply before that one failed to parse, and
   * the outcome is the one that call's reply (or failure) determines.
   */
  lemma {:induction false} AttemptsSound<J>(maxRetries: int, replies: seq<Option<string>>, parse: string -> Result<J, string>,
                                            a: nat, messages: seq<Message>, lastRaw: string)
    requires a <= maxRetries && a <= |replies|
    ensures var t := Attempts(maxRetries, replies, parse, a, messages, lastRaw);
      var last := a + |t.sent| - 1;
      && t.sent != []
      && AllFail(replies, parse, a, last)
      && match t.outcome
         case Parsed(raw, v) => last < |replies| && raw == Content(replies[last]) && parse(raw) == Success(v)
         case InvalidJson(n, e, raw) =>
           last == maxRetries && n == maxRetries + 1 && last < |replies|
           && raw == Content(replies[last]) && parse(raw) == Failure(e)
         case CallFailed(i) => i == last == |replies|
         case Unexpected(_) => false
    decreases maxRetries + 1 - a
  {
    if a < |replies| && parse(Content(replies[a])).Failure? && a < maxRetries {
      var raw := Content(replies[a]);
      AttemptsSound(maxRetries, replies, parse, a + 1, messages + [Corrective(raw)], raw);
    }
  }

  /**
   * With a retry count of zero or more the trailing RuntimeError is unreachable:
   * the loop ends at its last call, all earlier replies failed to parse, and
   * the outcome reports that last call's reply.
   */
  lemma RunSound<J>(text: string, maxRetries: int, replies: seq<Option<string>>, parse: string -> Result<J, string>)
    requires maxRetries >= 0
    ensures var t := Run(text, maxRetries, replies, parse);
      var last := |t.sent| - 1;
      && 1 <= |t.sent| <= maxRetries + 1
      && AllFail(replies, parse, 0, last)
      && !t.outcome.Unexpected?
      && (t.outcome.Parsed? ==>
            last < |replies| && t.outcome.raw == Content(replies[last])
            && parse(t.outcome.raw) == Success(t.outcome.value))
      && (t.outcome.InvalidJson? ==>
            |t.sent| == maxRetries + 1 && t.outcome.attempts == maxRetries + 1 && last < |replies|
            && t.outcome.lastRaw == Content(replies[last]) && parse(t.outcome.lastRaw) == Failure(t.outcome.error))
      && (t.outcome.CallFailed? ==> t.outcome.attempt == last == |replies|)
  {
    AttemptsSound(maxRetries, replies, parse, 0, InitialMessages(text), "");
  }

  /**
   * If reply k (k <= maxRetries) is the first that parses, the function
   * returns that reply and its parse after exactly k + 1 calls.
   */
  lemma RunParsedAt<J>(text: string, maxRetries: int, replies: seq<Option<string>>, parse: string -> Result<J, string>,
                       k: nat)
    requires k <= maxRetries && k < |replies|
    requires AllFail(replies, parse, 0, k)
    requires parse(Content(replies[k])).Success?
    ensures Run(text, maxRetries, replies, parse)
         == Trace(Parsed(Content(replies[k]), parse(Content(replies[k])).value), Run(text, maxRetries, replies, parse).sent)
    ensures |Run(text, maxRetries, replies, parse).sent| == k + 1
  {
    RunSound(text, maxRetries, replies, parse);
    var t := Run(text, maxRetries, replies, parse);
    var last := |t.sent| - 1;
  }

  /**
   * If none of the maxRetries + 1 replies parses, the function raises the
   * ValueError after exactly maxRetries + 1 calls, carrying the last reply and
   * its decode error.
   */
  lemma RunExhausted<J>(text: string, maxRetries: int, replies: seq<Option<string>>, parse: string -> Result<J, string>)
    requires maxRetries >= 0
    requires AllFail(replies, parse, 0, maxRetries + 1)
    ensures var t := Run(text, maxRetries, replies, parse);
      maxRetries < |replies| &&
      var raw := Content(replies[maxRetries]);
      && t.outcome == InvalidJson(maxRetries + 1, parse(raw).error, raw)
      && |t.sent| == maxRetries + 1
  {
    RunSound(text, maxRetries, replies, parse);
  }

  /**
   * If the replies run out within the budget while all received ones failed
   * to parse, the next call raises and the function propagates its failure.
   */
  lemma RunCallFails<J>(text: string, maxRetries: int, replies: seq<Option<string>>, parse: string -> Result<J, string>)
    requires |replies| <= maxRetries
    requires AllFail(replies, parse, 0, |replies|)
    ensures Run(text, maxRetries, replies, parse).outcome == CallFailed(|replies|)
    ensures |Run(text, maxRetries, replies, parse).sent| == |replies| + 1
  {
    RunSound(text, maxRetries, replies, parse);
  }

  /** The j-th call sends the two initial messages followed by one correction per earlier reply. */
  lemma RunConversation<J>(text: string, maxRetries: int, replies: seq<Option<string>>, parse: string -> Result<J, string>,
                           j: nat)
    requires j < |Run(text, maxRetries, replies, parse).sent|
    ensures j <= |replies|
    ensures Run(text, maxRetries, replies, parse).sent[j] == Conversation(text, replies, j)
  {
    AttemptsSent(maxRetries, replies, parse, 0, InitialMessages(text), "", j);
    assert replies[0..j] == replies[..j];
  }

  /**
   * Between consecutive calls the conversation grows by exactly one user
   * message carrying the rejected reply; the earlier messages are unchanged.
   */
  lemma RunGrowth<J>(text: string, maxRetries: int, replies: seq<Option<string>>, parse: string -> Result<J, string>,
                     j: nat)
    requires j + 1 < |Run(text, maxRetries, replies, parse).sent|
    ensures j < |replies| && parse(Content(replies[j])).Failure?
    ensures var sent := Run(text, maxRetries, replies, parse).sent;
      && sent[j + 1] == sent[j] + [Corrective(Content(replies[j]))]
      && sent[j + 1][|sent[j + 1]| - 1].role == User
      && Contains(sent[j + 1][|sent[j + 1]| - 1].content, Content(replies[j]))
  {
    RunSound(text, maxRetries, replies, parse);
    RunConversation(text, maxRetries, replies, parse, j);
    RunConversation(text, maxRetries, replies, parse, j + 1);
    assert replies[..j + 1] == replies[..j] + [replies[j]];
    assert Corrections(replies[..j + 1]) == Corrections(replies[..j]) + [Corrective(Content(replies[j]))];
    CorrectiveCarriesReply(Content(replies[j]));
  }
}
