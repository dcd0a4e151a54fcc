/** The agentic advisor loop and its metering (api/ai/advisor.js `runAdvisor`). The model, the tools
    and the usage store are outside; what they answer in each round is a script. */
module Advisor {
  import opened Rows

  const MAX_STEPS := 6

  function StepLimitReply(): string {
    "I wasn't able to finish that within my tool-use budget. " + "Please narrow the question and try again."
  }

  datatype Call = Call(id: nat, name: Option<string>)

  datatype Msg = Given(text: string) | Assistant(content: string, calls: seq<Call>) | Tool(callId: nat, result: string)

  datatype Reply = Reply(input: nat, output: nat, content: string, calls: seq<Call>)

  /** One round: the model's reply or None when the call throws, whether the usage could be
      recorded, and what the tool calls answer, in order (tool errors are answers too). */
  datatype Round = Round(reply: Option<Reply>, metered: bool, answers: seq<string>)

  datatype Usage = Usage(input: nat, output: nat)

  datatype Answer = Answer(text: string, steps: nat, toolsUsed: seq<string>, usage: Usage)

  /** How a call to the advisor ends; a thrown error leaves what was metered so far. */
  datatype Ending = Finished(answer: Answer) | ModelThrew | MeteringThrew

  /** The model's reply in a round; nothing when the call throws. */
  function ReplyOf(r: Round): Reply { if r.reply.Some? then r.reply.value else Reply(0, 0, "", []) }

  /** What a round cost; nothing when the call throws. */
  function CostOf(r: Round): Usage {
    match r.reply case None => Usage(0, 0) case Some(reply) => Usage(reply.input, reply.output)
  }

  /** What the first `n` rounds cost. */
  function Spent(script: seq<Round>, n: nat): Usage
    requires n <= |script|
  {
    if n == 0 then Usage(0, 0)
    else
      var before, last := Spent(script, n - 1), CostOf(script[n - 1]);
      Usage(before.input + last.input, before.output + last.output)
  }

  function Cost(r: Round): nat { CostOf(r).input + CostOf(r).output }

  function Tokens(script: seq<Round>, n: nat): nat
    requires n <= |script|
  {
    Spent(script, n).input + Spent(script, n).output
  }

  /** The round that gets no tools: the last one, and every one from the cap on. */
  predicate Toolless(script: seq<Round>, i: nat, cap: Option<nat>, used: nat)
    requires i <= |script|
  {
    i == MAX_STEPS - 1 || (cap.Some? && used + Tokens(script, i) >= cap.value)
  }

  predicate HasCalls(r: Round) { r.reply.Some? && |r.reply.value.calls| > 0 }

  predicate Ends(script: seq<Round>, i: nat, cap: Option<nat>, used: nat)
    requires i < |script|
  {
    !HasCalls(script[i]) || Toolless(script, i, cap, used)
  }

  function AnswerOf(answers: seq<string>, i: nat): string { if i < |answers| then answers[i] else "" }

  function Results(calls: seq<Call>, answers: seq<string>): seq<Msg> {
    seq(|calls|, i requires 0 <= i < |calls| => Tool(calls[i].id, AnswerOf(answers, i)))
  }

  function Turn(r: Reply): Msg { Assistant(r.content, r.calls) }

  /** What the first `n` rounds add to the conversation. */
  function Transcript(script: seq<Round>, n: nat): seq<Msg>
    requires n <= |script|
  {
    if n == 0 then []
    else
      var r := ReplyOf(script[n - 1]);
      Transcript(script, n - 1) + [Turn(r)] + Results(r.calls, script[n - 1].answers)
  }

  function Names(calls: seq<Call>): seq<string> {
    if calls == [] then []
    else
      var c := calls[|calls| - 1];
      Names(calls[..|calls| - 1]) + if c.name.Some? && c.name.value != "" then [c.name.value] else []
  }

  function ToolsUsed(script: seq<Round>, n: nat): seq<string>
    requires n <= |script|
  {
    if n == 0 then [] else ToolsUsed(script, n - 1) + Names(ReplyOf(script[n - 1]).calls)
  }

  /** Round `i` neither fails nor ends the loop. */
  predicate Goes(script: seq<Round>, i: nat, cap: Option<nat>, used: nat)
    requires i < |script|
  {
    script[i].reply.Some? && script[i].metered && !Ends(script, i, cap, used)
  }

  /** The loop went past the first `n` rounds without ending or failing. */
  predicate Passed(script: seq<Round>, n: nat, cap: Option<nat>, used: nat)
    requires n <= |script|
  {
    forall i :: 0 <= i < n ==> Goes(script, i, cap, used)
  }

  /** Run the tool calls of a round in order. */
  method RunRoundTools(calls: seq<Call>, answers: seq<string>, conversation: seq<Msg>, toolsUsed: seq<string>)
    returns (conversation': seq<Msg>, toolsUsed': seq<string>)
    ensures conversation' == conversation + Results(calls, answers)
    ensures toolsUsed' == toolsUsed + Names(calls)
  {
    conversation', toolsUsed' := conversation, toolsUsed;
    assert Results(calls[..0], answers) == [] && Names(calls[..0]) == [];
    for i := 0 to |calls|
      invariant conversation' == conversation + Results(calls[..i], answers)
      invariant toolsUsed' == toolsUsed + Names(calls[..i])
    {
      assert calls[..i + 1][..i] == calls[..i];
      var call := calls[i];
      if call.name.Some? && call.name.value != "" { toolsUsed' := toolsUsed' + [call.name.value]; }
      conversation' := conversation' + [Tool(call.id, AnswerOf(answers, i))];
      assert Results(calls[..i + 1], answers) == Results(calls[..i], answers) + [Tool(call.id, AnswerOf(answers, i))];
    }
    assert calls[..|calls|] == calls;
  }

  /** One more complete round, in the conversation, in the tools used and in the usage. */
  lemma RoundDone(messages: seq<Msg>, script: seq<Round>, n: nat)
    requires n < |script|
    ensures var r := ReplyOf(script[n]);
      && messages + Transcript(script, n + 1)
         == messages + Transcript(script, n) + [Turn(r)] + Results(r.calls, script[n].answers)
      && ToolsUsed(script, n + 1) == ToolsUsed(script, n) + Names(r.calls)
  {}

  /** A call of the model: the conversation it sees, and whether it is offered tools. */
  datatype Prompt = Prompt(messages: seq<Msg>, tools: bool)

  /** The first `n` calls of the model. */
  function Prompts(messages: seq<Msg>, script: seq<Round>, n: nat, cap: Option<nat>, used: nat): seq<Prompt>
    requires n <= |script|
  {
    seq(n, i requires 0 <= i < n => Prompt(messages + Transcript(script, i), !Toolless(script, i, cap, used)))
  }

  /** Tools are offered in the first five rounds, as long as the cap was not reached. */
  ghost predicate OfferedBelowCap(prompts: seq<Prompt>, script: seq<Round>, cap: Option<nat>, used: nat)
    requires |prompts| <= |script|
  {
    forall i :: 0 <= i < |prompts| ==>
      (prompts[i].tools <==> i < 5 && (cap.Some? ==> used + Tokens(script, i) < cap.value))
  }

  lemma OffersBelowCap(messages: seq<Msg>, script: seq<Round>, n: nat, cap: Option<nat>, used: nat)
    requires n <= |script| && n <= MAX_STEPS
    ensures OfferedBelowCap(Prompts(messages, script, n, cap, used), script, cap, used)
  {}

  /** The variables of the loop after `n` complete rounds. */
  ghost predicate After(messages: seq<Msg>, script: seq<Round>, n: nat, conversation: seq<Msg>, toolsUsed: seq<string>,
                        usage: Usage, prompts: seq<Prompt>, cap: Option<nat>, used: nat)
    requires n <= |script|
  {
    && conversation == messages + Transcript(script, n) && toolsUsed == ToolsUsed(script, n)
    && usage == Spent(script, n) && prompts == Prompts(messages, script, n, cap, used)
  }

  lemma NoRounds(messages: seq<Msg>, script: seq<Round>, cap: Option<nat>, used: nat)
    ensures After(messages, script, 0, messages, [], Usage(0, 0), [], cap, used)
  {
    assert messages + Transcript(script, 0) == messages;
  }

  lemma Asked(messages: seq<Msg>, script: seq<Round>, n: nat, conversation: seq<Msg>, toolsUsed: seq<string>,
              usage: Usage, prompts: seq<Prompt>, cap: Option<nat>, used: nat)
    requires n < |script| && After(messages, script, n, conversation, toolsUsed, usage, prompts, cap, used)
    ensures prompts + [Prompt(conversation, !Toolless(script, n, cap, used))]
         == Prompts(messages, script, n + 1, cap, used)
  {}

  lemma Metered(script: seq<Round>, n: nat, usage: Usage, result: Reply)
    requires n < |script| && script[n].reply == Some(result) && usage == Spent(script, n)
    ensures Usage(usage.input + result.input, usage.output + result.output) == Spent(script, n + 1)
  {}

  /** One more complete round, in all the variables of the loop. */
  lemma RoundOver(messages: seq<Msg>, script: seq<Round>, n: nat, conversation: seq<Msg>, toolsUsed: seq<string>,
                  usage: Usage, prompts: seq<Prompt>, cap: Option<nat>, used: nat, r: Reply)
    requires n < |script| && After(messages, script, n, conversation, toolsUsed, usage, prompts, cap, used)
    requires script[n].reply == Some(r)
    ensures After(messages, script, n + 1, conversation + [Turn(r)] + Results(r.calls, script[n].answers),
                  toolsUsed + Names(r.calls), Usage(usage.input + r.input, usage.output + r.output),
                  prompts + [Prompt(conversation, !Toolless(script, n, cap, used))], cap, used)
  {
    RoundDone(messages, script, n);
    Asked(messages, script, n, conversation, toolsUsed, usage, prompts, cap, used);
    Metered(script, n, usage, r);
  }

  /** The answer of the last round; a blank tool-less one becomes the fallback. */
  function FinalText(r: Reply, toolless: bool): string {
    if r.content != "" then r.content else if toolless then StepLimitReply() else ""
  }

  /** How round `n` ended the run, and what was metered by then. */
  ghost predicate EndedAt(ending: Ending, recorded: Usage, script: seq<Round>, n: nat, cap: Option<nat>, used: nat)
    requires n < |script|
  {
    var r := script[n];
    match ending
    case ModelThrew => r.reply.None? && recorded == Spent(script, n)
    case MeteringThrew => r.reply.Some? && !r.metered && recorded == Spent(script, n)
    case Finished(a) =>
      && r.reply.Some? && r.metered && Ends(script, n, cap, used)
      && a.usage == recorded == Spent(script, n + 1)
      && a.steps == n + 1 && a.toolsUsed == ToolsUsed(script, n)
      && a.text == FinalText(ReplyOf(r), Toolless(script, n, cap, used))
  }

  lemma PassedOne(script: seq<Round>, n: nat, cap: Option<nat>, used: nat, r: Reply)
    requires n < |script| && Passed(script, n, cap, used) && script[n].reply == Some(r) && script[n].metered
    requires |r.calls| != 0 && !Toolless(script, n, cap, used)
    ensures Passed(script, n + 1, cap, used)
  {}

  lemma FinishedAt(script: seq<Round>, n: nat, cap: Option<nat>, used: nat, a: Answer, r: Reply, recorded: Usage)
    requires n < |script| && script[n].reply == Some(r) && script[n].metered
    requires |r.calls| == 0 || Toolless(script, n, cap, used)
    requires a == Answer(FinalText(r, Toolless(script, n, cap, used)), n + 1, ToolsUsed(script, n),
                         Spent(script, n + 1))
    requires recorded == a.usage
    ensures EndedAt(Finished(a), recorded, script, n, cap, used)
  {}

  /** The loop. `prompts` are the calls of the model, `recorded` is the usage that reached the store. */
  method RunRounds(messages: seq<Msg>, cap: Option<nat>, used: nat, script: seq<Round>)
    returns (ending: Ending, prompts: seq<Prompt>, recorded: Usage)
    requires |script| >= MAX_STEPS
    ensures 1 <= |prompts| <= MAX_STEPS && Passed(script, |prompts| - 1, cap, used)
    ensures prompts == Prompts(messages, script, |prompts|, cap, used)
    ensures EndedAt(ending, recorded, script, |prompts| - 1, cap, used)
  {
    var conversation, toolsUsed, usage := messages, [], Usage(0, 0);
    prompts, recorded := [], Usage(0, 0);
    ending := ModelThrew;
    NoRounds(messages, script, cap, used);
    for step := 0 to MAX_STEPS
      invariant |prompts| == step && Passed(script, step, cap, used) && recorded == usage
      invariant After(messages, script, step, conversation, toolsUsed, usage, prompts, cap, used)
      invariant step < MAX_STEPS
    {
      var capReached := cap.Some? && used + usage.input + usage.output >= cap.value;
      var noTools := step == MAX_STEPS - 1 || capReached;
      assert noTools == Toolless(script, step, cap, used);
      if script[step].reply.None? {
        Asked(messages, script, step, conversation, toolsUsed, usage, prompts, cap, used);
        return ModelThrew, prompts + [Prompt(conversation, !noTools)], recorded;
      }
      var result := script[step].reply.value;
      RoundOver(messages, script, step, conversation, toolsUsed, usage, prompts, cap, used, result);
      prompts := prompts + [Prompt(conversation, !noTools)];
      usage := Usage(usage.input + result.input, usage.output + result.output);
      if !script[step].metered { return MeteringThrew, prompts, recorded; }
      recorded := Usage(recorded.input + result.input, recorded.output + result.output);
      conversation := conversation + [Turn(result)];
      if |result.calls| == 0 || noTools {
        var answer := Answer(FinalText(result, noTools), step + 1, toolsUsed, usage);
        FinishedAt(script, step, cap, used, answer, result, recorded);
        return Finished(answer), prompts, recorded;
      }
      PassedOne(script, step, cap, used, result);
      conversation, toolsUsed := RunRoundTools(result.calls, script[step].answers, conversation, toolsUsed);
    }
    // The last round always ends the loop: the code's trailing fallback is never reached.
    assert false;
  }

  /** The text given for the last round: the model's own if there is any; without any, nothing when tools were
      offered, and the fallback when they were withheld. */
  predicate Answers(text: string, last: Round, offered: bool) {
    && last.reply.Some?
    && (last.reply.value.content != "" ==> text == last.reply.value.content)
    && (last.reply.value.content == "" && offered ==> text == "")
    && (last.reply.value.content == "" && !offered ==> text == StepLimitReply())
  }

  lemma TextAnswers(ending: Ending, recorded: Usage, script: seq<Round>, n: nat, cap: Option<nat>, used: nat)
    requires n < |script| && EndedAt(ending, recorded, script, n, cap, used) && ending.Finished?
    ensures Answers(ending.answer.text, script[n], !Toolless(script, n, cap, used))
  {}

  /** However the run ends: a user admitted below the cap goes over it by less than two rounds, for any
      `bound` on the cost of a round. */
  method RunAdvisor(messages: seq<Msg>, cap: Option<nat>, used: nat, script: seq<Round>, ghost bound: nat)
    returns (ending: Ending, prompts: seq<Prompt>, recorded: Usage)
    requires |script| >= MAX_STEPS
    ensures 1 <= |prompts| <= MAX_STEPS && Passed(script, |prompts| - 1, cap, used)
    ensures prompts == Prompts(messages, script, |prompts|, cap, used)
    ensures EndedAt(ending, recorded, script, |prompts| - 1, cap, used)
    ensures OfferedBelowCap(prompts, script, cap, used)
    ensures ending.Finished? ==> Answers(ending.answer.text, script[|prompts| - 1], prompts[|prompts| - 1].tools)
    ensures cap.Some? && used < cap.value && RoundsCostAtMost(script, |prompts|, bound)
      ==> used + recorded.input + recorded.output < cap.value + 2 * bound
  {
    ending, prompts, recorded := RunRounds(messages, cap, used, script);
    OffersBelowCap(messages, script, |prompts|, cap, used);
    if ending.Finished? { TextAnswers(ending, recorded, script, |prompts| - 1, cap, used); }
    if cap.Some? && used < cap.value && RoundsCostAtMost(script, |prompts|, bound) {
      RunIsBounded(ending, recorded, script, |prompts| - 1, cap, used, bound);
    }
  }

  /** What a round adds to the conversation: its own turn, then for each tool call, in order, the answer to that
      call under its id. */
  lemma RoundAdds(script: seq<Round>, n: nat, i: nat, k: nat)
    requires n < |script| && script[n].reply.Some?
    ensures var r, before, after := script[n].reply.value, Transcript(script, n), Transcript(script, n + 1);
      && |after| == |before| + 1 + |r.calls| && (i < |before| ==> after[i] == before[i])
      && after[|before|] == Assistant(r.content, r.calls)
      && (k < |r.calls| && k < |script[n].answers| ==>
            after[|before| + 1 + k] == Tool(r.calls[k].id, script[n].answers[k]))
  {}

  predicate IsResultOf(m: Msg, c: Call) { m.Tool? && m.callId == c.id }

  /** The turn at `i` is followed by exactly the results of its tool calls, in order. */
  ghost predicate PairedAt(ms: seq<Msg>, i: nat)
    requires i < |ms| && ms[i].Assistant?
  {
    var calls := ms[i].calls;
    && i + |calls| < |ms|
    && (forall k :: 0 <= k < |calls| ==> IsResultOf(ms[i + 1 + k], calls[k]))
    && (i + 1 + |calls| < |ms| ==> !ms[i + 1 + |calls|].Tool?)
  }

  ghost predicate Paired(ms: seq<Msg>) {
    forall i :: 0 <= i < |ms| && ms[i].Assistant? ==> PairedAt(ms, i)
  }

  lemma PairedTurn(ms: seq<Msg>, r: Reply, answers: seq<string>)
    requires Paired(ms)
    ensures Paired(ms + [Turn(r)] + Results(r.calls, answers))
  {
    var all := ms + [Turn(r)] + Results(r.calls, answers);
    forall i | 0 <= i < |all| && all[i].Assistant? ensures PairedAt(all, i) {
      if i < |ms| {
        assert PairedAt(ms, i) && all[i] == ms[i];
        forall k | 0 <= k < |ms[i].calls| ensures IsResultOf(all[i + 1 + k], ms[i].calls[k]) {
          assert IsResultOf(ms[i + 1 + k], ms[i].calls[k]);
        }
      } else {
        assert i == |ms|;
        forall k | 0 <= k < |r.calls| ensures IsResultOf(all[i + 1 + k], r.calls[k]) {
          assert all[i + 1 + k] == Results(r.calls, answers)[k];
        }
      }
    }
  }

  /** At every model call, what the loop itself added to the conversation is properly paired. */
  lemma {:induction false} EveryPromptIsPaired(script: seq<Round>, n: nat)
    requires n <= |script|
    ensures Paired(Transcript(script, n))
  {
    if n > 0 {
      EveryPromptIsPaired(script, n - 1);
      PairedTurn(Transcript(script, n - 1), ReplyOf(script[n - 1]), script[n - 1].answers);
    }
  }

  /** None of the first `n` rounds costs more than `bound` tokens. */
  predicate RoundsCostAtMost(script: seq<Round>, n: nat, bound: nat)
    requires n <= |script|
  {
    forall i :: 0 <= i < n ==> Cost(script[i]) <= bound
  }

  lemma SpentStep(script: seq<Round>, n: nat)
    requires n < |script|
    ensures Tokens(script, n + 1) == Tokens(script, n) + Cost(script[n])
  {}

  /** Round `i` went on with tools, so the cap was not reached before it. */
  lemma BelowCap(script: seq<Round>, i: nat, cap: Option<nat>, used: nat)
    requires i < |script| && cap.Some? && Goes(script, i, cap, used)
    ensures used + Tokens(script, i) < cap.value
  {}

  /** A user admitted below the cap ends less than two rounds above it: one round may cross
      the cap, and one more, without tools, answers. */
  lemma OvershootIsBounded(script: seq<Round>, n: nat, cap: Option<nat>, used: nat, bound: nat)
    requires n < |script| && cap.Some? && Passed(script, n, cap, used)
    requires RoundsCostAtMost(script, n + 1, bound) && used < cap.value
    ensures used + Tokens(script, n) < cap.value + 2 * bound
    ensures used + Tokens(script, n + 1) < cap.value + 2 * bound
  {
    SpentStep(script, n);
    if n > 0 {
      BelowCap(script, n - 1, cap, used);
      SpentStep(script, n - 1);
    }
  }

  lemma EndedSpent(ending: Ending, recorded: Usage, script: seq<Round>, n: nat, cap: Option<nat>, used: nat)
    requires n < |script| && EndedAt(ending, recorded, script, n, cap, used)
    ensures recorded == Spent(script, n) || recorded == Spent(script, n + 1)
  {}

  lemma RunIsBounded(ending: Ending, recorded: Usage, script: seq<Round>, n: nat, cap: Option<nat>, used: nat,
                     bound: nat)
    requires n < |script| && EndedAt(ending, recorded, script, n, cap, used) && Passed(script, n, cap, used)
    requires cap.Some? && RoundsCostAtMost(script, n + 1, bound) && used < cap.value
    ensures used + recorded.input + recorded.output < cap.value + 2 * bound
  {
    EndedSpent(ending, recorded, script, n, cap, used);
    OvershootIsBounded(script, n, cap, used, bound);
  }
}
