/**
 The bounded tool-use loop of the assistant
 (src/dsql_migrator/core/assessment_strategist.py, tool_chat). The model endpoint and the
 tools may answer anything: they are functions of the round (and the call) only, and the
 properties hold for every such function.
 */
module ToolChat {
  import opened Wrappers
  import opened Text

  const MAX_TRANSCRIPT_CHARS := 24000
  const MAX_TOOL_OUTPUT_CHARS := 12000
  const MAX_NARRATIVE_CHARS := 12000
  const ANSWER := "answer"

  const CUT_NOTE := "\n\n_(The reply was cut at its length limit: ask for one part at a time.)_"
  const HELD_NOTE := "\n\n_(Written before the results of the look-ups it asked for; the answer from those results did not come through, so ask again for it.)_"
  const NOT_SHOWN := "Not shown to the operator: written before the results of the look-ups called with it."
  const ASK_SHORTER := "Not shown: the reply was cut at the output limit. Call answer again with a shorter reply."
  const BUDGET_NOTE := "Tool budget: these are the last tool results you get in this reply."
  const TOOL_FAILED := "{\"error\": \"tool failed\"}"

  datatype Role = User | Assistant

  // A turn of the transcript the operator sees.
  datatype Entry = Entry(role: Role, text: string)

  // A content block. `markdown` is the text of an answer call's input, when it is text.
  datatype Block =
    | TextBlock(text: string)
    | ToolUse(id: string, name: string, markdown: Option<string>)
    | ToolResult(id: string, content: string)
    | OtherBlock

  datatype Turn = Turn(role: Role, content: seq<Block>)

  datatype Stop = StopToolUse | StopMaxTokens | StopOther

  // What a model call gives: an exception, or content and a stop reason.
  datatype Reply = Failed(reason: string) | Reply(content: seq<Block>, stop: Stop)

  datatype ToolOutcome = Output(text: string) | Raised

  // `mustAnswer` is the forced tool choice of the last round.
  datatype Request = Request(messages: seq<Turn>, mustAnswer: bool)

  datatype Reason = EndpointFailed(reason: string) | EmptyOutput | TooLong | NoAnswer | CallbackFailed

  // `Raises`: the callback's exception leaves the turn.
  datatype Outcome = Available(markdown: string) | Unavailable(reason: Reason) | Raises

  // ---- trimming the transcript ----

  function TextLength(entries: seq<Entry>): nat {
    if entries == [] then 0 else |entries[0].text| + TextLength(entries[1..])
  }

  lemma {:induction false} TextLengthCons(first: Entry, rest: seq<Entry>)
    ensures TextLength([first] + rest) == |first.text| + TextLength(rest)
  {
    assert ([first] + rest)[1..] == rest;
  }

  // The most recent turns within the budget: messages[cut..], the turn that crosses the budget
  // included, without the assistant turns it may start with.
  method TrimChatMessages(messages: seq<Entry>, maxChars: nat) returns (kept: seq<Entry>, ghost cut: nat, ghost start: nat)
    ensures cut <= start <= |messages| && kept == messages[start..]
    ensures messages != [] ==> kept != []
    ensures cut > 0 ==> TextLength(messages[cut..]) >= maxChars
    ensures cut + 1 < |messages| ==> TextLength(messages[cut + 1..]) < maxChars
    ensures forall i | cut <= i < start :: messages[i].role == Assistant
    ensures |kept| > 1 ==> kept[0].role == User
  {
    var total: nat, i: nat := 0, |messages|;
    kept := [];
    assert TextLength([]) == 0;
    hide TextLength;
    while i > 0
      invariant 0 <= i <= |messages| && kept == messages[i..] && total == TextLength(kept)
      invariant i < |messages| ==> total < maxChars
      decreases i
    {
      i := i - 1;
      total := total + |messages[i].text|;
      TextLengthCons(messages[i], kept);
      kept := [messages[i]] + kept;
      if total >= maxChars {
        break;
      }
    }
    cut, start := i, i;
    while |kept| > 1 && kept[0].role == Assistant
      invariant cut <= start <= |messages| && kept == messages[start..]
      invariant messages != [] ==> kept != []
      invariant forall j | cut <= j < start :: messages[j].role == Assistant
    {
      kept, start := kept[1..], start + 1;
    }
  }

  // ---- reading a reply ----

  function ToolUses(content: seq<Block>): (r: seq<Block>)
    ensures forall b | b in r :: b.ToolUse?
  {
    if content == [] then [] else (if content[0].ToolUse? then [content[0]] else []) + ToolUses(content[1..])
  }

  function Answers(content: seq<Block>): (r: seq<Block>)
    ensures forall b | b in r :: b.ToolUse?
  {
    if content == [] then [] else
      (if content[0].ToolUse? && content[0].name == ANSWER then [content[0]] else []) + Answers(content[1..])
  }

  predicate HasLookUps(content: seq<Block>) {
    exists b :: b in content && b.ToolUse? && b.name != ANSWER
  }

  predicate HasAnswers(content: seq<Block>) {
    exists b :: b in content && b.ToolUse? && b.name == ANSWER
  }

  function AnswerMarkdown(b: Block): string {
    if b.ToolUse? && b.markdown.Some? then Strip(b.markdown.value) else ""
  }

  // The non-empty answers, a blank line between them.
  function AnswerText(content: seq<Block>): string {
    if content == [] then "" else
      var rest := AnswerText(content[1..]);
      var md := if content[0].ToolUse? && content[0].name == ANSWER then AnswerMarkdown(content[0]) else "";
      if md == "" then rest else if rest == "" then md else md + "\n\n" + rest
  }

  function JoinedText(content: seq<Block>): string {
    if content == [] then "" else (if content[0].TextBlock? then content[0].text else "") + JoinedText(content[1..])
  }

  function FinalText(content: seq<Block>): string {
    if HasAnswers(content) then AnswerText(content) else Strip(JoinedText(content))
  }

  // A round of look-ups: an answer beside them waits, except on the last round.
  predicate LooksUp(r: Reply, last: bool) {
    r.Reply? && r.stop.StopToolUse? && HasLookUps(r.content) && !(HasAnswers(r.content) && last)
  }

  // An answer of which nothing arrived before the output limit.
  predicate CutEmpty(r: Reply) {
    r.Reply? && HasAnswers(r.content) && !HasLookUps(r.content) && FinalText(r.content) == "" && r.stop.StopMaxTokens?
  }

  // ---- what is sent next ----

  function BoundedToolOutput(text: string): string {
    if |text| <= MAX_TOOL_OUTPUT_CHARS then text
    else text[..MAX_TOOL_OUTPUT_CHARS] + "\n...[TRUNCATED: " + NatText(|text| - MAX_TOOL_OUTPUT_CHARS) + " more characters were cut]"
  }

  function ResultOf(b: Block, outcome: ToolOutcome): Block
    requires b.ToolUse?
  {
    ToolResult(b.id, BoundedToolOutput(
      if b.name == ANSWER then NOT_SHOWN else match outcome case Output(text) => text case Raised => TOOL_FAILED))
  }

  function LookUpResults(uses: seq<Block>, round: nat, execute: (nat, nat) -> ToolOutcome): seq<Block>
    requires forall b | b in uses :: b.ToolUse?
  {
    if uses == [] then [] else
      var b := uses[|uses| - 1];
      assert b in uses && forall x | x in uses[..|uses| - 1] :: x in uses;
      LookUpResults(uses[..|uses| - 1], round, execute) + [ResultOf(b, execute(round, |uses| - 1))]
  }

  function ShorterResults(answers: seq<Block>): seq<Block>
    requires forall b | b in answers :: b.ToolUse?
  {
    seq(|answers|, i requires 0 <= i < |answers| =>
      assert answers[i] in answers;
      ToolResult(answers[i].id, ASK_SHORTER))
  }

  // The user turn after reply `r` of a round that is not the end.
  function FollowUp(r: Reply, round: nat, rounds: nat, execute: (nat, nat) -> ToolOutcome): seq<Block>
    requires r.Reply?
  {
    if LooksUp(r, round + 1 == rounds) then
      LookUpResults(ToolUses(r.content), round, execute) + if round + 2 == rounds then [TextBlock(BUDGET_NOTE)] else []
    else
      ShorterResults(Answers(r.content))
  }

  method RunTools(uses: seq<Block>, round: nat, execute: (nat, nat) -> ToolOutcome) returns (results: seq<Block>)
    requires forall b | b in uses :: b.ToolUse?
    ensures results == LookUpResults(uses, round, execute)
  {
    results := [];
    for i := 0 to |uses|
      invariant results == LookUpResults(uses[..i], round, execute)
    {
      assert uses[..i + 1][..i] == uses[..i];
      var b := uses[i];
      assert b in uses;
      var out := NOT_SHOWN;
      if b.name != ANSWER {
        match execute(round, i) {
          case Output(text) => out := text;
          case Raised => out := TOOL_FAILED;
        }
      }
      results := results + [ToolResult(b.id, BoundedToolOutput(out))];
    }
    assert uses[..|uses|] == uses;
  }

  function InitialTurns(entries: seq<Entry>): (r: seq<Turn>)
    ensures |r| == |entries|
    ensures forall i | 0 <= i < |r| :: r[i] == Turn(entries[i].role, [TextBlock(entries[i].text)])
  {
    seq(|entries|, i requires 0 <= i < |entries| => Turn(entries[i].role, [TextBlock(entries[i].text)]))
  }

  // ---- well-formed conversations ----

  function UseIds(content: seq<Block>): seq<string> {
    if content == [] then [] else (if content[0].ToolUse? then [content[0].id] else []) + UseIds(content[1..])
  }

  function ResultIds(content: seq<Block>): seq<string> {
    if content == [] then [] else (if content[0].ToolResult? then [content[0].id] else []) + ResultIds(content[1..])
  }

  // It starts and ends with a user turn, roles alternate, and each tool call of an assistant
  // turn has exactly one result, in order, in the next turn.
  predicate WellFormed(convo: seq<Turn>) {
    && convo != [] && convo[0].role == User && convo[|convo| - 1].role == User
    && (forall i | 0 <= i < |convo| - 1 :: convo[i].role != convo[i + 1].role)
    && (forall i | 0 <= i < |convo| - 1 && convo[i].role == Assistant :: ResultIds(convo[i + 1].content) == UseIds(convo[i].content))
  }

  predicate AlternatingTranscript(messages: seq<Entry>) {
    && messages != [] && messages[|messages| - 1].role == User
    && forall i | 0 <= i < |messages| - 1 :: messages[i].role != messages[i + 1].role
  }

  lemma TrimmedIsWellFormed(messages: seq<Entry>, start: nat)
    requires AlternatingTranscript(messages) && start < |messages|
    requires |messages| - start > 1 ==> messages[start].role == User
    ensures WellFormed(InitialTurns(messages[start..]))
  {
    var kept := messages[start..];
    var convo := InitialTurns(kept);
    assert forall i | 0 <= i < |kept| :: kept[i] == messages[start + i];
    forall i | 0 <= i < |convo| - 1 ensures convo[i].role != convo[i + 1].role {
      assert messages[start + i].role != messages[start + i + 1].role;
    }
    forall i | 0 <= i < |convo| ensures UseIds(convo[i].content) == [] && ResultIds(convo[i].content) == [] {
      assert convo[i].content[1..] == [];
    }
  }

  lemma {:induction false} WellFormedExtends(convo: seq<Turn>, content: seq<Block>, follow: seq<Block>)
    requires WellFormed(convo) && ResultIds(follow) == UseIds(content)
    ensures WellFormed(convo + [Turn(Assistant, content), Turn(User, follow)])
  {
    hide ResultIds, UseIds;
    var next := convo + [Turn(Assistant, content), Turn(User, follow)];
    var n := |convo|;
    assert next[n] == Turn(Assistant, content) && next[n + 1] == Turn(User, follow);
    forall i | 0 <= i < |next| - 1
      ensures next[i].role != next[i + 1].role
      ensures next[i].role == Assistant ==> ResultIds(next[i + 1].content) == UseIds(next[i].content)
    {
      if i < n - 1 { assert next[i] == convo[i] && next[i + 1] == convo[i + 1]; }
    }
  }

  lemma {:induction false} ResultIdsConcat(a: seq<Block>, b: seq<Block>)
    ensures ResultIds(a + b) == ResultIds(a) + ResultIds(b)
  {
    if a == [] {
      assert a + b == b;
    } else {
      assert (a + b)[1..] == a[1..] + b;
      ResultIdsConcat(a[1..], b);
    }
  }

  lemma {:induction false} UseIdsOfUses(content: seq<Block>)
    ensures UseIds(content) == IdsOf(ToolUses(content))
  {
    if content != [] {
      UseIdsOfUses(content[1..]);
    }
  }

  function IdsOf(uses: seq<Block>): seq<string>
    requires forall b | b in uses :: b.ToolUse?
  {
    seq(|uses|, i requires 0 <= i < |uses| => assert uses[i] in uses; uses[i].id)
  }

  lemma {:induction false} LookUpResultIds(uses: seq<Block>, round: nat, execute: (nat, nat) -> ToolOutcome)
    requires forall b | b in uses :: b.ToolUse?
    ensures ResultIds(LookUpResults(uses, round, execute)) == IdsOf(uses)
  {
    hide BoundedToolOutput;
    if uses != [] {
      var init, b := uses[..|uses| - 1], uses[|uses| - 1];
      assert b in uses && forall x | x in init :: x in uses;
      LookUpResultIds(init, round, execute);
      var r := ResultOf(b, execute(round, |uses| - 1));
      ResultIdsConcat(LookUpResults(init, round, execute), [r]);
      assert [r][1..] == [] && ResultIds([r]) == [b.id];
      assert IdsOf(uses) == IdsOf(init) + [b.id];
    }
  }

  lemma {:induction false} ShorterResultIds(answers: seq<Block>)
    requires forall b | b in answers :: b.ToolUse?
    ensures ResultIds(ShorterResults(answers)) == IdsOf(answers)
  {
    if answers != [] {
      assert answers[0] in answers && forall b | b in answers[1..] :: b in answers;
      ShorterResultIds(answers[1..]);
      assert ShorterResults(answers)[1..] == ShorterResults(answers[1..]);
      assert IdsOf(answers) == [answers[0].id] + IdsOf(answers[1..]);
    }
  }

  // A request for a shorter reply answers the answer calls only: every call of the turn
  // exactly when it made no look-up.
  lemma {:induction false} ShorterAnswersEachCallExactly(content: seq<Block>)
    ensures ResultIds(ShorterResults(Answers(content))) == UseIds(content) <==> !HasLookUps(content)
  {
    ShorterResultIds(Answers(content));
    UseIdsOfUses(content);
    AnswersAmongUses(content);
    hide ShorterResults, ResultIds, UseIds, Answers, ToolUses, HasLookUps;
    assert |IdsOf(Answers(content))| == |Answers(content)| && |IdsOf(ToolUses(content))| == |ToolUses(content)|;
  }

  lemma {:induction false} AnswersAmongUses(content: seq<Block>)
    ensures |Answers(content)| <= |ToolUses(content)|
    ensures HasLookUps(content) ==> |Answers(content)| < |ToolUses(content)|
    ensures !HasLookUps(content) ==> Answers(content) == ToolUses(content)
  {
    if content != [] {
      AnswersAmongUses(content[1..]);
      LookUpsFirst(content);
      hide HasLookUps;
    }
  }

  lemma LookUpsFirst(content: seq<Block>)
    requires content != []
    ensures HasLookUps(content) <==> (content[0].ToolUse? && content[0].name != ANSWER) || HasLookUps(content[1..])
  {
    assert content == [content[0]] + content[1..];
    if HasLookUps(content) {
      var b :| b in content && b.ToolUse? && b.name != ANSWER;
      assert b == content[0] || b in content[1..];
    }
  }

  // Each call of a reply that the rounds go on from is answered once, in order, whichever
  // branch follows it: after look-ups every call, after a cut reply its answers, there being
  // no look-up then.
  lemma FollowUpAnswersEachCall(r: Reply, round: nat, rounds: nat, execute: (nat, nat) -> ToolOutcome)
    requires LooksUp(r, round + 1 == rounds) || CutEmpty(r)
    ensures ResultIds(FollowUp(r, round, rounds, execute)) == UseIds(r.content)
  {
    assert r.Reply?;
    if LooksUp(r, round + 1 == rounds) {
      hide LookUpResults, ShorterResults, IdsOf, LooksUp;
      var uses := ToolUses(r.content);
      UseIdsOfUses(r.content);
      LookUpResultIds(uses, round, execute);
      var note := if round + 2 == rounds then [TextBlock(BUDGET_NOTE)] else [];
      assert note != [] ==> note[1..] == [];
      ResultIdsConcat(LookUpResults(uses, round, execute), note);
    } else {
      hide ResultIds, UseIds, FinalText, LooksUp;
      ShorterAnswersEachCallExactly(r.content);
    }
  }

  // ---- the outcome ----

  // `final` as the turn's reply, within the panel's cap and saying when it was cut.
  function Render(final: string, cut: bool, note: string): string {
    (if |final| > MAX_NARRATIVE_CHARS then final[..MAX_NARRATIVE_CHARS] else final)
    + (if cut || |final| > MAX_NARRATIVE_CHARS then CUT_NOTE else "") + note
  }

  // The latest non-empty answer held back beside look-ups in the first n rounds.
  function Held(endpoint: nat -> Reply, n: nat, rounds: nat): string {
    if n == 0 then "" else
      var r := endpoint(n - 1);
      if LooksUp(r, n == rounds) && AnswerText(r.content) != "" then AnswerText(r.content)
      else Held(endpoint, n - 1, rounds)
  }

  // What a turn that ends after n rounds delivers: the reply of its last round, or else the
  // held answer, or else nothing.
  function Delivered(endpoint: nat -> Reply, n: nat, rounds: nat): Option<string>
    requires n > 0
  {
    var r := endpoint(n - 1);
    if r.Reply? && !LooksUp(r, n == rounds) && FinalText(r.content) != ""
    then Some(Render(FinalText(r.content), r.stop.StopMaxTokens?, ""))
    else if Held(endpoint, n, rounds) != "" then Some(Render(Held(endpoint, n, rounds), false, HELD_NOTE))
    else None
  }

  function Rounds(maxRounds: int): nat {
    if maxRounds > 1 then maxRounds else 1
  }

  // Whether one of the first n replies was an answer cut before any of it arrived.
  predicate AskedShorter(endpoint: nat -> Reply, n: nat) {
    n > 0 && (CutEmpty(endpoint(n - 1)) || AskedShorter(endpoint, n - 1))
  }

  // Whether round n is followed by another: look-ups, or the one request for a shorter reply.
  predicate GoesOn(endpoint: nat -> Reply, n: nat, rounds: nat) {
    || LooksUp(endpoint(n), n + 1 == rounds)
    || (CutEmpty(endpoint(n)) && n + 1 < rounds && !AskedShorter(endpoint, n))
  }

  predicate WentOn(endpoint: nat -> Reply, n: nat, rounds: nat) {
    n == 0 || (WentOn(endpoint, n - 1, rounds) && GoesOn(endpoint, n - 1, rounds))
  }

  // The conversation after n rounds: each adds the reply, verbatim, and the answers to its
  // tool calls.
  function Conversation(first: seq<Turn>, endpoint: nat -> Reply, n: nat, rounds: nat, execute: (nat, nat) -> ToolOutcome): seq<Turn> {
    if n == 0 || endpoint(n - 1).Failed? then first else
      Conversation(first, endpoint, n - 1, rounds, execute)
      + [Turn(Assistant, endpoint(n - 1).content), Turn(User, FollowUp(endpoint(n - 1), n - 1, rounds, execute))]
  }

  // How a turn ends after n rounds, and what the callback was called with. `returns(k)` tells
  // whether its k-th call returns. One that raises is caught like a failed round, so that a held
  // answer is given to it again; in the handler of a failed round nothing catches it.
  predicate Concludes(endpoint: nat -> Reply, n: nat, rounds: nat, delivers: nat -> bool, outcome: Outcome, called: seq<string>)
    requires n > 0
  {
    match Delivered(endpoint, n, rounds)
    case None => outcome.Unavailable? && called == []
    case Some(markdown) =>
      if delivers(0) then outcome == Available(markdown) && called == [markdown]
      else if endpoint(n - 1).Failed? then outcome == Raises && called == [markdown]
      else if Held(endpoint, n, rounds) == "" then outcome.Unavailable? && called == [markdown]
      else
        var again := Render(Held(endpoint, n, rounds), false, HELD_NOTE);
        called == [markdown, again] && outcome == if delivers(1) then Available(again) else Raises
  }

  method Conclude(final: string, cut: bool, note: string, delivers: bool) returns (outcome: Outcome, called: seq<string>)
    ensures called == [Render(final, cut, note)]
    ensures outcome == if delivers then Available(called[0]) else Raises
  {
    var markdown := if |final| > MAX_NARRATIVE_CHARS then final[..MAX_NARRATIVE_CHARS] else final;
    if cut || |final| > MAX_NARRATIVE_CHARS {
      markdown := markdown + CUT_NOTE;
    } else {
      markdown := markdown + "";
    }
    markdown := markdown + note;
    outcome, called := if delivers then Available(markdown) else Raises, [markdown];
  }

  method Ended(failure: Reason, held: string, delivers: bool) returns (outcome: Outcome, called: seq<string>)
    ensures held != "" ==> called == [Render(held, false, HELD_NOTE)] && outcome == if delivers then Available(called[0]) else Raises
    ensures held == "" ==> outcome == Unavailable(failure) && called == []
  {
    if held != "" {
      outcome, called := Conclude(held, false, HELD_NOTE, delivers);
    } else {
      outcome, called := Unavailable(failure), [];
    }
  }

  // The handler around the rounds.
  method Caught(ended: Outcome, before: seq<string>, held: string, delivers: bool) returns (outcome: Outcome, called: seq<string>)
    ensures !ended.Raises? ==> outcome == ended && called == before
    ensures ended.Raises? && held == "" ==> outcome.Unavailable? && called == before
    ensures ended.Raises? && held != "" ==>
              called == before + [Render(held, false, HELD_NOTE)] && outcome == if delivers then Available(called[|before|]) else Raises
  {
    outcome, called := ended, before;
    if ended.Raises? {
      var again;
      outcome, again := Ended(CallbackFailed, held, delivers);
      called := before + again;
    }
  }

  // The requests of the first n rounds.
  function Requests(first: seq<Turn>, endpoint: nat -> Reply, n: nat, rounds: nat, execute: (nat, nat) -> ToolOutcome): (r: seq<Request>)
    ensures |r| == n
    ensures forall i: nat | i < n :: r[i] == Request(Conversation(first, endpoint, i, rounds, execute), i + 1 == rounds)
  {
    if n == 0 then [] else
      Requests(first, endpoint, n - 1, rounds, execute)
      + [Request(Conversation(first, endpoint, n - 1, rounds, execute), n == rounds)]
  }

  lemma RequestsNext(first: seq<Turn>, endpoint: nat -> Reply, n: nat, rounds: nat, execute: (nat, nat) -> ToolOutcome)
    ensures Requests(first, endpoint, n + 1, rounds, execute)
         == Requests(first, endpoint, n, rounds, execute) + [Request(Conversation(first, endpoint, n, rounds, execute), n + 1 == rounds)]
  {
  }

  // A round without look-ups ends in its own text, or else in the held one.
  lemma RoundEnds(endpoint: nat -> Reply, n: nat, rounds: nat)
    requires !LooksUp(endpoint(n), n + 1 == rounds)
    ensures Held(endpoint, n + 1, rounds) == Held(endpoint, n, rounds)
    ensures var r, held := endpoint(n), Held(endpoint, n, rounds);
            var final := if r.Failed? then "" else FinalText(r.content);
            Delivered(endpoint, n + 1, rounds)
            == if final != "" then Some(Render(final, r.stop.StopMaxTokens?, ""))
               else if held == "" then None else Some(Render(held, false, HELD_NOTE))
  {
    hide LooksUp, FinalText, AnswerText, Render;
  }

  // So do rounds that looked things up to the end.
  lemma {:induction false} LookUpsEnd(endpoint: nat -> Reply, rounds: nat)
    requires rounds > 0 && LooksUp(endpoint(rounds - 1), true)
    ensures endpoint(rounds - 1).Reply?
    ensures var held := Held(endpoint, rounds, rounds);
            Delivered(endpoint, rounds, rounds) == if held == "" then None else Some(Render(held, false, HELD_NOTE))
  {
    assert rounds == rounds;
    hide FinalText, AnswerText, Render;
  }

  // The rounds of one turn, from its first conversation.
  method RunRounds(first: seq<Turn>, rounds: nat, endpoint: nat -> Reply, execute: (nat, nat) -> ToolOutcome, delivers: nat -> bool)
    returns (outcome: Outcome, sent: seq<Request>, called: seq<string>)
    requires rounds > 0
    ensures 1 <= |sent| <= rounds && sent == Requests(first, endpoint, |sent|, rounds, execute)
    ensures WentOn(endpoint, |sent| - 1, rounds) && (|sent| < rounds ==> !GoesOn(endpoint, |sent| - 1, rounds))
    ensures Concludes(endpoint, |sent|, rounds, delivers, outcome, called)
  {
    hide LookUpResults, ShorterResults, FinalText, AnswerText, LooksUp, CutEmpty, FollowUp, ToolUses, Answers, Render, Delivered;
    var convo := first;
    var held, askedShorter := "", false;
    sent := [];
    for n := 0 to rounds
      invariant sent == Requests(first, endpoint, n, rounds, execute) && convo == Conversation(first, endpoint, n, rounds, execute)
      invariant WentOn(endpoint, n, rounds)
      invariant askedShorter <==> AskedShorter(endpoint, n)
      invariant held == Held(endpoint, n, rounds)
    {
      var last := n + 1 == rounds;
      sent := sent + [Request(convo, last)];
      var r := endpoint(n);
      RequestsNext(first, endpoint, n, rounds, execute);
      hide Requests;
      if r.Failed? {
        FailedIs(r);
        RoundEnds(endpoint, n, rounds);
        outcome, called := Ended(EndpointFailed(r.reason), held, delivers(0));
        return;
      }
      FollowUpIs(r, n, rounds, execute);
      if LooksUp(r, last) {
        NotCutEmpty(r, last);
        var results := RunTools(ToolUses(r.content), n, execute);
        if n + 2 == rounds {
          results := results + [TextBlock(BUDGET_NOTE)];
        }
        assert results == FollowUp(r, n, rounds, execute);
        convo := convo + [Turn(Assistant, r.content), Turn(User, results)];
        var now := AnswerText(r.content);
        held := if now != "" then now else held;
        continue;
      }
      RoundEnds(endpoint, n, rounds);
      if CutEmpty(r) {
        CutEmptyIs(r);
        if last || askedShorter {
          outcome, called := Ended(TooLong, held, delivers(0));
          outcome, called := Caught(outcome, called, held, delivers(1));
          return;
        }
        askedShorter := true;
        convo := convo + [Turn(Assistant, r.content), Turn(User, ShorterResults(Answers(r.content)))];
        continue;
      }
      var final := FinalText(r.content);
      if final == "" {
        outcome, called := Ended(EmptyOutput, held, delivers(0));
        outcome, called := Caught(outcome, called, held, delivers(1));
        return;
      }
      outcome, called := Conclude(final, r.stop.StopMaxTokens?, "", delivers(0));
      outcome, called := Caught(outcome, called, held, delivers(1));
      return;
    }
    LookUpsEnd(endpoint, rounds);
    outcome, called := Ended(NoAnswer, held, delivers(0));
    outcome, called := Caught(outcome, called, held, delivers(1));
  }

  method ChatTurn(messages: seq<Entry>, maxRounds: int, endpoint: nat -> Reply, execute: (nat, nat) -> ToolOutcome, delivers: nat -> bool)
    returns (outcome: Outcome, sent: seq<Request>, called: seq<string>, ghost start: nat, ghost cut: nat)
    // The transcript is trimmed to the turn that crosses the budget, leading assistant turns aside.
    ensures cut <= start && forall i | cut <= i < start && i < |messages| :: messages[i].role == Assistant
    ensures cut <= |messages| && (cut > 0 ==> TextLength(messages[cut..]) >= 24000)
    ensures cut + 1 < |messages| ==> TextLength(messages[cut + 1..]) < 24000
    // It always ends, within the round budget.
    ensures 1 <= |sent| <= Rounds(maxRounds)
    ensures WentOn(endpoint, |sent| - 1, Rounds(maxRounds)) && (|sent| < Rounds(maxRounds) ==> !GoesOn(endpoint, |sent| - 1, Rounds(maxRounds)))
    // Each request is the conversation so far; only the last round forces the answer.
    ensures start <= |messages| && (messages != [] ==> start < |messages|)
    ensures sent == Requests(InitialTurns(messages[start..]), endpoint, |sent|, Rounds(maxRounds), execute)
    // Every request is a well-formed conversation.
    ensures AlternatingTranscript(messages) ==> forall i: nat | i < |sent| :: WellFormed(sent[i].messages)
    // What was received is delivered, exactly once when the callback returns; nothing else is.
    ensures Concludes(endpoint, |sent|, Rounds(maxRounds), delivers, outcome, called)
    ensures delivers(0) ==> called == (if outcome.Available? then [outcome.markdown] else [])
  {
    hide Conversation, Requests, WellFormed, InitialTurns, AlternatingTranscript, Delivered, WentOn, GoesOn, TextLength, Render, Held;
    var kept, crossed, from := TrimChatMessages(messages, MAX_TRANSCRIPT_CHARS);
    start, cut := from, crossed;
    outcome, sent, called := RunRounds(InitialTurns(kept), Rounds(maxRounds), endpoint, execute, delivers);
    if AlternatingTranscript(messages) {
      NotEmpty(messages);
      TrimmedIsWellFormed(messages, start);
      forall i: nat | i < |sent| ensures WellFormed(sent[i].messages) {
        WentOnBefore(endpoint, i, |sent| - 1, Rounds(maxRounds));
        ConversationWellFormed(InitialTurns(kept), endpoint, i, Rounds(maxRounds), execute);
      }
    }
  }

  // Whatever the endpoint replies, the conversation stays well-formed through every round that
  // went on.
  lemma {:induction false} ConversationWellFormed(first: seq<Turn>, endpoint: nat -> Reply, n: nat, rounds: nat, execute: (nat, nat) -> ToolOutcome)
    requires WellFormed(first) && WentOn(endpoint, n, rounds)
    ensures WellFormed(Conversation(first, endpoint, n, rounds, execute))
  {
    hide WellFormed, FollowUp, LooksUp, CutEmpty;
    if n > 0 && endpoint(n - 1).Reply? {
      ConversationWellFormed(first, endpoint, n - 1, rounds, execute);
      FollowUpAnswersEachCall(endpoint(n - 1), n - 1, rounds, execute);
      WellFormedExtends(Conversation(first, endpoint, n - 1, rounds, execute), endpoint(n - 1).content, FollowUp(endpoint(n - 1), n - 1, rounds, execute));
    }
  }

  lemma {:induction false} WentOnBefore(endpoint: nat -> Reply, i: nat, n: nat, rounds: nat)
    requires i <= n && WentOn(endpoint, n, rounds)
    ensures WentOn(endpoint, i, rounds)
  {
    if i < n { WentOnBefore(endpoint, i, n - 1, rounds); }
  }

  lemma FailedIs(r: Reply)
    requires r.Failed?
    ensures !LooksUp(r, true) && !LooksUp(r, false) && !CutEmpty(r)
  {
  }

  lemma {:induction false} FollowUpIs(r: Reply, round: nat, rounds: nat, execute: (nat, nat) -> ToolOutcome)
    requires r.Reply?
    ensures LooksUp(r, round + 1 == rounds) ==>
              FollowUp(r, round, rounds, execute)
              == LookUpResults(ToolUses(r.content), round, execute) + if round + 2 == rounds then [TextBlock(BUDGET_NOTE)] else []
    ensures !LooksUp(r, round + 1 == rounds) ==> FollowUp(r, round, rounds, execute) == ShorterResults(Answers(r.content))
  {
    hide LooksUp, LookUpResults, ShorterResults, ToolUses, Answers;
  }

  lemma NotEmpty(messages: seq<Entry>)
    requires AlternatingTranscript(messages)
    ensures messages != []
  {
  }

  lemma NotCutEmpty(r: Reply, last: bool)
    requires LooksUp(r, last)
    ensures !CutEmpty(r) && r.Reply?
  {
  }

  lemma CutEmptyIs(r: Reply)
    requires CutEmpty(r)
    ensures r.Reply? && FinalText(r.content) == "" && !LooksUp(r, true) && !LooksUp(r, false)
  {
  }

  // A shorter reply is asked for at most once, and never on the last round: of the rounds that
  // went on, at most one was no look-up.
  lemma {:induction false} ShorterAskedOnce(endpoint: nat -> Reply, n: nat, rounds: nat)
    requires WentOn(endpoint, n, rounds)
    ensures forall i: nat, j: nat | i < j < n :: LooksUp(endpoint(i), i + 1 == rounds) || LooksUp(endpoint(j), j + 1 == rounds)
    ensures forall i: nat | i < n && !LooksUp(endpoint(i), i + 1 == rounds) :: CutEmpty(endpoint(i)) && i + 1 < rounds && AskedShorter(endpoint, n)
  {
    hide LooksUp, CutEmpty;
    if n > 0 { ShorterAskedOnce(endpoint, n - 1, rounds); }
  }

  // The callback is called at most twice, and again only when its first call raised. What the
  // turn returns as available is what the last call was given, and that call returned; it was
  // the only call exactly when the first one returned. The turn itself raises exactly when the
  // last call did with no handler left.
  lemma AvailableIsLastCalled(endpoint: nat -> Reply, n: nat, rounds: nat, delivers: nat -> bool, outcome: Outcome, called: seq<string>)
    requires n > 0 && Concludes(endpoint, n, rounds, delivers, outcome, called)
    ensures |called| <= 2 && (called != [] <==> Delivered(endpoint, n, rounds).Some?) && (|called| == 2 ==> !delivers(0))
    ensures outcome.Available? <==> called != [] && delivers(|called| - 1)
    ensures outcome.Available? ==> outcome.markdown == called[|called| - 1] && (|called| == 1 <==> delivers(0))
    ensures outcome.Raises? <==> called != [] && !delivers(|called| - 1) && (endpoint(n - 1).Failed? || |called| == 2)
  {
    hide Delivered, Held, Render;
  }

  // ---- no answer is ever lost ----

  lemma {:induction false} HeldUnless(endpoint: nat -> Reply, n: nat, rounds: nat)
    requires Held(endpoint, n, rounds) == ""
    ensures forall i: nat | i < n && LooksUp(endpoint(i), i + 1 == rounds) :: AnswerText(endpoint(i).content) == ""
  {
    if n > 0 { HeldUnless(endpoint, n - 1, rounds); }
  }

  // A turn that delivers nothing never received a non-empty answer, in any of its rounds, nor
  // a last reply with text.
  lemma {:induction false} NothingDeliveredNothingReceived(endpoint: nat -> Reply, n: nat, rounds: nat)
    requires 0 < n && WentOn(endpoint, n - 1, rounds) && Delivered(endpoint, n, rounds).None?
    ensures forall i: nat | i < n && endpoint(i).Reply? && HasAnswers(endpoint(i).content) :: AnswerText(endpoint(i).content) == ""
    ensures endpoint(n - 1).Reply? && !LooksUp(endpoint(n - 1), n == rounds) ==> FinalText(endpoint(n - 1).content) == ""
  {
    hide AnswerText, HasAnswers, HasLookUps, JoinedText, Render, Strip;
    HeldUnless(endpoint, n, rounds);
    ShorterAskedOnce(endpoint, n - 1, rounds);
    forall i: nat | i < n && endpoint(i).Reply? && HasAnswers(endpoint(i).content) ensures AnswerText(endpoint(i).content) == "" {
      if i + 1 < n && !LooksUp(endpoint(i), i + 1 == rounds) {
        assert CutEmpty(endpoint(i));
      }
    }
  }

  // The answer or text a round received, empty when none: beside look-ups only answers count.
  function Received(endpoint: nat -> Reply, i: nat, rounds: nat): string {
    var r := endpoint(i);
    if r.Failed? then "" else if LooksUp(r, i + 1 == rounds) then AnswerText(r.content) else FinalText(r.content)
  }

  // The operator sees the text from its start, whole or up to the panel's cap.
  predicate Shows(markdown: string, text: string) {
    (if |text| > MAX_NARRATIVE_CHARS then text[..MAX_NARRATIVE_CHARS] else text) <= markdown
  }

  lemma RenderedReply(final: string, cut: bool, note: string)
    ensures Shows(Render(final, cut, note), final)
    ensures |Render(final, cut, note)| <= MAX_NARRATIVE_CHARS + |CUT_NOTE| + |note|
  {
  }

  lemma {:induction false} HeldIsLatest(endpoint: nat -> Reply, n: nat, rounds: nat)
    requires WentOn(endpoint, n, rounds)
    ensures Held(endpoint, n, rounds) == "" ==> forall i: nat | i < n :: Received(endpoint, i, rounds) == ""
    ensures Held(endpoint, n, rounds) != "" ==>
              exists i: nat :: LatestReceived(endpoint, i, n, rounds) && Received(endpoint, i, rounds) == Held(endpoint, n, rounds)
  {
    hide LooksUp, AnswerText, FinalText;
    if n > 0 {
      HeldIsLatest(endpoint, n - 1, rounds);
      var r := endpoint(n - 1);
      if LooksUp(r, n == rounds) { NotCutEmpty(r, n == rounds); } else { CutEmptyIs(r); }
      var now := Received(endpoint, n - 1, rounds);
      assert Held(endpoint, n, rounds) == if now != "" then now else Held(endpoint, n - 1, rounds);
      hide Received, Held;
      if now != "" {
        LatestIsLast(endpoint, n, rounds);
      } else if Held(endpoint, n - 1, rounds) != "" {
        var i: nat :| LatestReceived(endpoint, i, n - 1, rounds) && Received(endpoint, i, rounds) == Held(endpoint, n - 1, rounds);
        LatestStays(endpoint, i, n, rounds);
      }
    }
  }

  // What the last of n rounds adds to the text held before it.
  lemma {:induction false} DeliveredIs(endpoint: nat -> Reply, n: nat, rounds: nat)
    requires 0 < n
    ensures var now, before := Received(endpoint, n - 1, rounds), Held(endpoint, n - 1, rounds);
            var markdown := Delivered(endpoint, n, rounds);
            if now == "" then markdown == if before == "" then None else Some(Render(before, false, HELD_NOTE))
            else exists cut, note :: note <= HELD_NOTE && markdown == Some(Render(now, cut, note))
  {
    hide AnswerText, FinalText, Render, HasLookUps, HasAnswers;
    var r := endpoint(n - 1);
    var now := Received(endpoint, n - 1, rounds);
    if now != "" {
      if LooksUp(r, n == rounds) {
        assert Delivered(endpoint, n, rounds) == Some(Render(now, false, HELD_NOTE));
      } else {
        assert "" <= HELD_NOTE && Delivered(endpoint, n, rounds) == Some(Render(now, r.stop.StopMaxTokens?, ""));
      }
    }
  }

  // Round i received the last non-empty text of the first n rounds.
  ghost predicate LatestReceived(endpoint: nat -> Reply, i: nat, n: nat, rounds: nat) {
    i < n && Received(endpoint, i, rounds) != "" && forall j: nat | i < j < n :: Received(endpoint, j, rounds) == ""
  }

  // A turn delivers something exactly when some round received a non-empty text, and then it
  // shows the latest one received, within the panel's cap and the notes.
  lemma {:induction false} DeliversLatestReceived(endpoint: nat -> Reply, n: nat, rounds: nat)
    requires 0 < n && WentOn(endpoint, n - 1, rounds)
    ensures Delivered(endpoint, n, rounds).None? <==> forall i: nat | i < n :: Received(endpoint, i, rounds) == ""
    ensures Delivered(endpoint, n, rounds).Some? ==>
              exists i: nat :: LatestReceived(endpoint, i, n, rounds)
                               && Shows(Delivered(endpoint, n, rounds).value, Received(endpoint, i, rounds))
    ensures Delivered(endpoint, n, rounds).Some? ==>
              |Delivered(endpoint, n, rounds).value| <= MAX_NARRATIVE_CHARS + |CUT_NOTE| + |HELD_NOTE|
  {
    HeldIsLatest(endpoint, n - 1, rounds);
    DeliveredIs(endpoint, n, rounds);
    hide *;
    var now, before := Received(endpoint, n - 1, rounds), Held(endpoint, n - 1, rounds);
    if now != "" {
      var cut, note :| note <= HELD_NOTE && Delivered(endpoint, n, rounds) == Some(Render(now, cut, note));
      RenderedReply(now, cut, note);
      LatestIsLast(endpoint, n, rounds);
    } else if before != "" {
      RenderedReply(before, false, HELD_NOTE);
      var i: nat :| LatestReceived(endpoint, i, n - 1, rounds) && Received(endpoint, i, rounds) == before;
      LatestStays(endpoint, i, n, rounds);
    } else {
      forall i: nat | i < n ensures Received(endpoint, i, rounds) == "" {}
    }
  }

  lemma LatestIsLast(endpoint: nat -> Reply, n: nat, rounds: nat)
    requires 0 < n && Received(endpoint, n - 1, rounds) != ""
    ensures LatestReceived(endpoint, n - 1, n, rounds)
  {
  }

  lemma LatestStays(endpoint: nat -> Reply, i: nat, n: nat, rounds: nat)
    requires 0 < n && LatestReceived(endpoint, i, n - 1, rounds) && Received(endpoint, n - 1, rounds) == ""
    ensures LatestReceived(endpoint, i, n, rounds) && i < n && Received(endpoint, i, rounds) != ""
  {
    hide Received;
  }

  // ---- what the operator and the model are shown, from the blocks alone ----

  function JoinWith(parts: seq<string>, separator: string): string {
    if parts == [] then "" else if |parts| == 1 then parts[0] else parts[0] + separator + JoinWith(parts[1..], separator)
  }

  function NonEmpty(parts: seq<string>): seq<string> {
    if parts == [] then [] else (if parts[0] == "" then [] else [parts[0]]) + NonEmpty(parts[1..])
  }

  // The Markdown of an answer call, white space around it aside; empty when it is no text.
  ghost predicate SaysOf(b: Block, text: string) {
    b.ToolUse? && match b.markdown
                  case None => text == ""
                  case Some(m) =>
                    Trimmed(text) && exists left, right :: (forall c | c in left + right :: IsSpace(c)) && m == left + text + right
  }

  // The answer calls of a reply say the given texts, in order.
  ghost predicate Says(content: seq<Block>, texts: seq<string>) {
    var answers := Answers(content);
    |texts| == |answers| && forall i | 0 <= i < |texts| :: SaysOf(answers[i], texts[i])
  }

  lemma SaysMarkdown(b: Block, text: string)
    requires SaysOf(b, text)
    ensures AnswerMarkdown(b) == text
  {
    if b.markdown.Some? {
      var left, right :| (forall c | c in left + right :: IsSpace(c)) && b.markdown.value == left + text + right;
      StripOfPadded(left, text, right);
    }
  }

  lemma {:induction false} AnswerTextIs(content: seq<Block>, texts: seq<string>)
    requires Says(content, texts)
    ensures AnswerText(content) == JoinWith(NonEmpty(texts), "\n\n")
  {
    hide SaysOf, AnswerMarkdown;
    if content != [] {
      var b, rest := content[0], content[1..];
      if b.ToolUse? && b.name == ANSWER {
        assert Answers(content) == [b] + Answers(rest);
        assert SaysOf(Answers(content)[0], texts[0]);
        SaysMarkdown(b, texts[0]);
        forall i | 0 <= i < |texts[1..]| ensures SaysOf(Answers(rest)[i], texts[1..][i]) {
          assert SaysOf(Answers(content)[i + 1], texts[i + 1]);
        }
        AnswerTextIs(rest, texts[1..]);
        NonEmptyJoin(texts[1..]);
        JoinNext(texts);
      } else {
        AnswerTextIs(rest, texts);
      }
    }
  }

  lemma {:induction false} NonEmptyJoin(texts: seq<string>)
    ensures JoinWith(NonEmpty(texts), "\n\n") == "" <==> NonEmpty(texts) == []
  {
    if texts != [] {
      NonEmptyJoin(texts[1..]);
      var more := NonEmpty(texts[1..]);
      if texts[0] != "" {
        assert NonEmpty(texts) == [texts[0]] + more && ([texts[0]] + more)[1..] == more;
      }
    }
  }

  lemma {:induction false} JoinNext(texts: seq<string>)
    requires texts != []
    ensures var rest := NonEmpty(texts[1..]);
            JoinWith(NonEmpty(texts), "\n\n")
            == if texts[0] == "" then JoinWith(rest, "\n\n") else if rest == [] then texts[0] else texts[0] + "\n\n" + JoinWith(rest, "\n\n")
  {
    var rest := NonEmpty(texts[1..]);
    assert ([texts[0]] + rest)[1..] == rest;
    assert [] + rest == rest;
  }

  lemma {:induction false} AnswersThere(content: seq<Block>)
    ensures HasAnswers(content) <==> Answers(content) != []
  {
    AnswersAre(content);
  }

  lemma {:induction false} AnswersAre(content: seq<Block>)
    ensures Answers(content) == [] <==> forall b | b in content :: !(b.ToolUse? && b.name == ANSWER)
  {
    if content != [] {
      AnswersAre(content[1..]);
      assert content == [content[0]] + content[1..];
    }
  }

  // What is delivered for a text: it, within the cap, a mark exactly when it is not whole, and
  // the note.
  predicate Presents(markdown: string, text: string, cut: bool, note: string) {
    markdown == (if |text| <= 12000 then text else text[..12000])
                + (if cut || |text| > 12000 then CUT_NOTE else "") + note
  }

  // A turn that ends in answers delivers them, a blank line between: a reply without look-ups,
  // one that was not stopped for them, or any on the last round.
  lemma {:induction false} AnswersAreDelivered(endpoint: nat -> Reply, n: nat, rounds: nat, texts: seq<string>)
    requires n > 0 && endpoint(n - 1).Reply? && Answers(endpoint(n - 1).content) != [] && Says(endpoint(n - 1).content, texts)
    requires !HasLookUps(endpoint(n - 1).content) || !endpoint(n - 1).stop.StopToolUse? || n == rounds
    requires NonEmpty(texts) != []
    ensures Delivered(endpoint, n, rounds).Some?
    ensures Presents(Delivered(endpoint, n, rounds).value, JoinWith(NonEmpty(texts), "\n\n"), endpoint(n - 1).stop.StopMaxTokens?, "")
  {
    var r := endpoint(n - 1);
    AnswerTextIs(r.content, texts);
    NonEmptyJoin(texts);
    AnswersThere(r.content);
    hide AnswerText, JoinWith, NonEmpty, Says, Answers;
  }

  predicate AllText(content: seq<Block>, texts: seq<string>) {
    |content| == |texts| && forall i | 0 <= i < |content| :: content[i] == TextBlock(texts[i])
  }

  lemma {:induction false} JoinedTextIs(content: seq<Block>, texts: seq<string>)
    requires AllText(content, texts)
    ensures JoinedText(content) == JoinWith(texts, "")
  {
    if content != [] {
      assert AllText(content[1..], texts[1..]);
      JoinedTextIs(content[1..], texts[1..]);
    }
  }

  // A turn that ends in text blocks alone delivers their texts, one after the other, without the
  // white space around them.
  lemma {:induction false} TextIsDelivered(endpoint: nat -> Reply, n: nat, rounds: nat, texts: seq<string>, left: string, text: string, right: string)
    requires n > 0 && endpoint(n - 1).Reply? && AllText(endpoint(n - 1).content, texts)
    requires JoinWith(texts, "") == left + text + right && text != "" && Trimmed(text) && forall c | c in left + right :: IsSpace(c)
    ensures Delivered(endpoint, n, rounds).Some?
    ensures Presents(Delivered(endpoint, n, rounds).value, text, endpoint(n - 1).stop.StopMaxTokens?, "")
  {
    var r := endpoint(n - 1);
    JoinedTextIs(r.content, texts);
    StripOfPadded(left, text, right);
    assert forall b | b in r.content :: b.TextBlock?;
    hide JoinWith, JoinedText, Strip;
  }

  // Answers beside look-ups are held, and delivered with the note when the round after them fails.
  lemma {:induction false} HeldIsDelivered(endpoint: nat -> Reply, n: nat, rounds: nat, texts: seq<string>)
    requires 1 < n && endpoint(n - 1).Failed? && endpoint(n - 2).Reply?
    requires HasLookUps(endpoint(n - 2).content) && endpoint(n - 2).stop.StopToolUse? && n <= rounds
    requires Says(endpoint(n - 2).content, texts) && NonEmpty(texts) != []
    ensures Delivered(endpoint, n, rounds).Some?
    ensures Presents(Delivered(endpoint, n, rounds).value, JoinWith(NonEmpty(texts), "\n\n"), false, HELD_NOTE)
  {
    AnswerTextIs(endpoint(n - 2).content, texts);
    NonEmptyJoin(texts);
    HeldNow(endpoint, n, rounds);
    hide AnswerText, JoinWith, NonEmpty, Says, Answers;
  }

  lemma {:induction false} HeldNow(endpoint: nat -> Reply, n: nat, rounds: nat)
    requires 1 < n <= rounds && endpoint(n - 1).Failed? && endpoint(n - 2).Reply?
    requires HasLookUps(endpoint(n - 2).content) && endpoint(n - 2).stop.StopToolUse? && AnswerText(endpoint(n - 2).content) != ""
    ensures Held(endpoint, n, rounds) == AnswerText(endpoint(n - 2).content)
  {
    hide AnswerText;
    assert LooksUp(endpoint(n - 2), n - 1 == rounds);
    assert Held(endpoint, n - 1, rounds) == AnswerText(endpoint(n - 2).content);
  }

  // What the next request carries for the i-th call of a round of look-ups: a look-up's own
  // text, whole or up to the cap and marked; the failure text when it raised; and for an
  // answer that it was not shown.
  lemma {:induction false} LookUpIsCarried(uses: seq<Block>, round: nat, execute: (nat, nat) -> ToolOutcome, i: nat)
    requires i < |uses| && forall b | b in uses :: b.ToolUse?
    ensures |LookUpResults(uses, round, execute)| == |uses|
    ensures Carries(LookUpResults(uses, round, execute)[i], uses[i], execute(round, i))
  {
    hide ResultOf, Carries;
    var init := uses[..|uses| - 1];
    assert forall b | b in init :: b in uses;
    LookUpResultCount(uses, round, execute);
    LookUpResultCount(init, round, execute);
    if i < |init| {
      LookUpIsCarried(init, round, execute, i);
    } else {
      assert uses[i] in uses;
      ResultCarries(uses[i], execute(round, i));
    }
  }

  predicate Carries(r: Block, call: Block, outcome: ToolOutcome) {
    r.ToolResult? && call.ToolUse? && r.id == call.id
    && if call.name == ANSWER then r.content == NOT_SHOWN
       else match outcome
            case Raised => r.content == TOOL_FAILED
            case Output(text) =>
              if |text| <= 12000 then r.content == text
              else text[..12000] <= r.content && |r.content| <= 12000 + 100 + |NatText(|text|)|
                   && |r.content| > 12000
  }

  lemma ResultCarries(call: Block, outcome: ToolOutcome)
    requires call.ToolUse?
    ensures Carries(ResultOf(call, outcome), call, outcome)
  {
    hide NatText;
    assert |NOT_SHOWN| <= MAX_TOOL_OUTPUT_CHARS && |TOOL_FAILED| <= MAX_TOOL_OUTPUT_CHARS;
    if outcome.Output? && |outcome.text| > MAX_TOOL_OUTPUT_CHARS {
      NatTextGrows(|outcome.text| - MAX_TOOL_OUTPUT_CHARS, |outcome.text|);
    }
  }

  lemma {:induction false} NatTextGrows(m: nat, n: nat)
    requires m <= n
    ensures |NatText(m)| <= |NatText(n)|
  {
    if n >= 10 && m >= 10 { NatTextGrows(m / 10, n / 10); }
  }

  lemma {:induction false} LookUpResultCount(uses: seq<Block>, round: nat, execute: (nat, nat) -> ToolOutcome)
    requires forall b | b in uses :: b.ToolUse?
    ensures |LookUpResults(uses, round, execute)| == |uses|
  {
    hide ResultOf;
    if uses != [] {
      assert forall b | b in uses[..|uses| - 1] :: b in uses;
      LookUpResultCount(uses[..|uses| - 1], round, execute);
    }
  }

  // What a round with answers received is their texts.
  lemma {:induction false} ReceivedIs(endpoint: nat -> Reply, i: nat, rounds: nat, texts: seq<string>)
    requires endpoint(i).Reply? && Answers(endpoint(i).content) != [] && Says(endpoint(i).content, texts)
    ensures Received(endpoint, i, rounds) == JoinWith(NonEmpty(texts), "\n\n")
  {
    AnswerTextIs(endpoint(i).content, texts);
    AnswersThere(endpoint(i).content);
    hide AnswerText, JoinWith, NonEmpty, Says, Answers, LooksUp;
  }

  // A shorter reply is asked for exactly when the answers of a reply without look-ups are all
  // empty, it was cut at the output limit, a round is left and none was asked for before; each
  // answer call is then told so.
  lemma {:induction false} ShorterAskedExactly(endpoint: nat -> Reply, n: nat, rounds: nat, texts: seq<string>, execute: (nat, nat) -> ToolOutcome)
    requires endpoint(n).Reply? && Answers(endpoint(n).content) != [] && !HasLookUps(endpoint(n).content) && Says(endpoint(n).content, texts)
    ensures GoesOn(endpoint, n, rounds) <==>
            NonEmpty(texts) == [] && endpoint(n).stop.StopMaxTokens? && n + 1 < rounds && !AskedShorter(endpoint, n)
    ensures GoesOn(endpoint, n, rounds) ==>
              var told := FollowUp(endpoint(n), n, rounds, execute);
              |told| == |Answers(endpoint(n).content)|
              && forall i | 0 <= i < |told| :: told[i] == ToolResult(Answers(endpoint(n).content)[i].id, ASK_SHORTER)
  {
    AnswerTextIs(endpoint(n).content, texts);
    NonEmptyJoin(texts);
    AnswersThere(endpoint(n).content);
    hide AnswerText, JoinWith, NonEmpty, Says, Answers, AskedShorter, LookUpResults;
  }
}
