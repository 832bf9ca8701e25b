/** The backend class and its `query`: linearise the history, fold it into
    role messages, ask the model, clean the reply. */
module Backend {
  import opened Chat
  import opened PyStr
  import opened Linearise
  import opened Folding
  import opened Sanitization

  /** The default model of the constructor. */
  const DefaultModel: string := "gemini-pro"

  /** The request `query` sends: the system prompt, then the history and the
      directive folded into role messages. */
  function Transcript(systemName: string, q: QueryArgs, merge: bool): seq<RoleMessage> {
    Folded([RoleMessage(System, SystemPrompt(q.agentName, q.roleDesc, q.globalPrompt))],
           HistoryTurns(q.history, systemName) + [Directive(systemName, q)],
           q.agentName, merge)
  }

  /** The assertion of line 114 never fails: `all_messages` always starts with
      the system's pair, so folding it always succeeds and gives the transcript. */
  lemma FoldOfLinearisedSucceeds(systemName: string, q: QueryArgs, merge: bool)
    ensures Fold(Linearised(systemName, q), q.agentName, systemName, merge)
            == Ok(Transcript(systemName, q, merge))
  {
    var all := Linearised(systemName, q);
    assert all[1..] == HistoryTurns(q.history, systemName) + [Directive(systemName, q)];
  }

  /** The request starts with the system prompt as its only system message,
      has at least one more message, and no more messages than history entries plus two. */
  lemma TranscriptSystemFirst(systemName: string, q: QueryArgs, merge: bool)
    ensures var r := Transcript(systemName, q, merge);
      && 2 <= |r| <= |q.history| + 2
      && r[0] == RoleMessage(System, SystemPrompt(q.agentName, q.roleDesc, q.globalPrompt))
      && forall k :: 1 <= k < |r| ==> r[k].role != System
  {
    var c := SystemPrompt(q.agentName, q.roleDesc, q.globalPrompt);
    var h := HistoryTurns(q.history, systemName);
    var d := Directive(systemName, q);
    HistoryTurnsLayout(q.history, systemName);
    FoldedKeepsSystemHead(c, h + [d], q.agentName, merge);
    FoldedKeepsSystemHead(c, h, q.agentName, merge);
    FoldedSnoc([RoleMessage(System, c)], h, d, q.agentName, merge);
  }

  /** The directive is what the model reads last: the final message ends with its text. */
  lemma TranscriptEndsWithDirective(systemName: string, q: QueryArgs, merge: bool)
    ensures var r := Transcript(systemName, q, merge);
            var c := r[|r| - 1].content;
            var t := Directive(systemName, q).text;
            |t| <= |c| && c[|c| - |t|..] == t
  {
    var init := [RoleMessage(System, SystemPrompt(q.agentName, q.roleDesc, q.globalPrompt))];
    var h := HistoryTurns(q.history, systemName);
    var d := Directive(systemName, q);
    FoldedSnoc(init, h, d, q.agentName, merge);
    StepEndsWithText(Folded(init, h, q.agentName, merge), d, q.agentName, merge);
  }

  /** With no history the request is the system prompt and the directive as a
      single tagged user message (when the agent is not the system itself). */
  lemma EmptyHistoryTranscript(systemName: string, q: QueryArgs, merge: bool)
    requires q.history == [] && q.agentName != systemName
    ensures Transcript(systemName, q, merge)
            == [RoleMessage(System, SystemPrompt(q.agentName, q.roleDesc, q.globalPrompt)),
                RoleMessage(User, "[" + systemName + "]: " + Directive(systemName, q).text)]
  {
    var init := [RoleMessage(System, SystemPrompt(q.agentName, q.roleDesc, q.globalPrompt))];
    FoldedSnoc(init, [], Directive(systemName, q), q.agentName, merge);
  }

  /** Number of history messages written by `name`. */
  function CountAuthored(history: seq<Message>, name: string): nat {
    if history == [] then 0
    else CountAuthored(history[..|history| - 1], name) + (if history[|history| - 1].agentName == name then 1 else 0)
  }

  lemma {:induction false} HistoryTurnsKeepAuthors(history: seq<Message>, systemName: string, name: string)
    ensures CountSpeaker(HistoryTurns(history, systemName), name) == CountAuthored(history, name)
  {
    if history != [] {
      var front := history[..|history| - 1];
      HistoryTurnsKeepAuthors(front, systemName, name);
      var h := HistoryTurns(front, systemName) + [TurnOf(history[|history| - 1], systemName)];
      assert h[..|h| - 1] == HistoryTurns(front, systemName);
    }
  }

  /** Every message of the agent's own becomes one assistant message, merge flag
      or not; the directive adds one more when the agent is the system itself. */
  lemma AssistantMessagesAreTheAgents(systemName: string, q: QueryArgs, merge: bool)
    ensures CountRole(Transcript(systemName, q, merge), Assistant)
            == CountAuthored(q.history, q.agentName) + (if q.agentName == systemName then 1 else 0)
  {
    var init := [RoleMessage(System, SystemPrompt(q.agentName, q.roleDesc, q.globalPrompt))];
    var h := HistoryTurns(q.history, systemName);
    var ts := h + [Directive(systemName, q)];
    AssistantCountMatchesAgentTurns(init, ts, q.agentName, merge);
    assert ts[..|ts| - 1] == h;
    HistoryTurnsKeepAuthors(q.history, systemName, q.agentName);
    assert init[..0] == [];
  }

  lemma SaidPrefix(x: string, y: string, msgs: seq<RoleMessage>)
    requires Said(x + y, msgs)
    ensures Said(x, msgs)
  {
    var j: int, a: nat :| 0 <= j < |msgs| && OccursAt(x + y, msgs[j].content, a);
    var c := msgs[j].content;
    assert c[a..a + |x|] == (x + y)[..|x|];
    assert OccursAt(x, c, a);
  }

  /** Nothing said is dropped: every history message's content and the
      directive occur in the request. */
  lemma TranscriptKeepsEveryUtterance(systemName: string, q: QueryArgs, merge: bool)
    ensures var r := Transcript(systemName, q, merge);
      && (forall k :: 0 <= k < |q.history| ==> Said(q.history[k].content, r))
      && Said(Directive(systemName, q).text, r)
  {
    var r := Transcript(systemName, q, merge);
    var init := [RoleMessage(System, SystemPrompt(q.agentName, q.roleDesc, q.globalPrompt))];
    var h := HistoryTurns(q.history, systemName);
    var ts := h + [Directive(systemName, q)];
    FoldKeepsEveryText(init, ts, q.agentName, merge);
    HistoryTurnsLayout(q.history, systemName);
    assert ts[|ts| - 1] == Directive(systemName, q);
    forall k | 0 <= k < |q.history| ensures Said(q.history[k].content, r) {
      assert ts[k] == h[k];
      if q.history[k].agentName != systemName {
        SaidPrefix(q.history[k].content, EndOfMessage, r);
      }
    }
  }

  /** A call with only the required arguments ends with the default reminder. */
  lemma DefaultDirective(systemName: string, agentName: string, roleDesc: string, history: seq<Message>)
    ensures Directive(systemName, QueryArgs(agentName, roleDesc, history)).text
            == "You are " + agentName + ". Now you speak and act." + EndOfMessage
  {
  }

  /** A completion in the instructed form "[speaker]: text<EOS>" is returned as its text. */
  lemma WellFormedCompletion(speaker: string, body: string, agentName: string)
    requires NoNewline(speaker)
    requires IsStripped(body) && forall k :: 0 <= k < |body| ==> body[k] != ':'
    ensures Sanitize(Strip("[" + speaker + "]: " + body + EndOfMessage), agentName) == body
  {
    var s := "[" + speaker + "]: " + body + EndOfMessage;
    assert s[0] == '[' && s[|s| - 1] == '>';
    StripKeepsStripped(s);
    SanitizeWellFormedReply(speaker, body, agentName);
  }

  /** The chat backend. Its settings are fixed at construction. */
  class AutoChat {
    const model: string
    const mergeOtherAgentAsUser: bool

    constructor(model: string := DefaultModel, mergeOtherAgentsAsOneUser: bool := true)
      ensures this.model == model && this.mergeOtherAgentAsUser == mergeOtherAgentsAsOneUser
    {
      this.model := model;
      this.mergeOtherAgentAsUser := mergeOtherAgentsAsOneUser;
    }

    /** One call of `query`. The chat-completion service is `complete`, given
        the model and the request; its reply is stripped as `_get_response` does. */
    method Query(systemName: string, q: QueryArgs, complete: (string, seq<RoleMessage>) -> string)
      returns (response: string)
      ensures response == Sanitize(Strip(complete(model, Transcript(systemName, q, mergeOtherAgentAsUser))), q.agentName)
      ensures IsStripped(response)
    {
      var all := BuildAllMessages(systemName, q);
      var folded := FoldRoles(all, q.agentName, systemName, mergeOtherAgentAsUser);
      FoldOfLinearisedSucceeds(systemName, q, mergeOtherAgentAsUser);
      var messages := folded.value;
      var raw := Strip(complete(model, messages));
      response := Sanitize(raw, q.agentName);
    }
  }
}
