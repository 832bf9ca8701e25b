/** The first stage of `query`: the system prompt and the linear list of
    `(speaker, text)` pairs `all_messages`. */
module Linearise {
  import opened Chat
  import opened PyStr

  /** The self-introduction that both prompt layouts contain. */
  function Identity(agentName: string, roleDesc: string): string {
    "Your name is " + agentName + ".\n\nYour role:" + roleDesc
  }

  /** Python truthiness of the optional `global_prompt`: `None` and `""` are false. */
  predicate HasGlobalPrompt(globalPrompt: Option<string>) {
    globalPrompt.Some? && globalPrompt.value != ""
  }

  function SystemPrompt(agentName: string, roleDesc: string, globalPrompt: Option<string>): string {
    if HasGlobalPrompt(globalPrompt) then
      Strip(globalPrompt.value) + "\n" + BasePrompt + "\n\n" + Identity(agentName, roleDesc)
    else
      Identity(agentName, roleDesc) + "\n\n" + BasePrompt
  }

  /** Whatever the global prompt, the system prompt carries the instruction to
      end every message with the marker and introduces the agent by name; an
      empty global prompt counts as none, and a non-empty one comes first. */
  lemma SystemPromptMentions(agentName: string, roleDesc: string, globalPrompt: Option<string>)
    ensures var p := SystemPrompt(agentName, roleDesc, globalPrompt);
      && (exists a :: OccursAt(BasePrompt, p, a))
      && (exists a :: OccursAt(Identity(agentName, roleDesc), p, a))
      && (HasGlobalPrompt(globalPrompt) ==> OccursAt(Strip(globalPrompt.value), p, 0))
      && SystemPrompt(agentName, roleDesc, Some("")) == SystemPrompt(agentName, roleDesc, None)
  {
    var id := Identity(agentName, roleDesc);
    if HasGlobalPrompt(globalPrompt) {
      var g := Strip(globalPrompt.value);
      FiveParts(g, "\n", BasePrompt, "\n\n", id);
    } else {
      ThreeParts(id, "\n\n", BasePrompt);
      var p := SystemPrompt(agentName, roleDesc, globalPrompt);
      assert p == id + "\n\n" + BasePrompt;
      assert OccursAt(BasePrompt, p, |id| + 2);
    }
  }

  lemma ThreeParts(a: string, b: string, c: string)
    ensures OccursAt(a, a + b + c, 0) && OccursAt(c, a + b + c, |a| + |b|)
  {
    var s := a + b + c;
    assert s[0..|a|] == a;
    assert s[|a| + |b|..|a| + |b| + |c|] == c;
  }

  lemma FiveParts(a: string, b: string, c: string, d: string, e: string)
    ensures var s := a + b + c + d + e;
      OccursAt(a, s, 0) && OccursAt(c, s, |a| + |b|) && OccursAt(e, s, |a| + |b| + |c| + |d|)
  {
    var s := a + b + c + d + e;
    assert s[0..|a|] == a;
    assert s[|a| + |b|..|a| + |b| + |c|] == c;
    assert s[|a| + |b| + |c| + |d|..|s|] == e;
  }

  lemma CancelLeft(pre: string, x: string, y: string)
    requires pre + x == pre + y
    ensures x == y
  {
    assert x == (pre + x)[|pre|..];
  }

  lemma CancelRight(x: string, y: string, post: string)
    requires x + post == y + post
    ensures x == y
  {
    assert x == (x + post)[..|x|];
  }

  lemma IdentityDeterminesRole(agentName: string, d1: string, d2: string)
    requires Identity(agentName, d1) == Identity(agentName, d2)
    ensures d1 == d2
  {
    CancelLeft("Your name is " + agentName + ".\n\nYour role:", d1, d2);
  }

  /** For a fixed agent and global prompt the role description can be read
      back from the system prompt. */
  lemma SystemPromptDeterminesRole(agentName: string, d1: string, d2: string, globalPrompt: Option<string>)
    requires SystemPrompt(agentName, d1, globalPrompt) == SystemPrompt(agentName, d2, globalPrompt)
    ensures d1 == d2
  {
    var id1 := Identity(agentName, d1);
    var id2 := Identity(agentName, d2);
    if HasGlobalPrompt(globalPrompt) {
      CancelLeft(Strip(globalPrompt.value) + "\n" + BasePrompt + "\n\n", id1, id2);
    } else {
      CancelRight(id1 + "\n\n", id2 + "\n\n", BasePrompt);
      CancelRight(id1, id2, "\n\n");
    }
    IdentityDeterminesRole(agentName, d1, d2);
  }

  /** The pair one history message contributes (source lines 95-98). */
  function TurnOf(msg: Message, systemName: string): Turn {
    if msg.agentName == systemName then Turn(systemName, msg.content)
    else Turn(msg.agentName, msg.content + EndOfMessage)
  }

  function HistoryTurns(history: seq<Message>, systemName: string): seq<Turn> {
    if history == [] then []
    else HistoryTurns(history[..|history| - 1], systemName) + [TurnOf(history[|history| - 1], systemName)]
  }

  /** The trailing system directive: the request's content, or the default reminder. */
  function Directive(systemName: string, q: QueryArgs): Turn {
    match q.requestMsg
    case Some(request) => Turn(systemName, request.content)
    case None => Turn(systemName, "You are " + q.agentName + ". " + q.actionPrompt + "." + EndOfMessage)
  }

  /** `all_messages` as `query` builds it. */
  function Linearised(systemName: string, q: QueryArgs): seq<Turn> {
    [Turn(systemName, SystemPrompt(q.agentName, q.roleDesc, q.globalPrompt))]
    + HistoryTurns(q.history, systemName)
    + [Directive(systemName, q)]
  }

  /** History order is kept; every speaker is kept; non-system texts gain the
      end-of-message marker and system texts are unchanged. */
  lemma {:induction false} HistoryTurnsLayout(history: seq<Message>, systemName: string)
    ensures var r := HistoryTurns(history, systemName);
      && |r| == |history|
      && forall k :: 0 <= k < |history| ==>
           && r[k].speaker == history[k].agentName
           && (history[k].agentName == systemName ==> r[k].text == history[k].content)
           && (history[k].agentName != systemName ==> r[k].text == history[k].content + EndOfMessage)
  {
    if history != [] {
      var front := history[..|history| - 1];
      HistoryTurnsLayout(front, systemName);
      forall k | 0 <= k < |front| ensures history[k] == front[k] { }
    }
  }

  /** The shape of `all_messages`: the system prompt first, one pair per
      history message in order, and a system-attributed directive last. */
  lemma LinearisedLayout(systemName: string, q: QueryArgs)
    ensures var r := Linearised(systemName, q);
      && |r| == |q.history| + 2
      && r[0] == Turn(systemName, SystemPrompt(q.agentName, q.roleDesc, q.globalPrompt))
      && (forall k :: 0 <= k < |q.history| ==>
           && r[k + 1].speaker == q.history[k].agentName
           && (q.history[k].agentName == systemName ==> r[k + 1].text == q.history[k].content)
           && (q.history[k].agentName != systemName ==> r[k + 1].text == q.history[k].content + EndOfMessage))
      && r[|r| - 1].speaker == systemName
      && (q.requestMsg.Some? ==> r[|r| - 1].text == q.requestMsg.value.content)
      && (q.requestMsg.None? ==>
           r[|r| - 1].text == "You are " + q.agentName + ". " + q.actionPrompt + "." + EndOfMessage)
  {
    HistoryTurnsLayout(q.history, systemName);
    var h := HistoryTurns(q.history, systemName);
    var r := Linearised(systemName, q);
    forall k | 0 <= k < |q.history| ensures r[k + 1] == h[k] { }
  }

  /** Lines 85-107 of `query`: the system prompt, then the loop appending one
      pair per history message, then the directive. */
  method BuildAllMessages(systemName: string, q: QueryArgs) returns (all: seq<Turn>)
    ensures all == Linearised(systemName, q)
  {
    var systemPrompt := SystemPrompt(q.agentName, q.roleDesc, q.globalPrompt);
    all := [Turn(systemName, systemPrompt)];
    for k := 0 to |q.history|
      invariant all == [Turn(systemName, systemPrompt)] + HistoryTurns(q.history[..k], systemName)
    {
      var msg := q.history[k];
      assert q.history[..k + 1][..k] == q.history[..k];
      if msg.agentName == systemName {
        all := all + [Turn(systemName, msg.content)];
      } else {
        all := all + [Turn(msg.agentName, msg.content + EndOfMessage)];
      }
    }
    assert q.history[..|q.history|] == q.history;
    match q.requestMsg {
      case Some(request) =>
        all := all + [Turn(systemName, request.content)];
      case None =>
        all := all + [Turn(systemName, "You are " + q.agentName + ". " + q.actionPrompt + "." + EndOfMessage)];
    }
  }
}
