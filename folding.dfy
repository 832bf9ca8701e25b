/** The second stage of `query`: folding the `(speaker, text)` pairs into the
    system/user/assistant messages of a chat-completion request. The state the
    loop keys on is the role of the last message emitted so far. */
module Folding {
  import opened Chat
  import opened PyStr

  /** How a pair from anyone but the agent is shown: `"[speaker]: text"`. */
  function Tagged(t: Turn): string {
    "[" + t.speaker + "]: " + t.text
  }

  /** One iteration of the folding loop after the first (source lines 117-129). */
  function Step(msgs: seq<RoleMessage>, t: Turn, agentName: string, merge: bool): (r: seq<RoleMessage>)
    requires |msgs| > 0
    ensures |msgs| <= |r| <= |msgs| + 1
  {
    var n := |msgs|;
    var last := msgs[n - 1];
    if t.speaker == agentName then
      msgs + [RoleMessage(Assistant, t.text)]
    else
      match last.role
      case User =>
        if merge then msgs[n - 1 := RoleMessage(User, last.content + "\n\n" + Tagged(t))]
        else msgs + [RoleMessage(User, Tagged(t))]
      case Assistant =>
        msgs[n - 1 := RoleMessage(Assistant, last.content + "\n" + t.text)]
      case System =>
        msgs + [RoleMessage(User, Tagged(t))]
  }

  /** The messages after folding `ts` into `init`, one `Step` per pair;
      each pair adds at most one message. */
  function Folded(init: seq<RoleMessage>, ts: seq<Turn>, agentName: string, merge: bool): (r: seq<RoleMessage>)
    requires |init| > 0
    ensures |init| <= |r| <= |init| + |ts|
    decreases |ts|
  {
    if ts == [] then init
    else Step(Folded(init, ts[..|ts| - 1], agentName, merge), ts[|ts| - 1], agentName, merge)
  }

  /** The whole loop of lines 111-131: the first pair must come from the system
      and becomes the system message; the rest are folded in. */
  function Fold(all: seq<Turn>, agentName: string, systemName: string, merge: bool): Result<seq<RoleMessage>, FoldError> {
    if all == [] then Ok([])
    else if all[0].speaker != systemName then Err(FirstTurnNotFromSystem)
    else Ok(Folded([RoleMessage(System, all[0].text)], all[1..], agentName, merge))
  }

  /** The body of the loop for every pair after the first (lines 117-129). */
  method FoldPair(messages: seq<RoleMessage>, msg: Turn, agentName: string, merge: bool)
    returns (r: seq<RoleMessage>)
    requires |messages| > 0
    ensures r == Step(messages, msg, agentName, merge)
  {
    var n := |messages|;
    var last := messages[n - 1];
    r := messages;
    if msg.speaker == agentName {
      r := r + [RoleMessage(Assistant, msg.text)];
    } else if last.role == User {
      if merge {
        r := r[n - 1 := RoleMessage(User, last.content + "\n\n" + Tagged(msg))];
      } else {
        r := r + [RoleMessage(User, Tagged(msg))];
      }
    } else if last.role == Assistant {
      r := r[n - 1 := RoleMessage(Assistant, last.content + "\n" + msg.text)];
    } else {
      r := r + [RoleMessage(User, Tagged(msg))];
    }
  }

  /** The folding loop, rewriting the last message in place when it merges. */
  method FoldRoles(all: seq<Turn>, agentName: string, systemName: string, merge: bool)
    returns (r: Result<seq<RoleMessage>, FoldError>)
    ensures r == Fold(all, agentName, systemName, merge)
  {
    var messages: seq<RoleMessage> := [];
    var i := 0;
    while i < |all|
      invariant 0 <= i <= |all|
      invariant i == 0 ==> messages == []
      invariant i > 0 ==> all[0].speaker == systemName
                          && messages == Folded([RoleMessage(System, all[0].text)], all[1..i], agentName, merge)
    {
      var msg := all[i];
      if i == 0 {
        if msg.speaker != systemName {
          return Err(FirstTurnNotFromSystem);
        }
        messages := messages + [RoleMessage(System, msg.text)];
      } else {
        assert all[1..i + 1] == all[1..i] + [msg];
        FoldedSnoc([RoleMessage(System, all[0].text)], all[1..i], msg, agentName, merge);
        messages := FoldPair(messages, msg, agentName, merge);
      }
      i := i + 1;
    }
    if |all| > 0 {
      assert all[1..|all|] == all[1..];
    }
    return Ok(messages);
  }

  // ---------------------------------------------------------------------------
  // One transition per case, stated on the fold of `ts + [t]`

  /** Folding one more pair is one more `Step`. */
  lemma FoldedSnoc(init: seq<RoleMessage>, ts: seq<Turn>, t: Turn, agentName: string, merge: bool)
    requires |init| > 0
    ensures Folded(init, ts + [t], agentName, merge) == Step(Folded(init, ts, agentName, merge), t, agentName, merge)
  {
    assert (ts + [t])[..|ts|] == ts;
  }

  /** A pair from the agent always opens a new assistant message holding its text. */
  lemma FoldAgentTurn(init: seq<RoleMessage>, ts: seq<Turn>, t: Turn, agentName: string, merge: bool)
    requires |init| > 0 && t.speaker == agentName
    ensures Folded(init, ts + [t], agentName, merge)
            == Folded(init, ts, agentName, merge) + [RoleMessage(Assistant, t.text)]
  {
    FoldedSnoc(init, ts, t, agentName, merge);
  }

  /** After a user message, another speaker's pair is merged into it with its
      tag when the merge flag is set, and is a new tagged user message otherwise. */
  lemma FoldAfterUser(init: seq<RoleMessage>, ts: seq<Turn>, t: Turn, agentName: string, merge: bool)
    requires |init| > 0 && t.speaker != agentName
    requires var prev := Folded(init, ts, agentName, merge); prev[|prev| - 1].role == User
    ensures var prev := Folded(init, ts, agentName, merge);
            var r := Folded(init, ts + [t], agentName, merge);
            var n := |prev|;
            && (merge ==>
                  |r| == n && r[..n - 1] == prev[..n - 1]
                  && r[n - 1] == RoleMessage(User, prev[n - 1].content + "\n\n[" + t.speaker + "]: " + t.text))
            && (!merge ==> r == prev + [RoleMessage(User, "[" + t.speaker + "]: " + t.text)])
  {
    FoldedSnoc(init, ts, t, agentName, merge);
  }

  /** After an assistant message, another speaker's pair (the system's included)
      is appended to it after a newline, untagged, whatever the merge flag. */
  lemma FoldAfterAssistant(init: seq<RoleMessage>, ts: seq<Turn>, t: Turn, agentName: string, merge: bool)
    requires |init| > 0 && t.speaker != agentName
    requires var prev := Folded(init, ts, agentName, merge); prev[|prev| - 1].role == Assistant
    ensures var prev := Folded(init, ts, agentName, merge);
            var r := Folded(init, ts + [t], agentName, merge);
            var n := |prev|;
            |r| == n && r[..n - 1] == prev[..n - 1]
            && r[n - 1] == RoleMessage(Assistant, prev[n - 1].content + "\n" + t.text)
  {
    FoldedSnoc(init, ts, t, agentName, merge);
  }

  /** Right after the system message, another speaker's pair is a new tagged user message. */
  lemma FoldAfterSystem(init: seq<RoleMessage>, ts: seq<Turn>, t: Turn, agentName: string, merge: bool)
    requires |init| > 0 && t.speaker != agentName
    requires var prev := Folded(init, ts, agentName, merge); prev[|prev| - 1].role == System
    ensures Folded(init, ts + [t], agentName, merge)
            == Folded(init, ts, agentName, merge) + [RoleMessage(User, "[" + t.speaker + "]: " + t.text)]
  {
    FoldedSnoc(init, ts, t, agentName, merge);
  }

  // ---------------------------------------------------------------------------
  // Invariants of the whole fold

  /** Starting from a single system message, it stays first and no later
      message has the system role. */
  lemma {:induction false} FoldedKeepsSystemHead(c: string, ts: seq<Turn>, agentName: string, merge: bool)
    ensures var r := Folded([RoleMessage(System, c)], ts, agentName, merge);
            r[0] == RoleMessage(System, c) && forall k :: 1 <= k < |r| ==> r[k].role != System
  {
    if ts != [] {
      var prev := Folded([RoleMessage(System, c)], ts[..|ts| - 1], agentName, merge);
      FoldedKeepsSystemHead(c, ts[..|ts| - 1], agentName, merge);
      if |prev| == 1 {
        assert prev[0].role == System;
      }
    }
  }

  /** `post` grows `pre`: no message is removed or changes role, and each
      content is at most extended at its end. */
  predicate Extends(pre: seq<RoleMessage>, post: seq<RoleMessage>) {
    |pre| <= |post|
    && forall j :: 0 <= j < |pre| ==> post[j].role == pre[j].role && pre[j].content <= post[j].content
  }

  lemma StepExtends(msgs: seq<RoleMessage>, t: Turn, agentName: string, merge: bool)
    requires |msgs| > 0
    ensures Extends(msgs, Step(msgs, t, agentName, merge))
    ensures Step(msgs, t, agentName, merge)[..|msgs| - 1] == msgs[..|msgs| - 1]
  {
    var r := Step(msgs, t, agentName, merge);
    var n := |msgs|;
    forall j | 0 <= j < n ensures r[j].role == msgs[j].role && msgs[j].content <= r[j].content {
      if j == n - 1 {
        var last := msgs[n - 1];
        if t.speaker != agentName && last.role == User && merge {
          assert r[j].content == last.content + ("\n\n" + Tagged(t));
        } else if t.speaker != agentName && last.role == Assistant {
          assert r[j].content == last.content + ("\n" + t.text);
        }
      }
    }
  }

  /** Folding only ever appends: every intermediate state of the loop is
      extended by the final one (the in-place rewrites only add text at the end). */
  lemma {:induction false} FoldOnlyAppends(init: seq<RoleMessage>, ts: seq<Turn>, i: nat, agentName: string, merge: bool)
    requires |init| > 0 && i <= |ts|
    ensures Extends(Folded(init, ts[..i], agentName, merge), Folded(init, ts, agentName, merge))
  {
    var mid := Folded(init, ts[..i], agentName, merge);
    if i == |ts| {
      assert ts[..i] == ts;
    } else {
      var front := ts[..|ts| - 1];
      assert ts[..i] == front[..i];
      FoldOnlyAppends(init, front, i, agentName, merge);
      var prev := Folded(init, front, agentName, merge);
      StepExtends(prev, ts[|ts| - 1], agentName, merge);
    }
  }

  /** The text of the pair just folded in ends the last message. */
  lemma StepEndsWithText(msgs: seq<RoleMessage>, t: Turn, agentName: string, merge: bool)
    requires |msgs| > 0
    ensures var r := Step(msgs, t, agentName, merge);
            var c := r[|r| - 1].content;
            |t.text| <= |c| && c[|c| - |t.text|..] == t.text
  {
    var r := Step(msgs, t, agentName, merge);
    var last := msgs[|msgs| - 1];
    var c := r[|r| - 1].content;
    if t.speaker == agentName {
    } else if last.role == User && merge {
      assert c == (last.content + "\n\n[" + t.speaker + "]: ") + t.text;
    } else if last.role == Assistant {
      assert c == (last.content + "\n") + t.text;
    } else {
      assert c == ("[" + t.speaker + "]: ") + t.text;
    }
  }

  lemma OccursInExtension(sub: string, pre: string, post: string, a: nat)
    requires OccursAt(sub, pre, a) && pre <= post
    ensures OccursAt(sub, post, a)
  {
    assert post[a..a + |sub|] == pre[a..a + |sub|];
  }

  /** `sub` occurs in the content of one of `msgs`. */
  ghost predicate Said(sub: string, msgs: seq<RoleMessage>) {
    exists j, a :: 0 <= j < |msgs| && OccursAt(sub, msgs[j].content, a)
  }

  lemma SaidKeptByExtension(sub: string, pre: seq<RoleMessage>, post: seq<RoleMessage>)
    requires Said(sub, pre) && Extends(pre, post)
    ensures Said(sub, post)
  {
    var j, a :| 0 <= j < |pre| && OccursAt(sub, pre[j].content, a);
    OccursInExtension(sub, pre[j].content, post[j].content, a);
  }

  /** Nothing said is lost: the text of every folded pair occurs in some message. */
  lemma {:induction false} FoldKeepsEveryText(init: seq<RoleMessage>, ts: seq<Turn>, agentName: string, merge: bool)
    requires |init| > 0
    ensures forall k :: 0 <= k < |ts| ==> Said(ts[k].text, Folded(init, ts, agentName, merge))
  {
    if ts != [] {
      var front := ts[..|ts| - 1];
      var t := ts[|ts| - 1];
      var prev := Folded(init, front, agentName, merge);
      var r := Folded(init, ts, agentName, merge);
      FoldKeepsEveryText(init, front, agentName, merge);
      StepExtends(prev, t, agentName, merge);
      StepEndsWithText(prev, t, agentName, merge);
      forall k | 0 <= k < |ts| ensures Said(ts[k].text, r) {
        if k == |ts| - 1 {
          var c := r[|r| - 1].content;
          assert OccursAt(t.text, c, |c| - |t.text|);
        } else {
          assert ts[k] == front[k];
          SaidKeptByExtension(ts[k].text, prev, r);
        }
      }
    }
  }

  // ---------------------------------------------------------------------------
  // Counting assistant messages

  function CountRole(msgs: seq<RoleMessage>, role: Role): nat {
    if msgs == [] then 0
    else CountRole(msgs[..|msgs| - 1], role) + (if msgs[|msgs| - 1].role == role then 1 else 0)
  }

  function CountSpeaker(ts: seq<Turn>, speaker: string): nat {
    if ts == [] then 0
    else CountSpeaker(ts[..|ts| - 1], speaker) + (if ts[|ts| - 1].speaker == speaker then 1 else 0)
  }

  lemma CountRoleUpdateLast(msgs: seq<RoleMessage>, m: RoleMessage, role: Role)
    requires |msgs| > 0 && m.role == msgs[|msgs| - 1].role
    ensures CountRole(msgs[|msgs| - 1 := m], role) == CountRole(msgs, role)
  {
    assert msgs[|msgs| - 1 := m][..|msgs| - 1] == msgs[..|msgs| - 1];
  }

  /** Agent pairs are never merged: each adds exactly one assistant message and
      no other pair adds one. */
  lemma {:induction false} AssistantCountMatchesAgentTurns(init: seq<RoleMessage>, ts: seq<Turn>, agentName: string, merge: bool)
    requires |init| > 0
    ensures CountRole(Folded(init, ts, agentName, merge), Assistant)
            == CountRole(init, Assistant) + CountSpeaker(ts, agentName)
  {
    if ts != [] {
      var front := ts[..|ts| - 1];
      var t := ts[|ts| - 1];
      var prev := Folded(init, front, agentName, merge);
      AssistantCountMatchesAgentTurns(init, front, agentName, merge);
      var n := |prev|;
      var last := prev[n - 1];
      if t.speaker == agentName {
        assert (prev + [RoleMessage(Assistant, t.text)])[..n] == prev;
      } else if last.role == User && merge {
        CountRoleUpdateLast(prev, RoleMessage(User, last.content + "\n\n" + Tagged(t)), Assistant);
      } else if last.role == Assistant {
        CountRoleUpdateLast(prev, RoleMessage(Assistant, last.content + "\n" + t.text), Assistant);
      } else {
        assert (prev + [RoleMessage(User, Tagged(t))])[..n] == prev;
      }
    }
  }

  /** The agent's own pairs are never merged with each other: a run of them
      adds one assistant message each, in order, whatever the merge flag. */
  lemma {:induction false} AgentTurnsStaySeparate(init: seq<RoleMessage>, ts: seq<Turn>, agentName: string, merge: bool)
    requires |init| > 0
    requires forall k :: 0 <= k < |ts| ==> ts[k].speaker == agentName
    ensures var r := Folded(init, ts, agentName, merge);
            && |r| == |init| + |ts| && r[..|init|] == init
            && forall k :: 0 <= k < |ts| ==> r[|init| + k] == RoleMessage(Assistant, ts[k].text)
  {
    if ts != [] {
      var front := ts[..|ts| - 1];
      AgentTurnsStaySeparate(init, front, agentName, merge);
      var prev := Folded(init, front, agentName, merge);
      var r := Folded(init, ts, agentName, merge);
      assert r == prev + [RoleMessage(Assistant, ts[|ts| - 1].text)];
      assert r[..|init|] == prev[..|init|];
      forall k | 0 <= k < |ts| ensures r[|init| + k] == RoleMessage(Assistant, ts[k].text) {
        if k < |front| { assert ts[k] == front[k]; }
      }
    }
  }

  // ---------------------------------------------------------------------------
  // The merge flag, for pairs from other speakers only

  /** The other speakers' tagged texts joined by blank lines. */
  function MergedOthers(ts: seq<Turn>): string
    requires |ts| > 0
  {
    if |ts| == 1 then Tagged(ts[0])
    else MergedOthers(ts[..|ts| - 1]) + "\n\n" + Tagged(ts[|ts| - 1])
  }

  /** With the merge flag, a run of other speakers' pairs after the system
      message becomes one user message whose tagged parts are separated by
      blank lines. */
  lemma {:induction false} OthersMergeIntoOneUser(c: string, ts: seq<Turn>, agentName: string)
    requires |ts| > 0
    requires forall k :: 0 <= k < |ts| ==> ts[k].speaker != agentName
    ensures Folded([RoleMessage(System, c)], ts, agentName, true)
            == [RoleMessage(System, c), RoleMessage(User, MergedOthers(ts))]
  {
    if |ts| > 1 {
      var front := ts[..|ts| - 1];
      OthersMergeIntoOneUser(c, front, agentName);
      assert front[..|front| - 1] == ts[..|ts| - 2];
    }
  }

  /** Without the merge flag, each such pair is a user message of its own, in order. */
  lemma {:induction false} OthersStaySeparate(c: string, ts: seq<Turn>, agentName: string)
    requires forall k :: 0 <= k < |ts| ==> ts[k].speaker != agentName
    ensures var r := Folded([RoleMessage(System, c)], ts, agentName, false);
            && |r| == |ts| + 1 && r[0] == RoleMessage(System, c)
            && forall k :: 0 <= k < |ts| ==> r[k + 1] == RoleMessage(User, "[" + ts[k].speaker + "]: " + ts[k].text)
  {
    if ts != [] {
      var front := ts[..|ts| - 1];
      OthersStaySeparate(c, front, agentName);
      var prev := Folded([RoleMessage(System, c)], front, agentName, false);
      var r := Folded([RoleMessage(System, c)], ts, agentName, false);
      assert r == prev + [RoleMessage(User, Tagged(ts[|ts| - 1]))];
      forall k | 0 <= k < |ts| ensures r[k + 1] == RoleMessage(User, "[" + ts[k].speaker + "]: " + ts[k].text) {
        if k < |front| { assert ts[k] == front[k]; }
      }
    }
  }

  /** With the merge flag there is at most one user message, right after the
      system message: once the agent has spoken, every later pair from another
      speaker is appended, untagged, to an assistant message. */
  lemma {:induction false} MergingLeavesOneUserMessage(c: string, ts: seq<Turn>, agentName: string)
    ensures var r := Folded([RoleMessage(System, c)], ts, agentName, true);
            forall k :: 0 <= k < |r| && r[k].role == User ==> k == 1
  {
    if ts != [] {
      var front := ts[..|ts| - 1];
      var prev := Folded([RoleMessage(System, c)], front, agentName, true);
      MergingLeavesOneUserMessage(c, front, agentName);
      FoldedKeepsSystemHead(c, front, agentName, true);
    }
  }
}
