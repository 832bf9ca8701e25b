/** The last stage of `query`: cleaning the completion text with three anchored
    regular-expression substitutions, each followed by `strip()`. Each pattern
    is modelled by a function, and a lemma shows it removes exactly the span
    the regular expression matches (leftmost, with greedy quantifiers) and
    nothing when the pattern does not match. */
module Sanitization {
  import opened Chat
  import opened PyStr

  predicate NoNewline(s: string) {
    forall k :: 0 <= k < |s| ==> s[k] != '\n'
  }

  // ---------------------------------------------------------------------------
  // `^\s*\[.*]:` -- a bracketed speaker tag after the leading whitespace

  /** `^\s*\[.*]:` matches `s[..e]` with the `[` at `i`: whitespace before it,
      `.` (anything but a newline) up to a `]:` that ends at `e`. */
  ghost predicate BracketEchoAt(s: string, i: nat, e: nat) {
    && i < |s| && AllSpace(s[..i]) && s[i] == '['
    && i + 3 <= e <= |s| && s[e - 2] == ']' && s[e - 1] == ':'
    && NoNewline(s[i + 1..e - 2])
  }

  /** The first newline at or after `from`, or the end of `s`. */
  function LineEnd(s: string, from: nat): (n: nat)
    requires from <= |s|
    ensures from <= n <= |s| && NoNewline(s[from..n]) && (n < |s| ==> s[n] == '\n')
    decreases |s| - from
  {
    if from == |s| || s[from] == '\n' then from
    else
      var n := LineEnd(s, from + 1);
      assert s[from..n] == [s[from]] + s[from + 1..n];
      n
  }

  predicate PairEndsAt(s: string, e: nat) {
    2 <= e <= |s| && s[e - 2] == ']' && s[e - 1] == ':'
  }

  /** The largest `e` in `lo..hi` at which a `]:` ends, searching down from `hi`. */
  function LastPairEnd(s: string, lo: nat, hi: nat): (r: Option<nat>)
    requires hi <= |s|
    ensures r.Some? ==> lo <= r.value <= hi && PairEndsAt(s, r.value)
                        && forall e :: r.value < e <= hi ==> !PairEndsAt(s, e)
    ensures r.None? ==> forall e :: lo <= e <= hi ==> !PairEndsAt(s, e)
    decreases hi
  {
    if hi < lo || hi < 2 then None
    else if s[hi - 2] == ']' && s[hi - 1] == ':' then Some(hi)
    else LastPairEnd(s, lo, hi - 1)
  }

  /** Where the match of `^\s*\[.*]:` ends, if it matches. */
  function BracketEchoEnd(s: string): Option<nat> {
    var i := LeadingSpace(s);
    if i < |s| && s[i] == '[' then LastPairEnd(s, i + 3, LineEnd(s, i + 1)) else None
  }

  /** Every match has its `[` right after the leading whitespace and ends on
      the line of that `[` (the leading `\s*` may itself cross newlines). */
  lemma BracketEchoBounds(s: string, i: nat, e: nat)
    requires BracketEchoAt(s, i, e)
    ensures i == LeadingSpace(s) && e <= LineEnd(s, i + 1) && PairEndsAt(s, e)
  {
    LeadingSpaceEndsAt(s, i);
    var n := LineEnd(s, i + 1);
    assert forall m :: i + 1 <= m < e ==> s[m] != '\n' by {
      forall m | i + 1 <= m < e ensures s[m] != '\n' {
        if m < e - 2 { assert s[i + 1..e - 2][m - i - 1] == s[m]; }
      }
    }
  }

  /** `BracketEchoEnd` is the regular expression's match: the greedy `.*`
      reaches the last `]:` on the line of the `[`, and no match means none exists. */
  lemma BracketEchoEndIsMatch(s: string)
    ensures BracketEchoEnd(s).Some? ==>
              && BracketEchoAt(s, LeadingSpace(s), BracketEchoEnd(s).value)
              && forall i: nat, e: nat :: BracketEchoAt(s, i, e) ==> e <= BracketEchoEnd(s).value
    ensures BracketEchoEnd(s).None? ==> forall i: nat, e: nat :: !BracketEchoAt(s, i, e)
  {
    var i := LeadingSpace(s);
    forall i': nat, e: nat | BracketEchoAt(s, i', e)
      ensures BracketEchoEnd(s).Some? && e <= BracketEchoEnd(s).value
    {
      BracketEchoBounds(s, i', e);
    }
    if BracketEchoEnd(s).Some? {
      var e := BracketEchoEnd(s).value;
      var n := LineEnd(s, i + 1);
      var seg := s[i + 1..e - 2];
      forall k | 0 <= k < |seg| ensures seg[k] != '\n' {
        assert seg[k] == s[i + 1..n][k];
      }
    }
  }

  function RemoveBracketEcho(s: string): (r: string)
    ensures |r| <= |s|
  {
    match BracketEchoEnd(s)
    case Some(e) => s[e..]
    case None => s
  }

  // ---------------------------------------------------------------------------
  // `^\s*NAME\s*:` -- the agent's own name echoed as a prefix

  /** After position `i`: the name, optional whitespace, then the `:` at `e - 1`. */
  ghost predicate NameEchoTail(s: string, name: string, i: nat, e: nat) {
    && i + |name| < e <= |s| && s[i..i + |name|] == name
    && AllSpace(s[i + |name|..e - 1]) && s[e - 1] == ':'
  }

  /** `^\s*NAME\s*:` matches `s[..e]` with the name starting at `i`. */
  ghost predicate NameEchoAt(s: string, name: string, i: nat, e: nat) {
    NameEchoTail(s, name, i, e) && AllSpace(s[..i])
  }

  /** The end of `NAME\s*:` when the name is placed at `i`. */
  function NameEchoEndAt(s: string, name: string, i: nat): (r: Option<nat>)
    requires i <= |s|
    ensures r.Some? ==> i + |name| < r.value <= |s|
  {
    var j := i + |name|;
    if j <= |s| && s[i..j] == name then
      var m := j + LeadingSpace(s[j..]);
      if m < |s| && s[m] == ':' then Some(m + 1) else None
    else None
  }

  /** For a fixed name start, the greedy `\s*` leaves one possible end. */
  lemma NameEchoEndAtIsMatch(s: string, name: string, i: nat)
    requires i <= |s|
    ensures NameEchoEndAt(s, name, i).Some? ==> NameEchoTail(s, name, i, NameEchoEndAt(s, name, i).value)
    ensures forall e: nat :: NameEchoTail(s, name, i, e) ==> NameEchoEndAt(s, name, i) == Some(e)
  {
    var j := i + |name|;
    if NameEchoEndAt(s, name, i).Some? {
      var t := s[j..];
      var m := j + LeadingSpace(t);
      assert s[j..m] == t[..LeadingSpace(t)];
    }
    forall e: nat | NameEchoTail(s, name, i, e) ensures NameEchoEndAt(s, name, i) == Some(e) {
      NameEchoTailEnd(s, name, i, e);
    }
  }

  lemma NameEchoTailEnd(s: string, name: string, i: nat, e: nat)
    requires NameEchoTail(s, name, i, e)
    ensures NameEchoEndAt(s, name, i) == Some(e)
  {
    var j := i + |name|;
    var t := s[j..];
    assert t[..e - 1 - j] == s[j..e - 1];
    LeadingSpaceEndsAt(t, e - 1 - j);
  }

  /** The engine's backtracking order: the leading `\s*` first takes all the
      whitespace up to `i`, then gives it back one character at a time; the
      first start that works is the largest one. */
  function NameEchoSearch(s: string, name: string, i: nat): (r: Option<(nat, nat)>)
    requires i <= |s|
    ensures r.Some? ==> r.value.0 <= i && NameEchoEndAt(s, name, r.value.0) == Some(r.value.1)
                        && forall j :: r.value.0 < j <= i ==> NameEchoEndAt(s, name, j).None?
    ensures r.None? ==> forall j :: 0 <= j <= i ==> NameEchoEndAt(s, name, j).None?
    decreases i
  {
    match NameEchoEndAt(s, name, i)
    case Some(e) => Some((i, e))
    case None => if i == 0 then None else NameEchoSearch(s, name, i - 1)
  }

  function NameEcho(s: string, name: string): (r: Option<(nat, nat)>)
    ensures r.Some? ==> r.value.1 <= |s|
  {
    NameEchoSearch(s, name, LeadingSpace(s))
  }

  /** `NameEcho` is the regular expression's match: the name starts as late in
      the leading whitespace as possible, and no match means none exists. */
  lemma NameEchoIsMatch(s: string, name: string)
    ensures var r := NameEcho(s, name);
      && (r.Some? ==> NameEchoAt(s, name, r.value.0, r.value.1)
                      && forall i: nat, e: nat :: NameEchoAt(s, name, i, e) ==>
                           i <= r.value.0 && (i == r.value.0 ==> e == r.value.1))
      && (r.None? ==> forall i: nat, e: nat :: !NameEchoAt(s, name, i, e))
  {
    var r := NameEcho(s, name);
    var lead := LeadingSpace(s);
    forall i: nat, e: nat | NameEchoAt(s, name, i, e)
      ensures i <= lead && NameEchoEndAt(s, name, i) == Some(e)
    {
      LeadingSpaceIsLongest(s, i);
      NameEchoEndAtIsMatch(s, name, i);
    }
    if r.Some? {
      NameEchoEndAtIsMatch(s, name, r.value.0);
      AllSpaceShorter(s, r.value.0, lead);
    }
  }

  function RemoveNameEcho(s: string, name: string): (r: string)
    ensures |r| <= |s|
  {
    match NameEcho(s, name)
    case Some((_, e)) => s[e..]
    case None => s
  }

  /** Without a colon there is nothing to remove, whatever the name. */
  lemma NoColonNoNameEcho(s: string, name: string)
    requires forall k :: 0 <= k < |s| ==> s[k] != ':'
    ensures NameEcho(s, name).None?
  {
    NameEchoIsMatch(s, name);
  }

  // ---------------------------------------------------------------------------
  // `<EOS>$` -- one trailing end-of-message marker

  /** `re.sub(marker + "$", "", s)` for a literal marker: `$` matches at the
      very end and just before a final newline. */
  function RemoveTrailing(s: string, marker: string): (r: string)
    ensures |r| <= |s|
  {
    var n := |marker|;
    if |s| >= n && s[|s| - n..] == marker then s[..|s| - n]
    else if |s| >= n + 1 && s[|s| - (n + 1)..] == marker + "\n" then s[..|s| - (n + 1)] + "\n"
    else s
  }

  function RemoveEndOfMessage(s: string): (r: string)
    ensures |r| <= |s|
  {
    RemoveTrailing(s, EndOfMessage)
  }

  /** `marker$` matches at `i`: the marker at `i`, then the end of the string or
      a final newline. */
  ghost predicate TrailingAt(s: string, marker: string, i: nat) {
    var n := |marker|;
    && i + n <= |s| && s[i..i + n] == marker
    && (i + n == |s| || (i + n + 1 == |s| && s[|s| - 1] == '\n'))
  }

  /** For a marker that does not end in a newline, `RemoveTrailing` is the
      substitution: it cuts out the matched marker when the pattern matches and
      returns `s` unchanged when it does not. */
  lemma RemoveTrailingIsMatch(s: string, marker: string)
    requires |marker| > 0 && marker[|marker| - 1] != '\n'
    ensures forall i: nat :: TrailingAt(s, marker, i) ==> RemoveTrailing(s, marker) == s[..i] + s[i + |marker|..]
    ensures (forall i: nat :: !TrailingAt(s, marker, i)) ==> RemoveTrailing(s, marker) == s
  {
    forall i: nat | TrailingAt(s, marker, i)
      ensures RemoveTrailing(s, marker) == s[..i] + s[i + |marker|..]
    {
      RemoveTrailingMatch(s, marker, i);
    }
    if RemoveTrailing(s, marker) != s {
      RemoveTrailingChanged(s, marker);
    }
  }

  lemma RemoveTrailingMatch(s: string, marker: string, i: nat)
    requires |marker| > 0 && marker[|marker| - 1] != '\n'
    requires TrailingAt(s, marker, i)
    ensures RemoveTrailing(s, marker) == s[..i] + s[i + |marker|..]
  {
    var n := |marker|;
    if i + n + 1 == |s| {
      assert s[|s| - n..][n - 1] == s[|s| - 1];
      assert s[i..] == s[i..i + n] + [s[|s| - 1]];
    }
  }

  lemma RemoveTrailingChanged(s: string, marker: string)
    requires RemoveTrailing(s, marker) != s
    ensures exists i: nat :: TrailingAt(s, marker, i)
  {
    var n := |marker|;
    if |s| >= n && s[|s| - n..] == marker {
      assert TrailingAt(s, marker, |s| - n);
    } else {
      assert s[|s| - (n + 1)..|s| - 1] == s[|s| - (n + 1)..][..n];
      assert TrailingAt(s, marker, |s| - (n + 1));
    }
  }

  /** `RemoveEndOfMessage` removes exactly the span `<EOS>$` matches, and
      nothing when it does not match. */
  lemma RemoveEndOfMessageIsMatch(s: string)
    ensures forall i: nat :: TrailingAt(s, EndOfMessage, i) ==> RemoveEndOfMessage(s) == s[..i] + s[i + 5..]
    ensures (forall i: nat :: !TrailingAt(s, EndOfMessage, i)) ==> RemoveEndOfMessage(s) == s
  {
    assert |EndOfMessage| == 5 && EndOfMessage[4] == '>';
    RemoveTrailingIsMatch(s, EndOfMessage);
  }

  /** Exactly one marker is removed, at the end or before a final newline. */
  lemma RemoveEndOfMessageCases(t: string)
    ensures RemoveEndOfMessage(t + EndOfMessage) == t
    ensures RemoveEndOfMessage(t + EndOfMessage + "\n") == t + "\n"
  {
    var u := t + EndOfMessage + "\n";
    assert u[|u| - 5..] != EndOfMessage by { assert u[|u| - 1] == '\n'; }
  }

  // ---------------------------------------------------------------------------
  // The chain of lines 137-141

  function Sanitize(response: string, agentName: string): (r: string)
    ensures IsStripped(r) && |r| <= |response|
  {
    var a := Strip(RemoveBracketEcho(response));
    var b := Strip(RemoveNameEcho(a, agentName));
    Strip(RemoveEndOfMessage(b))
  }

  /** `Sanitize` as its three stages, for proofs that compute them one at a time. */
  lemma SanitizeStages(response: string, agentName: string, a: string, b: string)
    requires Strip(RemoveBracketEcho(response)) == a
    requires Strip(RemoveNameEcho(a, agentName)) == b
    ensures Sanitize(response, agentName) == Strip(RemoveEndOfMessage(b))
  {
  }

  /** Stripping "  text<EOS>" where the text is already stripped. */
  lemma StripBeforeMarkedText(body: string)
    requires IsStripped(body)
    ensures Strip(" " + (body + EndOfMessage)) == body + EndOfMessage
  {
    var a := body + EndOfMessage;
    var rest := " " + a;
    assert a[|a| - 1] == '>';
    if body != [] { assert a[0] == body[0]; } else { assert a[0] == '<'; }
    assert rest[1..|rest|] == a;
    assert AllSpace(rest[..1]);
    StripUnique(rest, 1, |rest|);
  }

  /** The first substitution removes the tag, up to and including its `]:`. */
  lemma TagRemoved(speaker: string, body: string)
    requires NoNewline(speaker)
    requires forall k :: 0 <= k < |body| ==> body[k] != ':'
    ensures RemoveBracketEcho("[" + speaker + "]: " + body + EndOfMessage) == " " + (body + EndOfMessage)
  {
    var s := "[" + speaker + "]: " + body + EndOfMessage;
    var e := |speaker| + 3;
    var rest := " " + (body + EndOfMessage);
    assert s == "[" + speaker + "]:" + rest;
    assert s[e..] == rest;
    forall k | e <= k < |s| ensures s[k] != ':' {
      assert s[k] == rest[k - e];
    }
    assert s[1..e - 2] == speaker;
    assert BracketEchoAt(s, 0, e);
    BracketEchoEndIsMatch(s);
  }

  /** A reply in the instructed form "[speaker]: text<EOS>" comes back as its text. */
  lemma SanitizeWellFormedReply(speaker: string, body: string, agentName: string)
    requires NoNewline(speaker)
    requires IsStripped(body) && forall k :: 0 <= k < |body| ==> body[k] != ':'
    ensures Sanitize("[" + speaker + "]: " + body + EndOfMessage, agentName) == body
  {
    var s := "[" + speaker + "]: " + body + EndOfMessage;
    var a := body + EndOfMessage;
    TagRemoved(speaker, body);
    StripBeforeMarkedText(body);
    MarkedTextHasNoNameEcho(body, agentName);
    RemoveEndOfMessageCases(body);
    StripKeepsStripped(body);
    SanitizeStages(s, agentName, a, a);
  }

  lemma MarkedTextHasNoNameEcho(body: string, agentName: string)
    requires IsStripped(body) && forall k :: 0 <= k < |body| ==> body[k] != ':'
    ensures Strip(RemoveNameEcho(body + EndOfMessage, agentName)) == body + EndOfMessage
  {
    var a := body + EndOfMessage;
    NoColonNoNameEcho(a, agentName);
    assert a[|a| - 1] == '>';
    if body != [] { assert a[0] == body[0]; } else { assert a[0] == '<'; }
    StripKeepsStripped(a);
  }

  /** Without a colon in the reply, only the marker and the whitespace go. */
  lemma SanitizeColonFree(s: string, agentName: string)
    requires forall k :: 0 <= k < |s| ==> s[k] != ':'
    ensures Sanitize(s, agentName) == Strip(RemoveEndOfMessage(Strip(s)))
  {
    BracketEchoEndIsMatch(s);
    var a := Strip(s);
    assert RemoveBracketEcho(s) == s;
    NoColonInStrip(s);
    NoColonNoNameEcho(a, agentName);
    StripIdempotent(s);
    SanitizeStages(s, agentName, a, a);
  }

  lemma NoColonInStrip(s: string)
    requires forall k :: 0 <= k < |s| ==> s[k] != ':'
    ensures forall k :: 0 <= k < |Strip(s)| ==> Strip(s)[k] != ':'
  {
    var a := LeadingSpace(s);
    var t := s[a..];
    assert Strip(s) == t[..|t| - TrailingSpace(t)];
  }

  /** A stripped reply without a colon and without the marker is returned as it is. */
  lemma SanitizeKeepsPlainReply(s: string, agentName: string)
    requires IsStripped(s) && forall k :: 0 <= k < |s| ==> s[k] != ':'
    requires !(|s| >= 5 && s[|s| - 5..] == EndOfMessage)
    ensures Sanitize(s, agentName) == s
  {
    SanitizeColonFree(s, agentName);
    StripKeepsStripped(s);
    NoMarkerNothingRemoved(s);
  }

  lemma NoMarkerNothingRemoved(s: string)
    requires IsStripped(s)
    requires !(|s| >= 5 && s[|s| - 5..] == EndOfMessage)
    ensures RemoveEndOfMessage(s) == s
  {
    if |s| >= 6 {
      assert s[|s| - 6..][5] == s[|s| - 1];
    }
  }

  /** Only one marker goes per pass, so cleaning is not idempotent: a reply
      ending in two markers keeps one after the first pass and loses it on the second. */
  lemma SanitizeNotIdempotent(x: string, agentName: string)
    requires IsStripped(x) && forall k :: 0 <= k < |x| ==> x[k] != ':'
    ensures Sanitize(x + EndOfMessage + EndOfMessage, agentName) == x + EndOfMessage
    ensures Sanitize(Sanitize(x + EndOfMessage + EndOfMessage, agentName), agentName) == x
    ensures Sanitize(Sanitize(x + EndOfMessage + EndOfMessage, agentName), agentName)
            != Sanitize(x + EndOfMessage + EndOfMessage, agentName)
  {
    if x == [] {
      assert x + EndOfMessage == EndOfMessage;
      assert IsStripped(EndOfMessage) by { assert EndOfMessage[0] == '<'; }
    } else {
      MarkedTextStaysPlain(x);
    }
    SanitizeDropsOneMarker(x + EndOfMessage, agentName);
    SanitizeDropsOneMarker(x, agentName);
  }

  /** A stripped, colon-free text followed by one marker sanitises to the text. */
  lemma SanitizeDropsOneMarker(x: string, agentName: string)
    requires IsStripped(x) && forall k :: 0 <= k < |x| ==> x[k] != ':'
    ensures Sanitize(x + EndOfMessage, agentName) == x
  {
    if x == [] {
      assert x + EndOfMessage == EndOfMessage;
      SanitizeBareMarker(agentName);
      return;
    }
    var once := x + EndOfMessage;
    MarkedTextStaysPlain(x);
    SanitizeColonFree(once, agentName);
    StripKeepsStripped(once);
    RemoveEndOfMessageCases(x);
    StripKeepsStripped(x);
  }

  lemma SanitizeBareMarker(agentName: string)
    ensures Sanitize(EndOfMessage, agentName) == []
  {
    var m := EndOfMessage;
    assert m[0] == '<' && m[|m| - 1] == '>';
    SanitizeColonFree(m, agentName);
    StripKeepsStripped(m);
    assert RemoveEndOfMessage(m) == [] by { assert m[|m| - 5..] == m; }
  }

  lemma MarkedTextStaysPlain(x: string)
    requires x != [] && IsStripped(x) && forall k :: 0 <= k < |x| ==> x[k] != ':'
    ensures IsStripped(x + EndOfMessage)
    ensures forall k :: 0 <= k < |x + EndOfMessage| ==> (x + EndOfMessage)[k] != ':'
  {
    var once := x + EndOfMessage;
    assert once[|once| - 1] == '>' && once[0] == x[0];
    forall k | 0 <= k < |once| ensures once[k] != ':' {
      if k >= |x| { assert once[k] == EndOfMessage[k - |x|]; }
    }
  }
}
