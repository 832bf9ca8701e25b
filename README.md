# Chat backend `query`: prompt building, role folding and reply cleaning

This project models the core of `AutoChat.query` in `marp/backends/all_litellm.py`. That is the
backend that turns a multi-agent conversation into a chat-completion request and cleans the
model's reply. `query` works in three stages.

1. **Linearisation** (module `Linearise`). It builds the system prompt. A non-empty global prompt
   is stripped and comes first, then the base prompt, then the agent's identity. Without one the
   identity comes first and the base prompt last. It then builds the list `all_messages` of
   `(speaker, text)` pairs:
   - the system prompt;
   - one pair per history message: the system's texts unchanged, every other text with the
     end-of-message marker `<EOS>` appended;
   - a closing directive: the request message's content, or the default
     `"You are NAME. ACTION.<EOS>"` reminder.
   The loop is the method `BuildAllMessages`, proved equal to the function `Linearised`.
2. **Role folding** (module `Folding`). The pairs are folded into system, user and assistant
   messages. The first pair must come from the system. The agent's own pairs become assistant
   messages. How another speaker's pair is added depends on the role of the last message so far:
   - after a user message it is tagged `"[speaker]: text"` and merged into that message when the
     merge flag is set, and becomes a new tagged user message otherwise;
   - after an assistant message its text is appended to that message untagged;
   - after the system message it becomes a new tagged user message.
   The loop is the method `FoldRoles`, proved equal to the function `Fold`. It is a left fold of
   `Step`, and each case has its own transition lemma.
3. **Sanitisation** (module `Sanitization`). The reply goes through three anchored
   regular-expression substitutions, each followed by `strip()`:
   - a leading `[tag]:` is removed;
   - a leading `NAME:` holding the agent's own name is removed;
   - a trailing `<EOS>` is removed.
   Each pattern is modelled by a function, and a lemma proves that the function removes exactly
   the span the regular expression matches, and nothing when the pattern does not match. Matching
   is leftmost, follows the backtracking order and has greedy quantifiers. `\s` and `strip()` use Python's full whitespace set (module `PyStr`).

Module `Backend` defines the transcript that `query` sends. It holds the class `AutoChat`, with
the model name and the merge flag fixed at construction. Its `Query` method runs the three stages
around a chat-completion service. The service is a function parameter from the model name and
the request to the reply text, so the network call stays abstract. The reply is stripped as
`_get_response` does. `SYSTEM_NAME`, whose value lives in `marp/message.py`, is the parameter
`systemName`. Shared datatypes and constants are in module `Chat`.

Two behaviours of the code are easy to misread. The model follows the code.
- Two consecutive turns of the agent are not merged into one assistant message: every agent pair
  opens a new assistant message (`Folding.AgentTurnsStaySeparate`). The comment at lines 125-126
  speaks of consecutive assistant messages. What that branch actually merges into an assistant
  message is *another* speaker's text, untagged (`Folding.FoldAfterAssistant`).
- Sanitisation is not idempotent. Only one trailing marker goes per pass, so a reply ending in
  two markers is changed again by a second pass (`Sanitization.SanitizeNotIdempotent`).

## Model

| member | source | states |
|---|---|---|
| PyStr.Strip | marp/backends/all_litellm.py:137-141 | the result of `strip()` has no leading or trailing whitespace and is never longer than its input |
| PyStr.StripUnique | marp/backends/all_litellm.py:137-141 | any whitespace / stripped core / whitespace split of a string has `Strip` as its core, so `Strip` is exactly Python's `str.strip()` |
| PyStr.StripIdempotent | marp/backends/all_litellm.py:137-141 | stripping twice is stripping once |
| PyStr.LeadingSpaceIsLongest | marp/backends/all_litellm.py:137-138 | no all-whitespace prefix is longer than the leading whitespace that `\s*` first consumes |
| Linearise.SystemPromptMentions | marp/backends/all_litellm.py:85-90 | every system prompt contains the base prompt with its end-of-message instruction and the agent's identity; a non-empty global prompt comes first, stripped; an empty global prompt acts as none |
| Linearise.SystemPromptDeterminesRole | marp/backends/all_litellm.py:85-90 | for a fixed agent and global prompt, different role descriptions give different system prompts |
| Linearise.HistoryTurnsLayout | marp/backends/all_litellm.py:94-98 | one pair per history message in order; the speaker is kept; system texts are unchanged; every other text gains `<EOS>` |
| Linearise.LinearisedLayout | marp/backends/all_litellm.py:93-107 | `all_messages` has history length + 2 pairs: the system prompt first, the history pairs, and a system-attributed directive last that is the request's content or `"You are NAME. ACTION.<EOS>"` |
| Linearise.BuildAllMessages | marp/backends/all_litellm.py:93-107 | the loop builds exactly `Linearised` |
| Folding.Step | marp/backends/all_litellm.py:117-129 | one pair adds at most one message and never removes one |
| Folding.Folded | marp/backends/all_litellm.py:112-129 | folding n pairs adds at most n messages |
| Folding.FoldPair | marp/backends/all_litellm.py:117-129 | the loop body after the first pair computes `Step` |
| Folding.FoldRoles | marp/backends/all_litellm.py:111-131 | the loop returns the fold of the pairs, or the assertion error when the first pair is not the system's |
| Folding.FoldedSnoc | marp/backends/all_litellm.py:112-129 | folding one more pair is one more step |
| Folding.FoldAgentTurn | marp/backends/all_litellm.py:117-118 | an agent pair always appends a new assistant message with its text, whatever came before |
| Folding.FoldAfterUser | marp/backends/all_litellm.py:120-124 | after a user message, another speaker's pair is merged into it with `"\n\n[speaker]: "` when the flag is set, and is a new tagged user message otherwise; earlier messages are unchanged |
| Folding.FoldAfterAssistant | marp/backends/all_litellm.py:125-127 | after an assistant message, another speaker's pair is appended to it after a newline, untagged, whatever the flag |
| Folding.FoldAfterSystem | marp/backends/all_litellm.py:128-129 | right after the system message, another speaker's pair is a new tagged user message |
| Folding.FoldedKeepsSystemHead | marp/backends/all_litellm.py:113-129 | the system message stays first and no later message has the system role |
| Folding.StepExtends | marp/backends/all_litellm.py:117-129 | a step only appends messages or appends text to the last one: every message before the last is unchanged, no message is removed or changes role, and the last content only grows at its end |
| Folding.FoldOnlyAppends | marp/backends/all_litellm.py:112-129 | the final messages extend every intermediate state of the loop: no message is removed or changes role, and each content only grows at its end |
| Folding.FoldKeepsEveryText | marp/backends/all_litellm.py:117-129 | the text of every folded pair occurs in some message of the result |
| Folding.AssistantCountMatchesAgentTurns | marp/backends/all_litellm.py:117-127 | the number of assistant messages grows by exactly the number of agent pairs |
| Folding.AgentTurnsStaySeparate | marp/backends/all_litellm.py:117-118 | a run of agent pairs gives one assistant message each, in order, never merged |
| Folding.OthersMergeIntoOneUser | marp/backends/all_litellm.py:120-122 | with the flag set, a run of other speakers' pairs after the system message becomes one user message of tagged parts joined by blank lines |
| Folding.OthersStaySeparate | marp/backends/all_litellm.py:120-124 | with the flag clear, each such pair is its own tagged user message, in order |
| Folding.MergingLeavesOneUserMessage | marp/backends/all_litellm.py:117-129 | with the flag set, the only possible user message is the one right after the system message |
| Sanitization.BracketEchoEndIsMatch | marp/backends/all_litellm.py:137 | the computed end is a match of `^\s*\[.*]:` and the longest one: the last `]:` on the line of the `[` (the leading `\s*` may cross newlines); no result means no match |
| Sanitization.NameEchoSearch | marp/backends/all_litellm.py:138 | the search returns the largest name start at or below the bound that can be followed by `\s*:`, or none exists |
| Sanitization.NameEchoIsMatch | marp/backends/all_litellm.py:138 | the computed span is a match of `^\s*NAME\s*:` with the name placed as late as the backtracking order places it, and its end is the only one for that start; no result means no match |
| Sanitization.NoColonNoNameEcho | marp/backends/all_litellm.py:138 | a reply without a colon never has the name prefix removed |
| Sanitization.RemoveTrailingIsMatch | marp/backends/all_litellm.py:141 | for a literal marker not ending in a newline, the function cuts out exactly the span `marker$` matches (at the very end or before a final newline) and returns the text unchanged when there is no match |
| Sanitization.RemoveEndOfMessageIsMatch | marp/backends/all_litellm.py:141 | the third substitution removes exactly the `<EOS>` that `<EOS>$` matches, and nothing when it does not match |
| Sanitization.RemoveEndOfMessageCases | marp/backends/all_litellm.py:141 | exactly one `<EOS>` is removed, at the very end or before a final newline |
| Sanitization.Sanitize | marp/backends/all_litellm.py:137-141 | the cleaned reply is stripped and never longer than the raw reply |
| Sanitization.SanitizeWellFormedReply | marp/backends/all_litellm.py:137-141 | a reply `"[speaker]: text<EOS>"` in the instructed form, with a newline-free speaker and a stripped colon-free text, comes back as the text |
| Sanitization.SanitizeColonFree | marp/backends/all_litellm.py:137-141 | without a colon only whitespace and the trailing marker are removed |
| Sanitization.SanitizeKeepsPlainReply | marp/backends/all_litellm.py:137-141 | a stripped, colon-free reply without the marker is returned unchanged |
| Sanitization.SanitizeDropsOneMarker | marp/backends/all_litellm.py:141 | one trailing marker after a stripped, colon-free text (possibly empty) is removed |
| Sanitization.SanitizeNotIdempotent | marp/backends/all_litellm.py:141 | a reply that is a stripped, colon-free text (possibly empty) followed by two markers keeps one marker after the first pass and loses it on the second, so the two passes differ |
| Backend.FoldOfLinearisedSucceeds | marp/backends/all_litellm.py:111-115 | the assertion on the first pair never fails: folding `all_messages` always succeeds and gives the transcript |
| Backend.TranscriptSystemFirst | marp/backends/all_litellm.py:93-131 | the request has between 2 and history length + 2 messages; the system prompt is first and is the only system message |
| Backend.TranscriptEndsWithDirective | marp/backends/all_litellm.py:100-129 | the last message of the request ends with the directive's text |
| Backend.EmptyHistoryTranscript | marp/backends/all_litellm.py:93-129 | when the agent is not the system, with no history the request is the system prompt followed by the tagged directive as one user message |
| Backend.AssistantMessagesAreTheAgents | marp/backends/all_litellm.py:94-127 | the request has one assistant message per history message of the agent, plus one when the agent is the system |
| Backend.TranscriptKeepsEveryUtterance | marp/backends/all_litellm.py:94-129 | every history message's content and the directive occur in the request |
| Backend.DefaultDirective | marp/backends/all_litellm.py:71-73 | a call without a request message or action prompt ends with the reminder `"You are NAME. Now you speak and act.<EOS>"` |
| Backend.WellFormedCompletion | marp/backends/all_litellm.py:67-68 | a completion `"[speaker]: text<EOS>"` with a newline-free speaker and a stripped, colon-free text is returned to the caller as its text |
| Backend.AutoChat.constructor | marp/backends/all_litellm.py:39-55 | the model name and the merge flag are kept as given; they default to `"gemini-pro"` and merging |
| Backend.AutoChat.Query | marp/backends/all_litellm.py:71-143 | the result is the cleaned, stripped completion of the transcript for the instance's model and merge flag |

## Left out

- The network call to the model provider (`litellm.completion`, lines 59-65) and its `retry`
  wrapper (line 57). These are I/O; the completion service is a function parameter.
- `temperature`, `max_tokens`, the stop sequences (line 27) and `litellm.drop_params` (line 29).
  They only configure the remote service.
- The model-name list (lines 17-23). Nothing in the core reads it.
- The log line (line 142). It is output only.
- `query` passes `*args, **kwargs` on to `_get_response`, which takes no extra arguments. The
  model covers the usual call without extra arguments.
- The `ValueError` branch of lines 130-131. It cannot be reached, because a message's role is
  always one of the three the loop tests, and the role type has no other value.
- `Message` objects and `SYSTEM_NAME` come from `marp/message.py`, which is not part of this model.
  A request message is taken to be truthy whenever it is present, and the system's name is a
  parameter.
- Backend registration (`marp/backends/__init__.py`) is not part of this model.
- A completion that is not a string (a missing `content`) is not modelled; the service always
  returns text.
- Regular-expression semantics are modelled for the three patterns only, with the agent's name
  matched literally, as `re.escape` makes it.
