/** The values the backend's `query` passes around, and its constants. */
module Chat {

  datatype Option<T> = None | Some(value: T)

  datatype Result<T, E> = Ok(value: T) | Err(error: E)

  /** A history entry: the fields of the framework's `Message` that `query` reads. */
  datatype Message = Message(agentName: string, content: string)

  /** One `(speaker, text)` pair of the linear transcript `all_messages`. */
  datatype Turn = Turn(speaker: string, text: string)

  /** The arguments of one `query` call, with its defaults: no global prompt,
      no request message and the default action prompt. */
  datatype QueryArgs = QueryArgs(
    agentName: string,
    roleDesc: string,
    history: seq<Message>,
    globalPrompt: Option<string> := None,
    requestMsg: Option<Message> := None,
    actionPrompt: string := DefaultActionPrompt)

  datatype Role = System | User | Assistant

  /** One `{"role": ..., "content": ...}` entry of the chat-completion request. */
  datatype RoleMessage = RoleMessage(role: Role, content: string)

  /** The `AssertionError` of the folding loop: the first pair is not the system's. */
  datatype FoldError = FirstTurnNotFromSystem

  const EndOfMessage: string := "<EOS>"

  const BasePrompt: string := "The messages should always end with the token " + EndOfMessage + "."

  /** The default `action_prompt` of `query`. */
  const DefaultActionPrompt: string := "Now you speak and act"
}
