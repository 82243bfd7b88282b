/**
 * The domain types the mesh conversation works with. Members and messages are
 * supplied by the surrounding server; only the parts the conversation reads or
 * sets are modelled.
 */
module Domain {

  datatype Option<T> = None | Some(value: T)

  /** A participant. Members are compared by value, as the source compares them with equals. */
  datatype Member = Member(id: string)

  /** The kind of a signalling message. Only CREATED is built by the conversation itself. */
  datatype Signal = Created | Other(name: string)

  /**
   * A built message: its kind, its sender and recipient (either may be unset),
   * its content and its custom key/value attributes.
   */
  datatype Message = Message(
    signal: Signal,
    from: Option<Member>,
    to: Option<Member>,
    content: string,
    custom: map<string, string>)

  /** The topology marker a first member is told about. */
  const MeshType := "MESH"

  /**
   * The message that tells the first member that the conversation was created:
   * addressed to `sender`, of kind CREATED, with custom attribute type = MESH
   * and the conversation id as content. It names no sender.
   */
  function CreatedNotice(sender: Member, conversationId: string): Message
  {
    Message(Created, None, Some(sender), conversationId, map["type" := MeshType])
  }

  /** A copy of `template` re-addressed from `from` to `to`; kind, content and attributes are kept. */
  function Readdressed(template: Message, from: Member, to: Member): Message
  {
    template.(from := Some(from), to := Some(to))
  }
}
