/** The shape of an exported chat history, as the JSON decoder hands it to
    the core: a list of conversations, each with a title, a creation time
    and a mapping of nodes, some of which carry a message. */
module Export {
  import opened Common
  import opened Timestamps

  /** A `create_time` as JSON decoding produces it: never a `datetime`.
      `Null` stands for both a missing key and an explicit `null`, which
      `dict.get` does not tell apart. */
  type JsonTime = t: RawTime | !t.Moment? witness RawTime.Null

  /** A message. `role` is `author.role` (`None` when either key is
      missing); `createTime` is `None` when the key is missing or `null`;
      `parts` is `content.parts`, `None` when `content` or `parts` is
      missing; a `parts` that is `null` or not a list of strings is not
      represented. */
  datatype Message = Message(role: Option<string>, createTime: Option<real>, parts: Option<seq<string>>)

  /** A value of the mapping. A node that is not a dict, has no `message`
      key, or whose message is not a dict (the root node's `null`) carries
      no message: both readers of the mapping treat these three alike. */
  datatype Node = Node(message: Option<Message>)

  /** A key that may be missing, present with `null`, or present with a value. */
  datatype Field<+T> = Missing | Null | Present(value: T)

  /** A conversation; `mapping` is `None` when the key is missing, and
      otherwise the values of the mapping in iteration order. */
  datatype Conversation = Conversation(title: Field<string>, createTime: JsonTime, mapping: Option<seq<Node>>)

  /** An element of the uploaded list: a conversation, or anything that is not a dict. */
  datatype Entry = NotARecord | Record(conv: Conversation)

  /** The uploaded document: a list of entries, or anything that is not a list. */
  datatype Input = NotAList | List(entries: seq<Entry>)

  /** The row kept for a conversation in the summary table; `title` is
      `None` for a `null` title and `createTime` is the raw, unparsed value. */
  datatype Summary = Summary(title: Option<string>, createTime: JsonTime, messageCount: nat, lastResponse: Option<string>)

  /** The nodes a reader of the mapping walks: none for a non-dict entry or
      a conversation without a mapping. */
  function Nodes(e: Entry): (nodes: seq<Node>)
    ensures e.NotARecord? || e.conv.mapping.None? ==> nodes == []
  {
    if e.Record? && e.conv.mapping.Some? then e.conv.mapping.value else []
  }
}
