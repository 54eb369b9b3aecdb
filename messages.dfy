/**
 * The values `move` works on: the fetched history messages, their authors and
 * attachments, and the guild's threads; plus the two pure pieces of bot.py that
 * act on one message: the sort key `sSort` and the text of a replayed message.
 */
module Messages {
  import opened Wrappers

  /** An attachment is carried through opaquely; its bytes are never looked at. */
  datatype Attachment = Attachment(filename: string, url: string)

  /** `message.author`: its mention string, and whether it is a bot (never consulted). */
  datatype Author = Author(mention: string, isBot: bool)

  /** A history message; `createdAt` is `created_at` as a timestamp. */
  datatype Message = Message(
    id: nat,
    author: Author,
    createdAt: int,
    content: string,
    attachments: seq<Attachment>)

  /** A thread of the guild, as enumerated by `ctx.guild.threads`. */
  datatype Thread = Thread(id: nat, name: string)

  /** `sSort`: the sort key of a message is its creation time. */
  function SortKey(m: Message): int
  {
    m.createdAt
  }

  const Said: string := " said: \n"

  /** The text a replayed message is sent with: the author's mention, " said: ", a newline, then the original content. */
  function Render(m: Message): (r: string)
    ensures |r| == |m.author.mention| + |Said| + |m.content|
    ensures r[..|m.author.mention|] == m.author.mention
    ensures r[|m.author.mention|..|m.author.mention| + |Said|] == Said
    ensures r[|m.author.mention| + |Said|..] == m.content
  {
    m.author.mention + Said + m.content
  }

  /** Reads the original content back from a rendered text, if it starts with `mention` and " said: \n". */
  function ContentOf(rendered: string, mention: string): Option<string>
  {
    var n := |mention| + |Said|;
    if |rendered| >= n && rendered[..n] == mention + Said then Some(rendered[n..]) else None
  }

  /** ContentOf inverts Render, and it accepts only texts that Render can produce for that mention. */
  lemma RenderKeepsContent(m: Message, rendered: string, mention: string, content: string)
    ensures ContentOf(Render(m), m.author.mention) == Some(m.content)
    ensures ContentOf(rendered, mention) == Some(content) <==> rendered == mention + Said + content
  {
    var pre := mention + Said;
    if rendered == pre + content {
      assert rendered[..|pre|] == pre && rendered[|pre|..] == content;
    }
    if ContentOf(rendered, mention) == Some(content) {
      assert rendered == rendered[..|pre|] + rendered[|pre|..];
    }
    assert Render(m)[..|m.author.mention| + |Said|] == m.author.mention + Said;
  }
}
