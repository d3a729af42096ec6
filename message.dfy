/** The text that `send_message` hands to `channel.send` as `content`. */
module Message {
  import opened Text

  /** `FORMAT_MENTION` filled in: the mention, a space and a newline. */
  function FormatMention(mention: string): string
  {
    mention + " \n"
  }

  /** `FROMAT_COMMENT_AUTO_REPLY`: the auto-reply suffix, currently empty. */
  const AutoReply: string := ""

  /** The mention prefix (only for a non-empty mention), the body, and the
      auto-reply suffix (only for a non-empty body). */
  function Content(message: string, mention: string): (r: string)
    ensures mention == "" ==> r == message
    ensures mention != "" ==> StartsWith(r, mention + " \n")
    ensures StartsWith(r[if mention == "" then 0 else |mention| + 2..], message)
    ensures message == "" ==> r == (if mention == "" then "" else mention + " \n")
    ensures |r| == (if mention == "" then 0 else |mention| + 2) + |message|
                   + (if message != "" then |AutoReply| else 0)
  {
    (if mention == "" then "" else FormatMention(mention))
      + message
      + (if message != "" then AutoReply else "")
  }

  /** Recovers the body from the content sent for `mention`: strip the
      mention prefix and, from a non-empty rest, the auto-reply suffix. */
  function BodyOf(content: string, mention: string): string
  {
    var prefix := if mention == "" then "" else FormatMention(mention);
    var rest := if StartsWith(content, prefix) then content[|prefix|..] else content;
    if rest == "" || |rest| < |AutoReply| then rest else rest[..|rest| - |AutoReply|]
  }

  /** The content determines the body: `BodyOf` inverts `Content`. */
  lemma BodyOfContent(message: string, mention: string)
    ensures BodyOf(Content(message, mention), mention) == message
  {
    var prefix := if mention == "" then "" else FormatMention(mention);
    var c := Content(message, mention);
    assert c == prefix + (message + (if message != "" then AutoReply else ""));
    assert StartsWith(c, prefix) && c[|prefix|..] == message + (if message != "" then AutoReply else "");
  }
}
