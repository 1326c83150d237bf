/** `create_gorgias_ticket`: the deep link, the ticket payload built from a
    comment record, and the POST, which here appends one attempt to a log. */
module Gorgias {
  import opened Records

  const WatchUrl := "https://www.youtube.com/watch?v="
  const CommentParam := "&lc="
  const SubjectPrefix := "New Comment from "
  const AssignedUser := "1591495"

  /** The link that opens the video with the comment highlighted: the watch
      URL, the video id, the `lc` parameter and the comment id, in order. */
  function CommentLink(c: Comment): (link: string)
    ensures |link| == |WatchUrl| + |c.videoId| + |CommentParam| + |c.id|
    ensures link[..|WatchUrl|] == WatchUrl
    ensures link[|WatchUrl|..|WatchUrl| + |c.videoId|] == c.videoId
    ensures link[|WatchUrl| + |c.videoId|..|link| - |c.id|] == CommentParam
    ensures link[|link| - |c.id|..] == c.id
  {
    WatchUrl + c.videoId + CommentParam + c.id
  }

  /** `t` occurs as a contiguous piece of `s`. */
  ghost predicate Mentions(s: string, t: string)
  {
    exists before, after :: s == before + t + after
  }

  /** Each field between fixed pieces is mentioned by the whole. */
  lemma InterleavedMentions(a: string, x1: string, b: string, x2: string, e: string, x3: string,
                            f: string, x4: string, g: string)
    ensures var s := a + x1 + b + x2 + e + x3 + f + x4 + g;
            Mentions(s, x1) && Mentions(s, x2) && Mentions(s, x3) && Mentions(s, x4)
  {
    var s := a + x1 + b + x2 + e + x3 + f + x4 + g;
    assert s == a + x1 + (b + x2 + e + x3 + f + x4 + g);
    assert s == (a + x1 + b) + x2 + (e + x3 + f + x4 + g);
    assert s == (a + x1 + b + x2 + e) + x3 + (f + x4 + g);
    assert s == (a + x1 + b + x2 + e + x3 + f) + x4 + g;
  }

  // The fixed pieces of the ticket body, in order.
  const TextLabel := "**Comment:** "
  const AuthorLabel := "\n\n**Author:** "
  const PublishedLabel := "\n**Published At:** "
  const LinkLabel := "\n\n[View Comment on YouTube]("
  const LinkEnd := ")"

  /** The Markdown body of the ticket: it opens with the comment label and
      quotes the text, the author, the publication time and the link. */
  function Description(c: Comment): (body: string)
    ensures |TextLabel| <= |body| && body[..|TextLabel|] == TextLabel
    ensures Mentions(body, c.text) && Mentions(body, c.author)
    ensures Mentions(body, c.publishedAt) && Mentions(body, CommentLink(c))
  {
    InterleavedMentions(TextLabel, c.text, AuthorLabel, c.author, PublishedLabel, c.publishedAt,
                        LinkLabel, CommentLink(c), LinkEnd);
    TextLabel + c.text + AuthorLabel + c.author + PublishedLabel + c.publishedAt
    + LinkLabel + CommentLink(c) + LinkEnd
  }

  /** The JSON payload `ticket_data`. */
  datatype Ticket = Ticket(subject: string, description: string, tags: seq<string>, assignedUserId: string)

  /** `ticket_data` for a comment: the subject is the fixed prefix followed
      by the author, the body is the Markdown description, and the tags and
      assignee are fixed. */
  function BuildTicket(c: Comment): (t: Ticket)
    ensures |t.subject| == |SubjectPrefix| + |c.author|
    ensures t.subject[..|SubjectPrefix|] == SubjectPrefix && t.subject[|SubjectPrefix|..] == c.author
    ensures t.description == Description(c)
    ensures Mentions(t.description, c.text) && Mentions(t.description, c.author)
    ensures Mentions(t.description, c.publishedAt) && Mentions(t.description, CommentLink(c))
    ensures t.tags == ["YouTube", "Comment"] && t.assignedUserId == AssignedUser
  {
    Ticket(SubjectPrefix + c.author, Description(c), ["YouTube", "Comment"], AssignedUser)
  }

  // Reading a link back: the video and comment a YouTube watch link points at.

  datatype LinkTarget = LinkTarget(videoId: string, commentId: string)

  /** The position of the first `ch` in `s`, or |s| when there is none. */
  function IndexOf(s: string, ch: char): (k: nat)
    ensures k <= |s|
    ensures forall i :: 0 <= i < k ==> s[i] != ch
    ensures k < |s| ==> s[k] == ch
  {
    if s == [] then 0
    else if s[0] == ch then 0
    else 1 + IndexOf(s[1..], ch)
  }

  /** The `v` and `lc` parameters of a link of the shape CommentLink builds:
      `v` runs up to the first '&', which must start "&lc=". */
  function ParseLink(link: string): (target: Option<LinkTarget>)
  {
    if |link| < |WatchUrl| || link[..|WatchUrl|] != WatchUrl then None
    else
      var query := link[|WatchUrl|..];
      var k := IndexOf(query, '&');
      var rest := query[k..];
      if |rest| < |CommentParam| || rest[..|CommentParam|] != CommentParam then None
      else Some(LinkTarget(query[..k], rest[|CommentParam|..]))
  }

  /** The link leads back to the comment's video and to the comment itself
      whenever the video id has no '&' (YouTube video ids never do). */
  lemma LinkRoundTrip(c: Comment)
    requires '&' !in c.videoId
    ensures ParseLink(CommentLink(c)) == Some(LinkTarget(c.videoId, c.id))
  {
    var link := CommentLink(c);
    var query := c.videoId + CommentParam + c.id;
    assert link == WatchUrl + query;
    assert link[..|WatchUrl|] == WatchUrl && link[|WatchUrl|..] == query;
    var k := IndexOf(query, '&');
    assert query[|c.videoId|] == '&';
    assert forall i :: 0 <= i < |c.videoId| ==> query[i] == c.videoId[i];
    assert k == |c.videoId|;
    assert query[k..] == CommentParam + c.id;
    assert query[..k] == c.videoId;
  }

  /** When neither video id contains '&', two comments get the same link
      only if they are the same comment of the same video. */
  lemma LinkIdentifiesComment(c: Comment, d: Comment)
    requires '&' !in c.videoId && '&' !in d.videoId
    requires CommentLink(c) == CommentLink(d)
    ensures c.videoId == d.videoId && c.id == d.id
  {
    LinkRoundTrip(c);
    LinkRoundTrip(d);
  }

  /** Without that condition the link does not identify the comment: a video
      id holding "&lc=" can collide with a different split of the same text. */
  lemma LinkCollidesWithAmpersand()
    ensures var c := Comment("b&lc=c", "", "", "", "a");
            var d := Comment("c", "", "", "", "a&lc=b");
            c.id != d.id && CommentLink(c) == CommentLink(d)
  {
    var c := Comment("b&lc=c", "", "", "", "a");
    var d := Comment("c", "", "", "", "a&lc=b");
    assert CommentLink(c) == WatchUrl + "a&lc=b&lc=c";
    assert CommentLink(d) == WatchUrl + "a&lc=b&lc=c";
  }

  /** What the POST to the tickets endpoint came back with. Only status 201
      counts as created; the source only logs the difference. */
  datatype Response = HttpReply(status: int, body: string) | ConnectionFailed

  /** One call of `create_gorgias_ticket`: the comment, the payload posted for
      it and the response the POST received. */
  datatype Attempt = Attempt(comment: Comment, payload: Ticket, response: Response)

  /** The comments of a list of attempts, in order. */
  function AttemptedComments(attempts: seq<Attempt>): (comments: seq<Comment>)
  {
    seq(|attempts|, i requires 0 <= i < |attempts| => attempts[i].comment)
  }

  /** The ticketing endpoint seen from this program: the log of every ticket
      creation attempted, in order. */
  class TicketDesk {
    var attempts: seq<Attempt>

    constructor ()
      ensures attempts == []
    {
      attempts := [];
    }

    /** `create_gorgias_ticket(comment)`: posts the payload; whatever the
        response, nothing is returned and the attempt is logged. */
    method CreateTicket(c: Comment, response: Response)
      modifies this
      ensures attempts == old(attempts) + [Attempt(c, BuildTicket(c), response)]
    {
      attempts := attempts + [Attempt(c, BuildTicket(c), response)];
    }
  }
}
