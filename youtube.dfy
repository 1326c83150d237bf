/** The record extraction in `fetch_youtube_comments`: each item of a
    commentThreads listing becomes one comment record. The client call that
    produces the listing is an input here. */
module YouTube {
  import opened Records

  // The parts of a commentThreads response the extraction reads. A field
  // that is None is a key missing from the JSON, so that indexing it raises.

  datatype CommentSnippet = CommentSnippet(
    authorDisplayName: Option<string>,
    textDisplay: Option<string>,
    publishedAt: Option<string>,
    videoId: Option<string>)

  datatype TopLevelComment = TopLevelComment(snippet: Option<CommentSnippet>)

  datatype ThreadSnippet = ThreadSnippet(topLevelComment: Option<TopLevelComment>)

  datatype ThreadItem = ThreadItem(id: Option<string>, snippet: Option<ThreadSnippet>)

  /** What `request.execute()` gave: an exception (transport, quota,
      credentials) or a response whose "items" key may be missing. */
  datatype ApiReply = RequestFailed | Reply(items: Option<seq<ThreadItem>>)

  /** `response.get("items", [])`. */
  function Items(reply: ApiReply): (items: seq<ThreadItem>)
    ensures reply.Reply? && reply.items.Some? ==> items == reply.items.value
    ensures reply.RequestFailed? || reply.items.None? ==> items == []
  {
    if reply.Reply? && reply.items.Some? then reply.items.value else []
  }

  /** `item["snippet"]["topLevelComment"]["snippet"]`, None when a key is missing. */
  function InnerSnippet(item: ThreadItem): (inner: Option<CommentSnippet>)
    ensures inner.Some? <==> && item.snippet.Some?
                             && item.snippet.value.topLevelComment.Some?
                             && item.snippet.value.topLevelComment.value.snippet.Some?
    ensures inner.Some? ==> inner == item.snippet.value.topLevelComment.value.snippet
  {
    if item.snippet.None? then None
    else if item.snippet.value.topLevelComment.None? then None
    else item.snippet.value.topLevelComment.value.snippet
  }

  /** Every key the extraction reads is present in the item. */
  ghost predicate Complete(item: ThreadItem)
  {
    && item.id.Some?
    && InnerSnippet(item).Some?
    && InnerSnippet(item).value.authorDisplayName.Some?
    && InnerSnippet(item).value.textDisplay.Some?
    && InnerSnippet(item).value.publishedAt.Some?
    && InnerSnippet(item).value.videoId.Some?
  }

  /** The record `c` is the one the item describes: the id comes from the
      thread item, the other four fields from the top-level comment's snippet. */
  ghost predicate FromItem(c: Comment, item: ThreadItem)
  {
    && item.id == Some(c.id)
    && InnerSnippet(item) == Some(CommentSnippet(Some(c.author), Some(c.text), Some(c.publishedAt), Some(c.videoId)))
  }

  /** The dictionary built for one item, or None where the source raises KeyError. */
  function ItemRecord(item: ThreadItem): (r: Option<Comment>)
    ensures r.Some? <==> Complete(item)
    ensures r.Some? ==> FromItem(r.value, item)
  {
    match InnerSnippet(item)
    case None => None
    case Some(s) =>
      if item.id.None? || s.authorDisplayName.None? || s.textDisplay.None?
         || s.publishedAt.None? || s.videoId.None?
      then None
      else Some(Comment(item.id.value, s.authorDisplayName.value, s.textDisplay.value,
                        s.publishedAt.value, s.videoId.value))
  }

  /** The request succeeded and no item lacks a key the extraction reads. */
  ghost predicate AllComplete(reply: ApiReply)
  {
    reply.Reply? && forall i :: 0 <= i < |Items(reply)| ==> Complete(Items(reply)[i])
  }

  /** What `fetch_youtube_comments` returns for a reply: one record per item,
      in item order, or the empty list when the request or any item raised. */
  ghost function Extracted(reply: ApiReply): (comments: seq<Comment>)
    ensures AllComplete(reply) ==> |comments| == |Items(reply)|
    ensures AllComplete(reply) ==>
              forall i :: 0 <= i < |comments| ==> FromItem(comments[i], Items(reply)[i])
    ensures !AllComplete(reply) ==> comments == []
  {
    var items := Items(reply);
    if AllComplete(reply)
    then seq(|items|, i requires 0 <= i < |items| && Complete(items[i]) => ItemRecord(items[i]).value)
    else []
  }

  /** The extraction loop of `fetch_youtube_comments`: append the record of
      each item in turn; a missing key abandons the whole list. */
  method FetchComments(reply: ApiReply) returns (comments: seq<Comment>)
    ensures comments == Extracted(reply)
  {
    if reply.RequestFailed? {
      return [];
    }
    var items := Items(reply);
    comments := [];
    var i := 0;
    while i < |items|
      invariant 0 <= i <= |items|
      invariant |comments| == i
      invariant forall k :: 0 <= k < i ==> Complete(items[k]) && Some(comments[k]) == ItemRecord(items[k])
    {
      var record := ItemRecord(items[i]);
      if record.None? {
        return [];
      }
      comments := comments + [record.value];
      i := i + 1;
    }
  }
}
