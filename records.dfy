/** Values shared by every stage of a sync pass: the comment record that
    `fetch_youtube_comments` builds and an Option for "maybe absent". */
module Records {

  datatype Option<+T> = None | Some(value: T)

  /** One comment record, as built in `fetch_youtube_comments`. The source
      keeps it as a dictionary with exactly these five keys. */
  datatype Comment = Comment(
    id: string,
    author: string,
    text: string,
    publishedAt: string,
    videoId: string)

  /** The ids of a list of comments, in the same order. */
  function Ids(comments: seq<Comment>): (ids: seq<string>)
  {
    seq(|comments|, i requires 0 <= i < |comments| => comments[i].id)
  }

  /** No id occurs twice in the list (YouTube thread ids are unique). */
  ghost predicate DistinctIds(comments: seq<Comment>)
  {
    forall i, j :: 0 <= i < j < |comments| ==> comments[i].id != comments[j].id
  }
}
