# YouTube comments to Gorgias tickets: the sync pass

This project models `main.py` of trueCABLE/YouTubeGorgias, a script that a
scheduler runs to turn new comments on a YouTube channel into Gorgias
tickets. One run (`main`) reads the last synced comment id from the `sync`
table of a SQLite file, fetches the channel's latest comment threads, and
walks them in fetch order: it stops at the first comment whose id is the last
synced id, and for every comment before that it creates a ticket and then
saves the comment's id in the table.

The model has five modules, one per part of the script:

- `Records` (records.dfy): the comment record and an `Option` type.
- `YouTube` (youtube.dfy): the items of a commentThreads response and the
  loop that turns them into comment records (`FetchComments`).
- `Gorgias` (gorgias.dfy): the deep link, the ticket payload, and a
  `TicketDesk` object whose log receives one entry per ticket creation.
- `Ledger` (ledger.dfy): the `sync` table as a `SyncTable` object. It holds
  a map from comment id to a stamp and a clock that each write advances.
  `Latest` is what `SELECT id FROM sync ORDER BY synced_at DESC LIMIT 1`
  answers.
- `Sync` (sync.dfy): the pass itself. `PassPrefix` says which comments a
  pass handles. `HandleComments` is the `for` loop and `RunPass` is `main`.
  The lemmas relate one pass to the next.

What the proofs show about a pass:

- Comments are ticketed in fetch order up to the first comment whose id is
  the last synced id. That comment and everything after it are neither
  ticketed nor saved.
- With an empty table, or a last synced id that is not among the fetched
  ids, every fetched comment is ticketed and saved.
- Saving does not depend on the ticket response. The ids saved are exactly
  the ids ticketed, in the same order.
- After a pass that handled at least one comment, the latest row of the
  table is the last comment handled. The fetch is newest-first, so this is
  the oldest comment of the batch, not the newest. A pass that handled
  nothing leaves the table as it was.
- So the inline claim "Skip already synced comments" (main.py:127) does
  not hold in general. The `break` skips the comment whose id was read back
  and every comment after it (`StopsAtLastSynced`), and the claim fails in
  two ways. First, already-synced comments that come before the stop point
  are ticketed again: a second pass over the same fetched comments
  (distinct ids) tickets again every comment of the first pass except the
  last one (`RepeatedPass`). Two new comments and an empty table already
  show it: the second pass tickets the newer comment a second time
  (`SecondPassRedispatches`). Second, when the read-back id is missing from
  the fetch, every fetched comment is ticketed again
  (`HandlesAllWithoutMatch`). That happens, for example, once enough new
  comments push it out of the at most 20 threads one request returns
  (`maxResults=20`, main.py:56). The model keeps this behaviour as the
  code has it.

The `sync` table gains a row for every saved id, but the pass reads back
only the latest one and never checks whether a fetched id is already in the
table. This revision of `main.py` has no recency cutoff, reply threads,
exclusion of the channel's own comments or video-id cache. It saves a comment whatever the ticket request returned.

Inputs that stand for the outside world:

- `ApiReply` is what `request.execute()` produced: an exception, or a
  response whose fields may be missing. A missing key is `None`.
- `network(n)` is the response to the `n`-th ticket POST of a pass. It
  reaches the log and has no other effect.
- The clock behind `CURRENT_TIMESTAMP` is the `clock` field, a counter that
  every save advances by one.

## Model

| member | source | states |
|---|---|---|
| `YouTube.Items` | main.py:63 | the items are the response's "items" list when the request succeeded and the key is present, and the empty list otherwise |
| `YouTube.InnerSnippet` | main.py:64 | the top-level comment's snippet is found exactly when the thread snippet, its top-level comment and that comment's snippet are all present |
| `YouTube.ItemRecord` | main.py:64-71 | an item yields a record exactly when every key the extraction reads is present, and the record takes its id from the thread item and author, text, publication time and video id from the top-level comment's snippet |
| `YouTube.Extracted` | main.py:62-78 | the fetch result has one record per response item, in item order, each taken from its item; a failed request or an item missing a key gives the empty list |
| `YouTube.FetchComments` | main.py:62-78 | the extraction loop returns exactly the fetch result `Extracted` describes |
| `Gorgias.CommentLink` | main.py:84 | the link is the watch URL, then the video id, then "&lc=", then the comment id, with nothing else in between or after |
| `Gorgias.Description` | main.py:89-94 | the ticket body starts with the comment label and quotes the comment text, the author, the publication time and the comment link |
| `Gorgias.BuildTicket` | main.py:87-97 | subject is "New Comment from " followed by the author; the description is the body above and quotes the text, author, publication time and link; tags are exactly ["YouTube", "Comment"]; assignee is "1591495" |
| `Gorgias.LinkRoundTrip` | main.py:84 | reading the `v` and `lc` parameters back from the comment link gives the comment's video id and comment id, when the video id has no '&' |
| `Gorgias.LinkIdentifiesComment` | main.py:84 | when neither video id contains '&', two comments with the same link have the same video id and the same comment id |
| `Gorgias.LinkCollidesWithAmpersand` | main.py:84 | without that condition the link does not identify the comment: video id "a&lc=b" with comment id "c" gives the same link as video id "a" with comment id "b&lc=c" |
| `Gorgias.TicketDesk.constructor` | main.py:81-113 | before any ticket creation, the log of attempts is empty |
| `Gorgias.TicketDesk.CreateTicket` | main.py:81-113 | one ticket creation appends one attempt, carrying the comment, its payload and the response, whatever the response is, and returns nothing |
| `Ledger.Latest` | main.py:29-36 | None exactly when the table is empty, otherwise an id whose stamp is the greatest |
| `Ledger.LatestUnique` | main.py:33 | when stamps are distinct, only one id has the greatest stamp |
| `Ledger.SaveOneRow` | main.py:21-23 | an upsert makes the id a key, stamps it with now, leaves every other row unchanged, leaves the key set as it was for an id already present, and makes the written row the latest |
| `Ledger.SaveAllStep` | main.py:42 | saving one more id stamps it with the next tick |
| `Ledger.SaveAllRows` | main.py:42 | saving a list adds exactly its ids as keys, stamps them within the ticks used, leaves other rows unchanged, and keeps stamps below the clock and distinct |
| `Ledger.LatestAfterSaves` | main.py:33-42 | after saving a non-empty list of ids, the latest row is the id saved last |
| `Ledger.SyncTable.constructor` | main.py:16-27 | `init_db` on a new file gives an empty table |
| `Ledger.SyncTable.Save` | main.py:38-44 | `save_last_synced_comment` upserts the id stamped with the current clock, advances the clock, and keeps stamps below the clock and distinct |
| `Ledger.SyncTable.GetLastSynced` | main.py:29-36 | `get_last_synced_comment` returns None exactly when the table is empty, and otherwise the id whose stamp is the greatest |
| `Sync.PassPrefix` | main.py:126-129 | the comments handled are a prefix of the fetched list, none of them has the last synced id, and the first comment not handled (if any) has it |
| `Sync.PassPrefixUnique` | main.py:126-129 | any prefix with those three properties is the handled prefix |
| `Sync.StopsAtLastSynced` | main.py:126-129 | when the k-th comment is the first with the last synced id, exactly the first k comments are handled |
| `Sync.HandlesAllWithoutMatch` | main.py:121-135 | with an empty table, or a last synced id not among the fetched ids, every fetched comment is handled |
| `Sync.DispatchesStep` | main.py:132-135 | handling one more comment appends one attempt and one saved id |
| `Sync.SavedAreDispatched` | main.py:107-113 | whatever the responses, the ids saved are the ids ticketed in the same order, and each payload is built from its own comment |
| `Sync.LatestAfterPass` | main.py:126-135 | a pass that handled nothing leaves the table unchanged; otherwise the latest row is the last comment handled |
| `Sync.RepeatedPass` | main.py:126-135 | a second pass over the same fetched comments (distinct ids) handles again all comments of the first pass but its last one |
| `Sync.SecondPassRedispatches` | main.py:126-135 | with two new comments and an empty table, the first pass handles both and the second pass tickets the newer one again |
| `Sync.HandleComments` | main.py:126-135 | the loop appends one attempt per handled comment in order, saves exactly the handled ids in order, and leaves the table as those saves make it |
| `Sync.RunPass` | main.py:116-135 | a pass handles the prefix of the fetch result that ends before the comment with the last synced id, tickets and saves exactly those comments in order, and leaves the table as those saves make it |

## Left out

- SQLite connections, `CREATE TABLE IF NOT EXISTS` on an existing file, commits and closes (main.py:16-44): the table is an object that lives across passes; a database that cannot be opened or written is not modelled; a failed write in `save_last_synced_comment` (main.py:42-43) after the POST would end the run with the ticket created and its id unsaved.
- A `print` inside the ticket request's `try` (main.py:108 and main.py:110) that fails, for instance with `UnicodeEncodeError` on a comment text that standard output cannot encode: only `RequestException` is caught (main.py:112), so the error would end the run after the POST and before the save at main.py:135, with the ticket created and its id unsaved. The model takes printing to always succeed.
- The googleapiclient `build`, `list` and `execute` calls and their parameters `maxResults=20` and `order="time"` (main.py:50-59): the reply is an input, and newest-first order is an assumption about that input.
- JSON values of other types than strings, or an "items" value that is not a list: the model types every field the extraction reads as an optional string, following the API's schema.
- `requests.post`, the headers and bearer token, and the `print` logging of status codes and errors (main.py:99-113), and the `print` in the except branch of `fetch_youtube_comments` (main.py:77): the response is an input recorded in the log; when the printing succeeds, it never changes what the pass does next.
- Environment variables and the tickets URL (main.py:8-11): configuration.
- `CURRENT_TIMESTAMP` has one-second precision, so two saves in the same second get equal stamps and `ORDER BY synced_at DESC LIMIT 1` may then return either row. The model's clock advances on every save, so stamps are distinct.
- Exceptions raised by `requests.post` other than `RequestException`, which would end the run: none can arise from serialising a payload made of strings. A failing `print` is the separate case above.
