/** The sync pass of `main`: read the last synced id, fetch the comments,
    and walk them in order, creating a ticket and saving the id of each one
    until the comment whose id is the last synced id. */
module Sync {
  import opened Records
  import opened YouTube
  import opened Gorgias
  import opened Ledger

  /** The comments a pass handles: those before the first one whose id is
      `last`, or all of them when there is no such comment. */
  function PassPrefix(fetched: seq<Comment>, last: Option<string>): (done: seq<Comment>)
    ensures |done| <= |fetched| && done == fetched[..|done|]
    ensures forall i :: 0 <= i < |done| ==> last != Some(done[i].id)
    ensures |done| < |fetched| ==> last == Some(fetched[|done|].id)
  {
    if fetched == [] || last == Some(fetched[0].id) then []
    else [fetched[0]] + PassPrefix(fetched[1..], last)
  }

  /** The three properties of PassPrefix single it out: a prefix with no
      match that ends at the end or at a match is PassPrefix. */
  lemma {:induction false} PassPrefixUnique(fetched: seq<Comment>, last: Option<string>, n: nat)
    requires n <= |fetched|
    requires forall i :: 0 <= i < n ==> last != Some(fetched[i].id)
    requires n < |fetched| ==> last == Some(fetched[n].id)
    ensures PassPrefix(fetched, last) == fetched[..n]
    decreases n
  {
    if n > 0 {
      var tail := fetched[1..];
      assert forall i :: 0 <= i < n - 1 ==> tail[i] == fetched[i + 1];
      PassPrefixUnique(tail, last, n - 1);
      assert fetched[..n] == [fetched[0]] + tail[..n - 1];
    }
  }

  /** The pass stops at the first comment carrying the last synced id: that
      comment and all after it are left alone. */
  lemma StopsAtLastSynced(fetched: seq<Comment>, last: string, k: nat)
    requires k < |fetched| && fetched[k].id == last
    requires forall i :: 0 <= i < k ==> fetched[i].id != last
    ensures PassPrefix(fetched, Some(last)) == fetched[..k]
  {
    PassPrefixUnique(fetched, Some(last), k);
  }

  /** With an empty ledger, or a last synced id that is not among the
      fetched ids, the pass handles every fetched comment. */
  lemma HandlesAllWithoutMatch(fetched: seq<Comment>, last: Option<string>)
    requires last.None? || forall i :: 0 <= i < |fetched| ==> fetched[i].id != last.value
    ensures PassPrefix(fetched, last) == fetched
  {
    PassPrefixUnique(fetched, last, |fetched|);
  }

  /** The log entries a pass appends for the comments it handles: one per
      comment, in order, with that comment's payload and the response the
      `n`-th POST received. */
  function Dispatches(done: seq<Comment>, network: nat -> Response): (log: seq<Attempt>)
  {
    seq(|done|, i requires 0 <= i < |done| => Attempt(done[i], BuildTicket(done[i]), network(i)))
  }

  /** Handling one more comment appends one attempt. */
  lemma DispatchesStep(handled: seq<Comment>, c: Comment, network: nat -> Response)
    ensures Dispatches(handled + [c], network)
         == Dispatches(handled, network) + [Attempt(c, BuildTicket(c), network(|handled|))]
    ensures Ids(handled + [c]) == Ids(handled) + [c.id]
  {
  }

  /** Whatever the endpoint answers, the ids saved are the ids dispatched,
      in the same order, and each payload is the comment's own ticket. */
  lemma {:induction false} SavedAreDispatched(done: seq<Comment>, network: nat -> Response)
    ensures Ids(AttemptedComments(Dispatches(done, network))) == Ids(done)
    ensures forall a :: a in Dispatches(done, network) ==> a.payload == BuildTicket(a.comment)
  {
    var log := Dispatches(done, network);
    assert AttemptedComments(log) == done;
  }

  /** The ledger after a pass: unchanged when nothing was handled, otherwise
      its latest row is the last comment handled, the oldest of the batch
      when the fetch is newest-first. */
  lemma LatestAfterPass(rows: Rows, clock: nat, done: seq<Comment>)
    requires StampsBelow(rows, clock) && StampsDistinct(rows)
    ensures done == [] ==> SaveAll(rows, clock, Ids(done)) == rows
    ensures done != [] ==> Latest(SaveAll(rows, clock, Ids(done))) == Some(done[|done| - 1].id)
  {
    if done != [] {
      LatestAfterSaves(rows, clock, Ids(done));
    }
  }

  /** Running the pass again over the same fetched comments does not skip
      what was just synced: it handles again every comment the first pass
      handled except the last one. */
  lemma RepeatedPass(rows: Rows, clock: nat, fetched: seq<Comment>)
    requires StampsBelow(rows, clock) && StampsDistinct(rows)
    requires DistinctIds(fetched)
    ensures var done := PassPrefix(fetched, Latest(rows));
            var again := PassPrefix(fetched, Latest(SaveAll(rows, clock, Ids(done))));
            (done == [] ==> again == []) && (done != [] ==> again == done[..|done| - 1])
  {
    var done := PassPrefix(fetched, Latest(rows));
    LatestAfterPass(rows, clock, done);
    if done != [] {
      var k := |done| - 1;
      StopsAtLastSynced(fetched, done[k].id, k);
    }
  }

  /** Two fresh comments and an empty ledger: the second pass tickets the
      newer comment a second time. */
  lemma SecondPassRedispatches(newer: Comment, older: Comment)
    requires newer.id != older.id
    ensures var first := PassPrefix([newer, older], Latest(map[]));
            var after := SaveAll(map[], 0, Ids(first));
            first == [newer, older] && PassPrefix([newer, older], Latest(after)) == [newer]
  {
    RepeatedPass(map[], 0, [newer, older]);
  }

  /** The `for` loop of `main()`: walk `comments` in order, and stop at the
      first one whose id is `last`; before that, create a ticket for each
      comment and then save its id, whatever the response. */
  method HandleComments(db: SyncTable, desk: TicketDesk, comments: seq<Comment>, last: Option<string>,
                        network: nat -> Response)
    requires db.Valid()
    modifies db, desk
    ensures db.Valid()
    ensures var done := PassPrefix(comments, last);
            && desk.attempts == old(desk.attempts) + Dispatches(done, network)
            && db.saves == old(db.saves) + Ids(done)
            && db.rows == SaveAll(old(db.rows), old(db.clock), Ids(done))
            && db.clock == old(db.clock) + |done|
  {
    ghost var handled: seq<Comment> := [];
    var i := 0;
    while i < |comments|
      invariant i <= |comments| && handled == comments[..i]
      invariant forall k :: 0 <= k < i ==> last != Some(comments[k].id)
      invariant db.Valid()
      invariant desk.attempts == old(desk.attempts) + Dispatches(handled, network)
      invariant db.saves == old(db.saves) + Ids(handled)
      invariant db.rows == SaveAll(old(db.rows), old(db.clock), Ids(handled))
      invariant db.clock == old(db.clock) + i
    {
      if last == Some(comments[i].id) {
        break;
      }
      DispatchesStep(handled, comments[i], network);
      SaveAllStep(old(db.rows), old(db.clock), Ids(handled), comments[i].id);
      desk.CreateTicket(comments[i], network(i));
      db.Save(comments[i].id);
      handled := handled + [comments[i]];
      i := i + 1;
    }
    PassPrefixUnique(comments, last, i);
  }

  /** `main()`: one sync pass. `reply` is what the commentThreads request
      returned and `network(n)` the response to the `n`-th ticket POST. */
  method RunPass(db: SyncTable, desk: TicketDesk, reply: ApiReply, network: nat -> Response)
    requires db.Valid()
    modifies db, desk
    ensures db.Valid()
    ensures var done := PassPrefix(Extracted(reply), Latest(old(db.rows)));
            && desk.attempts == old(desk.attempts) + Dispatches(done, network)
            && db.saves == old(db.saves) + Ids(done)
            && db.rows == SaveAll(old(db.rows), old(db.clock), Ids(done))
            && db.clock == old(db.clock) + |done|
  {
    var last := db.GetLastSynced();
    var comments := FetchComments(reply);
    HandleComments(db, desk, comments, last, network);
  }
}
