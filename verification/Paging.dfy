/** The paging loop of "download all new" (src/app/transferApp.ts) over one catalog revision:
    it ends, asks for no cursor twice, and leaves the client with the whole chain. */
module Paging {
  import opened Prelude
  import opened SessionTypes
  import S = ServerCatalog
  import R = ServerRuns
  import opened ServerStore
  import opened ClientCatalog
  import opened ClientStore
  import opened LoadMore

  /** What the device answers to a cursor: a connection epoch and a page. A cursor without an
      answer is a failed read. */
  datatype Answer = Answer(epoch: nat, page: Page)

  /** Client and backend agree, and the client knows whether there is more. */
  ghost predicate Ready(device: Device, p: S.Published, d: DeviceId) {
    && Agrees(device, p, d)
    && WellFormed(p, d)
    && device.catalog.hasMore == device.catalog.nextCursor.Some?
    && (p.catalogs[d].nextCursor.Some? ==> p.catalogs[d].nextCursor.value !in p.catalogs[d].seenCursors)
  }

  /** Every catalog a run of the backend can reach is fit for this loop. */
  lemma ReachableIsWellFormed(actions: seq<R.Action>, d: DeviceId)
    requires d in R.RunFrom(S.NOTHING_PUBLISHED, actions).catalogs
    ensures
      var p := R.RunFrom(S.NOTHING_PUBLISHED, actions);
      WellFormed(p, d)
      && (p.catalogs[d].nextCursor.Some? ==> p.catalogs[d].nextCursor.value !in p.catalogs[d].seenCursors)
  {
    R.CursorChainInvariant(actions);
    assert R.ChainHolds(R.TraceRun(actions), d);
  }

  /** Following the answers from one cursor offer to another. */
  predicate Follows(answers: map<string, Answer>, from: Option<string>, cursors: seq<string>, to: Option<string>)
    decreases cursors
  {
    if cursors == [] then from == to
    else
      from == Some(cursors[0]) && cursors[0] in answers
      && Follows(answers, answers[cursors[0]].page.nextCursor, cursors[1..], to)
  }

  function ItemsOf(answers: map<string, Answer>, cursors: seq<string>): seq<SessionView>
    requires forall c :: c in cursors ==> c in answers
  {
    if cursors == [] then []
    else ItemsOf(answers, cursors[..|cursors| - 1]) + answers[cursors[|cursors| - 1]].page.items
  }

  lemma {:induction false} FollowOneMore(
    answers: map<string, Answer>, from: Option<string>, cursors: seq<string>, next: string)
    requires Follows(answers, from, cursors, Some(next)) && next in answers
    ensures Follows(answers, from, cursors + [next], answers[next].page.nextCursor)
    decreases cursors
  {
    if cursors != [] {
      assert (cursors + [next])[1..] == cursors[1..] + [next];
      FollowOneMore(answers, answers[cursors[0]].page.nextCursor, cursors[1..], next);
    } else {
      assert (cursors + [next])[1..] == [];
    }
  }

  /** One request advanced both sides by the answered page. */
  ghost predicate Advanced(
    device: Device, p: S.Published, device': Device, p': S.Published, d: DeviceId, answers: map<string, Answer>,
    cursor: string)
    requires Agrees(device, p, d)
  {
    && cursor in answers
    && cursor !in p.catalogs[d].seenCursors
    && Ready(device', p', d)
    && Rows(device') == Rows(device) + answers[cursor].page.items
    && device'.catalog.nextCursor == answers[cursor].page.nextCursor
    && device'.catalog.catalogRevision == device.catalog.catalogRevision
    && p'.catalogs[d].seenCursors == p.catalogs[d].seenCursors + {cursor}
  }

  lemma SettledAdvances(a: Append, device: Device, answers: map<string, Answer>)
    requires a.Accepted() && WellFormed(a.before, a.d) && Agrees(device, a.before, a.d)
    requires a.cursor in answers && answers[a.cursor] == Answer(a.epoch, a.page)
    ensures Advanced(device, a.before, Settled(device, a), a.Outcome().state, a.d, answers, a.cursor)
  {
    SettledAgrees(a, device);
  }

  /** When the event arrives, before the reply or after it, and whether the user still looks at the
      device when the reply comes. */
  datatype Timing = Timing(early: bool, stillActive: bool, late: bool)

  /** The announcements of an accepted page, at whatever times. The reply is never taken for an
      invalid page, and one announcement is enough. */
  method DeliverAnnouncements(
    store: AppStore, ghost a: Append, d: DeviceId, event: SessionsEvent, page: Page, expected: string, timing: Timing)
    requires a.Accepted() && WellFormed(a.before, a.d) && Agrees(store.Of(d), a.before, a.d)
    requires a.d == d && event == a.Event() && page == a.page && expected == a.expected
    modifies store
    ensures store.Of(d) == if timing.early || timing.stillActive || timing.late then Settled(old(store.Of(d)), a)
                           else old(store.Of(d))
  {
    ghost var device := store.Of(d);
    EventSettles(a, device);
    ReplySettles(a, device);
    RepeatIsIdle(a, device, TheEvent);
    RepeatIsIdle(a, device, TheReply);
    ReplyIsTaken(a, device);
    if timing.early {
      var _ := store.CommitAction(d, CatalogLoaded(event));
    }
    assert store.Of(d) == if timing.early then Settled(device, a) else device;
    if timing.stillActive && store.Of(d).catalog.catalogRevision == Some(expected) {
      var taken := store.CommitAction(
        d, PageLoaded(PageReply(d, event.revision, page), PageMode.Append(Some(expected))));
      assert !taken.Stale?;
    }
    assert store.Of(d) == if timing.early || timing.stillActive then Settled(device, a) else device;
    if timing.late {
      var _ := store.CommitAction(d, CatalogLoaded(event));
    }
  }

  /** A failed read or a refused page: the catalog of the backend has moved, and then the client
      drops its own before it refreshes, or anything else, and then the error can be retried. */
  method SettleFailure(store: AppStore, d: DeviceId, catalogRevision: string, cursor: string)
    requires store.Of(d).catalog.catalogRevision == Some(catalogRevision)
    requires store.Of(d).catalog.nextCursor == Some(cursor)
    modifies store
    ensures store.Of(d).rows == old(store.Of(d)).rows
    ensures || store.Of(d).catalog == IDLE_CATALOG
            || exists error :: store.Of(d).catalog ==
                 old(store.Of(d)).catalog.(loadingMore := false, loadMoreError := Some(error))
  {
    var catalogChanged: bool := *;
    if catalogChanged {
      var _ := store.CommitAction(d, CatalogInvalidated(catalogRevision, cursor));
    } else {
      var _ := store.CommitAction(d, LoadMoreFailed(catalogRevision, cursor, "page failed"));
    }
  }

  /** Marks a request for more, if there is more and none is under way. Marked, it keeps a second one
      from being made until it is settled. */
  method BeginLoadMore(store: AppStore, d: DeviceId) returns (request: Option<(string, string)>)
    modifies store
    ensures var c := old(store.Of(d)).catalog;
            request.Some? <==>
              c.paginationSupported && c.hasMore && c.nextCursor != None && c.catalogRevision != None && !c.loadingMore
    ensures request.Some? ==>
              var c := old(store.Of(d)).catalog;
              && c.catalogRevision == Some(request.value.0) && c.nextCursor == Some(request.value.1)
              && store.Of(d) == old(store.Of(d)).(catalog := c.(loadingMore := true, loadMoreError := None))
    ensures request.None? ==> store.Of(d) == old(store.Of(d))
  {
    var catalog := store.Of(d).catalog;
    var cursor, catalogRevision := catalog.nextCursor, catalog.catalogRevision;
    if !catalog.paginationSupported || !catalog.hasMore || cursor.None? || catalogRevision.None?
       || catalog.loadingMore
    {
      return None;
    }
    var _ := store.CommitAction(d, LoadMoreStarted(catalogRevision.value, cursor.value));
    return Some((catalogRevision.value, cursor.value));
  }

  /** The append that a request of this client asks for. */
  ghost function AskedFor(device: Device, p: S.Published, d: DeviceId, answer: Answer): Append
    requires device.catalog.nextCursor.Some? && device.catalog.catalogRevision.Some?
  {
    Append.Append(p, d, device.catalog.nextCursor.value, device.catalog.catalogRevision.value, answer.epoch,
                  answer.page)
  }

  /** The request fails: it is not allowed, the device does not answer it, or the page is refused. */
  ghost predicate RequestFails(device: Device, p: S.Published, d: DeviceId, answers: map<string, Answer>)
    requires device.catalog.nextCursor.Some? && device.catalog.catalogRevision.Some?
  {
    || !S.PageRequestAllowed(p, d, device.catalog.nextCursor, device.catalog.catalogRevision)
    || device.catalog.nextCursor.value !in answers
    || !AskedFor(device, p, d, answers[device.catalog.nextCursor.value]).Accepted()
  }

  /** Loads the page behind the client's cursor. */
  method LoadMoreSessions(
    server: PublishedResources, store: AppStore, d: DeviceId, answers: map<string, Answer>, timing: Timing)
    returns (requested: Option<string>)
    requires Ready(store.Of(d), server.View(), d)
    modifies server, store
    ensures requested.Some? <==>
            old(store.Of(d)).catalog.hasMore && old(store.Of(d)).catalog.paginationSupported
            && old(store.Of(d)).catalog.catalogRevision.Some? && !old(store.Of(d)).catalog.loadingMore
    ensures requested.None? ==> store.Of(d) == old(store.Of(d)) && server.View() == old(server.View())
    ensures requested.Some? ==>
              var before, after := old(store.Of(d)), store.Of(d);
              && requested == before.catalog.nextCursor
              && if RequestFails(before, old(server.View()), d, answers) then
                   && after.rows == before.rows
                   && (after.catalog == IDLE_CATALOG
                       || (after.catalog.nextCursor == requested && !after.catalog.loadingMore
                           && after.catalog.loadMoreError.Some?))
                 else
                   && server.View() == AskedFor(before, old(server.View()), d, answers[requested.value]).Outcome().state
                   && if timing.early || timing.stillActive || timing.late
                      then Advanced(before, old(server.View()), after, server.View(), d, answers, requested.value)
                           && !after.catalog.loadingMore
                      else after == before.(catalog := before.catalog.(loadingMore := true, loadMoreError := None))
  {
    var request := BeginLoadMore(store, d);
    if request.None? {
      return None;
    }
    var (catalogRevision, cursor) := request.value;
    requested := Some(cursor);
    ghost var device, before := store.Of(d), server.View();
    var epoch, refusal := server.ValidateSessionPageRequest(d, requested, Some(catalogRevision));
    if refusal.Some? || cursor !in answers {
      SettleFailure(store, d, catalogRevision, cursor);
      return;
    }
    var answer := answers[cursor];
    var outcome := server.PublishSessionPage(d, requested, Some(catalogRevision), answer.epoch, answer.page);
    if outcome.Refused? {
      SettleFailure(store, d, catalogRevision, cursor);
      return;
    }
    ghost var a := AskedFor(device, before, d, answer);
    SettledAdvances(a, device, answers);
    DeliverAnnouncements(store, a, d, outcome.event, answer.page, catalogRevision, timing);
  }

  lemma FewerUnseen(keys: set<string>, seen: set<string>, cursor: string)
    requires cursor in keys && cursor !in seen
    ensures |keys - (seen + {cursor})| < |keys - seen|
  {
    assert keys - (seen + {cursor}) == (keys - seen) - {cursor};
  }

  lemma {:induction false} DistinctCursorsAreFew(cursors: seq<string>, keys: set<string>)
    requires NoDuplicates(cursors) && forall c :: c in cursors ==> c in keys
    ensures |cursors| <= |keys|
  {
    if cursors != [] {
      var last := cursors[|cursors| - 1];
      forall c | c in cursors[..|cursors| - 1] ensures c in keys - {last} {
        var i :| 0 <= i < |cursors| - 1 && cursors[i] == c;
        assert cursors[i] != cursors[|cursors| - 1];
      }
      DistinctCursorsAreFew(cursors[..|cursors| - 1], keys - {last});
    }
  }

  /** What the loop has achieved since `start`. */
  ghost predicate Progress(
    start: Device, device: Device, p: S.Published, d: DeviceId, answers: map<string, Answer>, pages: seq<string>)
  {
    && Ready(device, p, d)
    && NoDuplicates(pages)
    && (forall c :: c in pages ==> c in answers && c in p.catalogs[d].seenCursors)
    && Follows(answers, start.catalog.nextCursor, pages, device.catalog.nextCursor)
    && Rows(device) == Rows(start) + ItemsOf(answers, pages)
  }

  /** The measure of the loop: cursors the backend has not consumed yet. */
  function Unseen(p: S.Published, d: DeviceId, answers: map<string, Answer>): nat {
    if d in p.catalogs then |answers.Keys - p.catalogs[d].seenCursors| else 0
  }

  lemma NextCursorIsNew(
    start: Device, device: Device, p: S.Published, d: DeviceId, answers: map<string, Answer>, pages: seq<string>)
    requires Progress(start, device, p, d, answers, pages)
    ensures |pages| <= |answers|
    ensures device.catalog.nextCursor.Some? ==> NoDuplicates(pages + [device.catalog.nextCursor.value])
  {
    DistinctCursorsAreFew(pages, answers.Keys);
  }

  lemma ProgressGrows(
    start: Device, device: Device, p: S.Published, device': Device, p': S.Published, d: DeviceId,
    answers: map<string, Answer>, pages: seq<string>, cursor: string)
    requires Progress(start, device, p, d, answers, pages)
    requires device.catalog.nextCursor == Some(cursor)
    requires Advanced(device, p, device', p', d, answers, cursor)
    ensures Progress(start, device', p', d, answers, pages + [cursor])
    ensures Unseen(p', d, answers) < Unseen(p, d, answers)
  {
    NextCursorIsNew(start, device, p, d, answers, pages);
    FewerUnseen(answers.Keys, p.catalogs[d].seenCursors, cursor);
    FollowOneMore(answers, start.catalog.nextCursor, pages, cursor);
    assert (pages + [cursor])[..|pages|] == pages;
    assert Rows(start) + (ItemsOf(answers, pages) + answers[cursor].page.items)
        == Rows(start) + ItemsOf(answers, pages) + answers[cursor].page.items;
  }

  /** One turn of the loop: ask for the next page, and go on only if that moved the cursor. */
  method Turn(
    server: PublishedResources, store: AppStore, d: DeviceId, answers: map<string, Answer>, ghost start: Device,
    ghost pages: seq<string>)
    returns (again: bool, requested: Option<string>)
    requires Progress(start, store.Of(d), server.View(), d, answers, pages)
    modifies server, store
    ensures requested.Some? ==> NoDuplicates(pages + [requested.value])
    ensures requested.Some? <==>
            old(store.Of(d)).catalog.hasMore && old(store.Of(d)).catalog.paginationSupported
            && old(store.Of(d)).catalog.catalogRevision.Some? && !old(store.Of(d)).catalog.loadingMore
    ensures again <==>
            requested.Some? && store.Of(d).catalog.catalogRevision == old(store.Of(d)).catalog.catalogRevision
            && store.Of(d).catalog.nextCursor != requested
    ensures requested.Some? && !again ==>
              store.Of(d).catalog.nextCursor == requested || store.Of(d).catalog == IDLE_CATALOG
    ensures requested.None? ==> store.Of(d) == old(store.Of(d))
    ensures again ==>
              && requested.Some?
              && Progress(start, store.Of(d), server.View(), d, answers, pages + [requested.value])
              && Unseen(server.View(), d, answers) < old(Unseen(server.View(), d, answers))
  {
    ghost var device, p := store.Of(d), server.View();
    NextCursorIsNew(start, device, p, d, answers, pages);
    var before := store.Of(d).catalog;
    if before.loadingMore {
      return false, None;
    }
    var timing: Timing := *;
    requested := LoadMoreSessions(server, store, d, answers, timing);
    var after := store.Of(d).catalog;
    if after.catalogRevision != before.catalogRevision || after.nextCursor == before.nextCursor {
      return false, requested;
    }
    ProgressGrows(start, device, p, store.Of(d), server.View(), d, answers, pages, requested.value);
    return true, requested;
  }

  lemma ProgressIsBounded(
    start: Device, device: Device, p: S.Published, d: DeviceId, answers: map<string, Answer>, pages: seq<string>)
    requires Progress(start, device, p, d, answers, pages)
    ensures NoDuplicates(pages) && |pages| <= |answers| && forall c :: c in pages ==> c in answers
  {
    DistinctCursorsAreFew(pages, answers.Keys);
  }

  /** The client holds the whole chain: it agrees with a backend that has no further cursor, and
      its rows grew by exactly the pages from the starting cursor to the end. */
  ghost predicate Complete(
    start: Device, device: Device, p: S.Published, d: DeviceId, answers: map<string, Answer>, pages: seq<string>)
  {
    && Agrees(device, p, d)
    && p.catalogs[d].nextCursor.None?
    && Follows(answers, start.catalog.nextCursor, pages, None)
    && (forall c :: c in pages ==> c in answers)
    && Rows(device) == Rows(start) + ItemsOf(answers, pages)
  }

  lemma ProgressStarts(start: Device, p: S.Published, d: DeviceId, answers: map<string, Answer>)
    requires Ready(start, p, d)
    ensures Progress(start, start, p, d, answers, [])
  {
    assert Rows(start) + [] == Rows(start);
  }

  lemma ProgressCompletes(
    start: Device, device: Device, p: S.Published, d: DeviceId, answers: map<string, Answer>, pages: seq<string>)
    requires Progress(start, device, p, d, answers, pages) && !device.catalog.hasMore
    ensures Complete(start, device, p, d, answers, pages)
  {
  }

  /** Runs the loop until the client has no more pages, or a page failed to arrive. `pages` are
      the cursors that brought a page, in order; `unanswered` is a last request that brought none. */
  method DownloadAllPages(server: PublishedResources, store: AppStore, d: DeviceId, answers: map<string, Answer>)
    returns (finished: bool, ghost pages: seq<string>, unanswered: Option<string>)
    requires Ready(store.Of(d), server.View(), d)
    modifies server, store
    ensures NoDuplicates(pages) && |pages| <= |answers| && forall c :: c in pages ==> c in answers
    ensures unanswered.Some? ==> NoDuplicates(pages + [unanswered.value])
    ensures finished ==> Complete(old(store.Of(d)), store.Of(d), server.View(), d, answers, pages)
    ensures finished ==> !store.Of(d).catalog.hasMore
    ensures !finished ==>
              var c := store.Of(d).catalog;
              if unanswered.Some? then c.nextCursor == unanswered || c == IDLE_CATALOG
              else c.hasMore && (c.loadingMore || !c.paginationSupported || c.catalogRevision == None)
  {
    hide Progress, Complete, Ready, NoDuplicates;
    ghost var start := store.Of(d);
    pages := [];
    ProgressStarts(start, server.View(), d, answers);
    while store.Of(d).catalog.hasMore
      invariant Progress(start, store.Of(d), server.View(), d, answers, pages)
      decreases Unseen(server.View(), d, answers)
    {
      ProgressIsBounded(start, store.Of(d), server.View(), d, answers, pages);
      var again, requested := Turn(server, store, d, answers, start, pages);
      if !again {
        return false, pages, requested;
      }
      pages := pages + [requested.value];
    }
    ProgressIsBounded(start, store.Of(d), server.View(), d, answers, pages);
    ProgressCompletes(start, store.Of(d), server.View(), d, answers, pages);
    return true, pages, None;
  }
}
