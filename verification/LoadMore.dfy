/** Both announcements of one accepted append lead the client to the same place, whichever
    arrives first, however often, and even when one of them is lost. */
module LoadMore {
  import opened Prelude
  import opened SessionTypes
  import S = ServerCatalog
  import opened ClientCatalog

  datatype Delivery = TheEvent | TheReply

  /** One accepted append: where it was published from, and its two announcements. */
  datatype Append = Append(
    before: S.Published, d: DeviceId, cursor: string, expected: string, epoch: nat, page: Page)
  {
    function Outcome(): S.Outcome {
      S.PublishPage(before, d, Some(cursor), Some(expected), epoch, page)
    }

    predicate Accepted() {
      Outcome().Accepted?
    }

    function Event(): SessionsEvent
      requires Accepted()
    {
      Outcome().event
    }

    function Reply(): PageReply
      requires Accepted()
    {
      PageReply(d, Event().revision, page)
    }

    function Deliver(device: Device, m: Delivery): Device
      requires Accepted()
    {
      match m
      case TheEvent => Commit(device, CatalogLoaded(Event())).0
      case TheReply => Commit(device, PageLoaded(Reply(), PageMode.Append(Some(expected)))).0
    }

    /** How the client takes the reply. */
    function Take(device: Device): CommitResult
      requires Accepted()
    {
      Commit(device, PageLoaded(Reply(), PageMode.Append(Some(expected)))).1
    }

    function DeliverAll(device: Device, ms: seq<Delivery>): Device
      requires Accepted()
      decreases ms
    {
      if ms == [] then device else DeliverAll(Deliver(device, ms[0]), ms[1..])
    }
  }

  /** The row as cached, or the cached row without files plus files kept for that very manifest. */
  predicate RowAgrees(shown: SessionView, cached: SessionView) {
    || shown == cached
    || (cached.files == [] && shown.files != [] && HasUsableVerification(cached)
        && shown == cached.(files := shown.files))
  }

  predicate RowsAgree(shown: seq<SessionView>, cached: seq<SessionView>) {
    |shown| == |cached| && forall k :: 0 <= k < |shown| ==> RowAgrees(shown[k], cached[k])
  }

  /** The client shows what the backend has cached for this device. */
  predicate Agrees(device: Device, p: S.Published, d: DeviceId) {
    && d in p.catalogs && d in p.sessions
    && device.rows.value.Some? && RowsAgree(Rows(device), p.sessions[d].value)
    && device.rows.revision <= p.globalRevision
    && device.catalog.catalogRevision == p.catalogs[d].catalogRevision
    && device.catalog.nextCursor == p.catalogs[d].nextCursor
    && device.catalog.diagnostics == p.catalogs[d].diagnostics
  }

  /** What every reachable live catalog satisfies (ServerRuns.LiveCatalog). */
  predicate WellFormed(p: S.Published, d: DeviceId) {
    && d in p.catalogs && d in p.sessions
    && DistinctIds(p.sessions[d].value)
    && DistinctQuarantine(p.catalogs[d].diagnostics)
  }

  predicate DetailsConsistent(device: Device) {
    forall id :: id in device.catalog.details ==>
      DetailIsPresent(id, device.catalog.details[id], Rows(device), device.catalog.catalogRevision)
  }

  /** The client after the append: its rows and the new page, with the details it already had. */
  function Settled(device: Device, a: Append): Device
    requires a.Accepted()
  {
    var e, rows := a.Event(), Rows(device) + a.page.items;
    Device(
      Loaded(e.revision, rows),
      CatalogState(e.catalogRevision, e.nextCursor, e.hasMore, e.authority, e.paginationSupported,
                   e.unavailableReason, e.capabilities, e.diagnostics, false, None,
                   RetainDetails(device.catalog.details, rows, e.catalogRevision)))
  }

  lemma {:induction false} LastRowOfDistinct(rows: seq<SessionView>, k: nat)
    requires DistinctIds(rows) && k < |rows|
    ensures LastRow(rows, rows[k].id) == Some(rows[k])
  {
    if k < |rows| - 1 {
      LastRowOfDistinct(rows[..|rows| - 1], k);
    }
  }

  /** Replacing rows by the cached rows they agree with keeps every file the client has fetched. */
  lemma ReplaceByExtension(rows: seq<SessionView>, cached: seq<SessionView>, items: seq<SessionView>)
    requires RowsAgree(rows, cached) && DistinctIds(cached) && S.FreshIds(cached, items)
    ensures ReplaceRows(rows, cached + items) == rows + items
  {
    assert forall k :: 0 <= k < |rows| ==> RowAgrees(rows[k], cached[k]) && rows[k].id == cached[k].id;
    forall k | 0 <= k < |cached + items|
      ensures RetainFiles(rows, (cached + items)[k]) == (rows + items)[k]
    {
      if k < |rows| {
        assert DistinctIds(rows);
        LastRowOfDistinct(rows, k);
      } else {
        assert items[k - |rows|].id in S.IdSet(items);
        forall i | 0 <= i < |rows| ensures rows[i].id != items[k - |rows|].id {
          assert cached[i].id in S.IdSet(cached);
        }
      }
    }
  }

  lemma FreshRowsAreNoRepeat(rows: seq<SessionView>, cached: seq<SessionView>, items: seq<SessionView>)
    requires RowsAgree(rows, cached) && S.FreshIds(cached, items)
    ensures !RepeatsIdentity(rows, items)
  {
    assert forall k :: 0 <= k < |rows| ==> RowAgrees(rows[k], cached[k]) && rows[k].id == cached[k].id;
    forall j | 0 <= j < |items|
      ensures !(exists i :: 0 <= i < |rows| && rows[i].id == items[j].id)
    {
      assert items[j].id in S.IdSet(items);
      forall i | 0 <= i < |rows| ensures rows[i].id != items[j].id {
        assert cached[i].id in S.IdSet(cached);
      }
    }
  }

  lemma AppendedRowsStayDistinct(a: Append)
    requires a.Accepted() && WellFormed(a.before, a.d)
    ensures DistinctIds(a.Event().sessions) && DistinctQuarantine(a.Event().diagnostics)
  {
    var rows := a.before.sessions[a.d].value;
    forall i, j | 0 <= i < j < |rows + a.page.items|
      ensures (rows + a.page.items)[i].id != (rows + a.page.items)[j].id
    {
      if i < |rows| <= j {
        assert rows[i].id in S.IdSet(rows) && a.page.items[j - |rows|].id in S.IdSet(a.page.items);
      }
    }
  }

  lemma EventSettles(a: Append, device: Device)
    requires a.Accepted() && WellFormed(a.before, a.d) && Agrees(device, a.before, a.d)
    ensures a.Deliver(device, TheEvent) == Settled(device, a)
  {
    AppendedRowsStayDistinct(a);
    ReplaceByExtension(Rows(device), a.before.sessions[a.d].value, a.page.items);
  }

  lemma ReplySettles(a: Append, device: Device)
    requires a.Accepted() && WellFormed(a.before, a.d) && Agrees(device, a.before, a.d)
    ensures a.Deliver(device, TheReply) == Settled(device, a)
  {
    var cached := a.before.sessions[a.d].value;
    FreshRowsAreNoRepeat(Rows(device), cached, a.page.items);
    assert |cached| > 0 ==> RowAgrees(Rows(device)[|cached| - 1], cached[|cached| - 1]);
    assert FreshQuarantine(device.catalog.diagnostics, a.page.diagnostics);
    assert BoundaryDescends(Rows(device), a.page.items);
  }

  /** Neither client takes the reply for an invalid page: it is news to the one and known to the other. */
  lemma ReplyIsTaken(a: Append, device: Device)
    requires a.Accepted() && WellFormed(a.before, a.d) && Agrees(device, a.before, a.d)
    ensures a.Take(device) == Changed && a.Take(Settled(device, a)) == Unchanged
  {
    var cached := a.before.sessions[a.d].value;
    FreshRowsAreNoRepeat(Rows(device), cached, a.page.items);
    assert |cached| > 0 ==> RowAgrees(Rows(device)[|cached| - 1], cached[|cached| - 1]);
    assert BoundaryDescends(Rows(device), a.page.items);
    assert FreshQuarantine(device.catalog.diagnostics, a.page.diagnostics);
    assert IsSuffix(Rows(device) + a.page.items, a.page.items);
    assert IsSuffix(a.before.catalogs[a.d].diagnostics + a.page.diagnostics, a.page.diagnostics);
  }

  /** A second announcement of the same append changes nothing. */
  lemma RepeatIsIdle(a: Append, device: Device, m: Delivery)
    requires a.Accepted() && WellFormed(a.before, a.d)
    ensures a.Deliver(Settled(device, a), m) == Settled(device, a)
  {
    AppendedRowsStayDistinct(a);
  }

  lemma {:induction false} RepeatsAreIdle(a: Append, device: Device, ms: seq<Delivery>)
    requires a.Accepted() && WellFormed(a.before, a.d)
    ensures a.DeliverAll(Settled(device, a), ms) == Settled(device, a)
  {
    if ms != [] {
      RepeatIsIdle(a, device, ms[0]);
      RepeatsAreIdle(a, device, ms[1..]);
    }
  }

  /** Consistent details match rows that are still there, so none is dropped. */
  lemma DetailsSurviveAppend(a: Append, device: Device)
    requires a.Accepted() && Agrees(device, a.before, a.d) && DetailsConsistent(device)
    ensures Settled(device, a).catalog.details == device.catalog.details
  {
    var details, rows := device.catalog.details, Rows(device);
    assert a.Event().catalogRevision == device.catalog.catalogRevision == Some(a.expected);
    forall id | id in details
      ensures DetailIsPresent(id, details[id], rows + a.page.items, a.Event().catalogRevision)
    {
      var k :| 0 <= k < |rows| && rows[k].id == id
               && DetailMatches(details[id], rows[k], device.catalog.catalogRevision);
      assert (rows + a.page.items)[k] == rows[k];
    }
  }

  lemma SettledAgrees(a: Append, device: Device)
    requires a.Accepted() && WellFormed(a.before, a.d) && Agrees(device, a.before, a.d)
    ensures Agrees(Settled(device, a), a.Outcome().state, a.d)
    ensures WellFormed(a.Outcome().state, a.d)
  {
    AppendedRowsStayDistinct(a);
  }

  /** Any non-empty sequence of the two announcements gives one and the same client, and that
      client agrees with the backend's new cache; its rows, with the files it has fetched, and
      consistent details survive unchanged. */
  lemma {:induction false} LoadMoreConfluence(a: Append, device: Device, ms: seq<Delivery>)
    requires a.Accepted() && WellFormed(a.before, a.d) && Agrees(device, a.before, a.d)
    requires ms != []
    ensures a.DeliverAll(device, ms) == Settled(device, a)
    ensures Agrees(a.DeliverAll(device, ms), a.Outcome().state, a.d)
    ensures WellFormed(a.Outcome().state, a.d)
    ensures DetailsConsistent(device) ==>
              a.DeliverAll(device, ms).catalog.details == device.catalog.details
  {
    assert a.Deliver(device, ms[0]) == Settled(device, a) by {
      match ms[0] {
        case TheEvent => EventSettles(a, device);
        case TheReply => ReplySettles(a, device);
      }
    }
    RepeatsAreIdle(a, device, ms[1..]);
    SettledAgrees(a, device);
    if DetailsConsistent(device) {
      DetailsSurviveAppend(a, device);
    }
  }
}
