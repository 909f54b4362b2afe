/** The detail map of a client catalog, over every sequence of client actions. */
module DetailStates {
  import opened Prelude
  import opened SessionTypes
  import S = ServerCatalog
  import R = ServerRuns
  import opened ClientCatalog
  import opened LoadMore

  function CommitAll(device: Device, actions: seq<Action>): Device {
    if actions == [] then device
    else Commit(CommitAll(device, actions[..|actions| - 1]), actions[|actions| - 1]).0
  }

  /** Every detail entry belongs to the current catalog revision and a row shown now. */
  predicate Sound(device: Device) {
    DetailsConsistent(device) && device.rows.lastGood == device.rows.value
  }

  lemma RetainedDetailsAreConsistent(
    details: map<string, DetailState>, rows: seq<SessionView>, catalogRevision: Option<string>)
    ensures forall id :: id in RetainDetails(details, rows, catalogRevision) ==>
              DetailIsPresent(id, RetainDetails(details, rows, catalogRevision)[id], rows, catalogRevision)
  {
  }

  /** Substituting a row by a detail of the same id leaves every other match in place. */
  lemma SubstitutionKeepsMatches(
    rows: seq<SessionView>, detail: SessionView, id: string, entry: DetailState, catalogRevision: Option<string>)
    requires id != detail.id && DetailIsPresent(id, entry, rows, catalogRevision)
    ensures DetailIsPresent(id, entry, SubstituteRow(rows, detail), catalogRevision)
  {
    var k :| 0 <= k < |rows| && rows[k].id == id && DetailMatches(entry, rows[k], catalogRevision);
    assert SubstituteRow(rows, detail)[k] == rows[k];
  }

  lemma DetailCommitKeepsSound(device: Device, a: Action)
    requires Sound(device) && a.DetailLoaded?
    ensures Sound(Commit(device, a).0)
  {
    var after := Commit(device, a).0;
    if after != device {
      var k :| 0 <= k < |Rows(device)| && Rows(device)[k].id == a.detail.id
               && Rows(device)[k].revision == a.sessionRevision
               && UsableManifest(Rows(device)[k]) == Some(a.manifestSha256);
      assert Rows(after)[k] == a.detail;
      forall id | id in after.catalog.details
        ensures DetailIsPresent(id, after.catalog.details[id], Rows(after), after.catalog.catalogRevision)
      {
        if id != a.detail.id {
          SubstitutionKeepsMatches(Rows(device), a.detail, id, device.catalog.details[id],
                                   device.catalog.catalogRevision);
        } else {
          assert DetailMatches(after.catalog.details[id], Rows(after)[k], after.catalog.catalogRevision);
        }
      }
    }
  }

  lemma StepKeepsSound(device: Device, a: Action)
    requires Sound(device) && !a.SessionsLoaded?
    ensures Sound(Commit(device, a).0)
  {
    var after := Commit(device, a).0;
    if a.DetailLoaded? {
      DetailCommitKeepsSound(device, a);
    } else if a.CatalogLoaded? || a.PageLoaded? {
      RetainedDetailsAreConsistent(device.catalog.details, Rows(after), after.catalog.catalogRevision);
    } else if (a.DetailStarted? || a.DetailFailed?) && after != device {
      var k :| 0 <= k < |Rows(device)| && Rows(device)[k].id == a.sessionId
               && Rows(device)[k].revision == a.sessionRevision
               && UsableManifest(Rows(device)[k]) == Some(a.manifestSha256);
      assert DetailMatches(after.catalog.details[a.sessionId], Rows(after)[k], after.catalog.catalogRevision);
    }
  }

  /** From an idle client, every action sequence without a bare `sessions/loaded`. */
  lemma {:induction false} DetailsStayConsistent(actions: seq<Action>)
    requires forall n :: 0 <= n < |actions| ==> !actions[n].SessionsLoaded?
    ensures Sound(CommitAll(IDLE_DEVICE, actions))
  {
    if actions != [] {
      DetailsStayConsistent(actions[..|actions| - 1]);
      StepKeepsSound(CommitAll(IDLE_DEVICE, actions[..|actions| - 1]), actions[|actions| - 1]);
    }
  }

  /** The excepted action swaps the rows under an unchanged catalog, so it keeps the details
      sound exactly when each of them still matches a loaded row. */
  lemma BareRowsKeepDetailsIff(device: Device, revision: int, sessions: seq<SessionView>)
    requires Sound(device)
    ensures Sound(Commit(device, SessionsLoaded(revision, sessions)).0) <==>
            revision < device.rows.revision
            || forall id :: id in device.catalog.details ==>
                 DetailIsPresent(id, device.catalog.details[id], sessions, device.catalog.catalogRevision)
  {
    var after := Commit(device, SessionsLoaded(revision, sessions)).0;
    if revision >= device.rows.revision {
      assert Rows(after) == sessions;
    }
  }

  function Zeros(n: nat): (s: string)
    ensures |s| == n && forall k :: 0 <= k < n ==> s[k] == '0'
  {
    if n == 0 then "" else "0" + Zeros(n - 1)
  }

  /** A well-formed digest. */
  const DIGEST := Zeros(64)

  function VerifiedRow(id: string, at: int, files: seq<SessionFile>): SessionView {
    SessionView(id, "r", Instant("t", at), 0, files, NotDownloaded, false,
                Some(Verification(Usable, "gateway", "v", DIGEST, "now", true)))
  }

  lemma VerifiedRowIsUsable(id: string, at: int, files: seq<SessionFile>)
    ensures UsableManifest(VerifiedRow(id, at, files)) == Some(DIGEST)
  {
    assert |DIGEST| == 64 && forall k :: 0 <= k < 64 ==> DIGEST[k] == '0';
  }

  /** Once a detail reply is committed, no event at or below its revision changes the client. */
  lemma DetailReplyOutranksEarlierEvents(device: Device, a: Action, e: SessionsEvent)
    requires a.DetailLoaded? && Commit(device, a).1 == Changed
    requires e.revision <= a.revision
    ensures Commit(Commit(device, a).0, CatalogLoaded(e)).0 == Commit(device, a).0
    ensures Rows(Commit(device, a).0) == SubstituteRow(Rows(device), a.detail)
  {
  }

  // ---------------------------------------------------------------- a detail reply and the cache

  /** One accepted detail: the cache it was published over, and its reply. */
  datatype Detail = Detail(
    before: S.Published, d: DeviceId, catalogRevision: Option<string>, epoch: nat, row: SessionView, manifest: string)
  {
    function Outcome(): S.Outcome {
      S.PublishDetail(before, d, catalogRevision, epoch, row)
    }

    predicate Accepted() {
      Outcome().Accepted?
    }

    function After(): S.Published {
      Outcome().state
    }

    function Reply(): Action
      requires Accepted()
    {
      DetailLoaded(Outcome().event.revision, row, row.revision, catalogRevision, manifest)
    }

    /** The reply is news to the client, and its row is there to be substituted. */
    predicate Lands(device: Device)
      requires Accepted()
    {
      Commit(device, Reply()).1 == Changed
    }
  }

  /** The client agrees with the cache but for the row of this id, which it has at the same place. */
  predicate AgreesExceptRow(device: Device, p: S.Published, d: DeviceId, id: string) {
    && d in p.catalogs && d in p.sessions
    && |Rows(device)| == |p.sessions[d].value|
    && (forall k :: 0 <= k < |Rows(device)| ==>
          var shown, cached := Rows(device)[k], p.sessions[d].value[k];
          if cached.id == id then shown.id == id else RowAgrees(shown, cached))
    && device.catalog.nextCursor == p.catalogs[d].nextCursor
    && device.catalog.diagnostics == p.catalogs[d].diagnostics
  }

  /** What the cache holds after the detail, row by row. */
  lemma DetailReplacesItsRow(x: Detail)
    requires x.Accepted() && WellFormed(x.before, x.d)
    ensures x.d in x.After().sessions && x.d in x.After().catalogs
    ensures
      var cached, after := x.before.sessions[x.d].value, x.After().sessions[x.d].value;
      && |after| == |cached|
      && (forall k :: 0 <= k < |cached| ==> after[k] == if cached[k].id == x.row.id then x.row else cached[k])
      && x.After().catalogs[x.d] == x.before.catalogs[x.d]
      && x.before.catalogs[x.d].catalogRevision == x.catalogRevision
      && x.After().globalRevision == x.Outcome().event.revision == x.before.globalRevision + 1
  {
  }

  lemma LandedRows(x: Detail, device: Device)
    requires x.Accepted() && x.Lands(device)
    ensures
      var end := Commit(device, x.Reply()).0;
      && end.rows.value == Some(SubstituteRow(Rows(device), x.row))
      && end.rows.revision == x.Outcome().event.revision
      && end.catalog.nextCursor == device.catalog.nextCursor
      && end.catalog.diagnostics == device.catalog.diagnostics
      && end.catalog.catalogRevision == device.catalog.catalogRevision == x.catalogRevision
  {
  }

  /** A detail reply that lands leaves the client in agreement with the backend exactly when the
      client already agreed with the cache the detail was published over, up to the row it brings. */
  lemma DetailReplyKeepsAgreementIff(x: Detail, device: Device)
    requires x.Accepted() && WellFormed(x.before, x.d) && x.Lands(device)
    ensures Agrees(Commit(device, x.Reply()).0, x.After(), x.d) <==>
            AgreesExceptRow(device, x.before, x.d, x.row.id)
  {
    hide S.PublishDetail, Commit, UsableManifest;
    DetailReplacesItsRow(x);
    LandedRows(x, device);
    var shown, cached, after := Rows(device), x.before.sessions[x.d].value, x.After().sessions[x.d].value;
    var end := Commit(device, x.Reply()).0;
    if |shown| == |cached| {
      forall k | 0 <= k < |shown|
        ensures RowAgrees(Rows(end)[k], after[k]) <==>
                if cached[k].id == x.row.id then shown[k].id == x.row.id else RowAgrees(shown[k], cached[k])
      {
        assert RowAgrees(shown[k], cached[k]) ==> shown[k].id == cached[k].id;
        assert RowAgrees(Rows(end)[k], after[k]) ==> Rows(end)[k].id == after[k].id;
      }
    }
  }

  function CommitEvents(device: Device, events: seq<SessionsEvent>): Device
    decreases |events|
  {
    if events == [] then device else CommitEvents(Commit(device, CatalogLoaded(events[0])).0, events[1..])
  }

  /** Events no newer than the reply come too late: whatever they were, the client stays as it is. */
  lemma {:induction false} LateEventsAreIdle(device: Device, events: seq<SessionsEvent>)
    requires forall n :: 0 <= n < |events| ==> events[n].revision <= device.rows.revision
    ensures CommitEvents(device, events) == device
    decreases |events|
  {
    hide ShowsEvent;
    if events != [] {
      assert Commit(device, CatalogLoaded(events[0])).0 == device;
      LateEventsAreIdle(device, events[1..]);
    }
  }

  /** So the condition at delivery decides for as long as no newer event arrives. */
  lemma AgreementWaitsForNews(x: Detail, device: Device, events: seq<SessionsEvent>)
    requires x.Accepted() && WellFormed(x.before, x.d) && x.Lands(device)
    requires forall n :: 0 <= n < |events| ==> events[n].revision <= x.Outcome().event.revision
    ensures Agrees(CommitEvents(Commit(device, x.Reply()).0, events), x.After(), x.d) <==>
            AgreesExceptRow(device, x.before, x.d, x.row.id)
  {
    hide S.PublishDetail, Commit, Agrees, AgreesExceptRow, WellFormed, CommitEvents;
    LandedRows(x, device);
    LateEventsAreIdle(Commit(device, x.Reply()).0, events);
    DetailReplyKeepsAgreementIff(x, device);
  }

  lemma KeptRowAgrees(existing: seq<SessionView>, candidate: SessionView)
    ensures RowAgrees(RetainFiles(existing, candidate), candidate)
  {
  }

  /** The event of any accepted page or detail that is news to the client ends the disagreement. */
  lemma EventBringsAgreement(p: S.Published, a: R.Action, device: Device)
    requires (a.PageAction? || a.DetailAction?) && R.Publishes(p, a) && WellFormed(R.Apply(p, a), a.d)
    requires device.rows.revision <= p.globalRevision
    ensures Agrees(Commit(device, CatalogLoaded(R.Attempt(p, a).value.event)).0, R.Apply(p, a), a.d)
  {
    hide S.OrderedAppend, S.FreshIds, S.FreshDiagnostics, S.ContinuesChain, S.ValidMetadata, HasRow, S.FirstRow;
    hide UsableManifest, RetainDetails;
    var e := R.Attempt(p, a).value.event;
    var rows := if e.catalogRevision.None? then e.sessions else ReplaceRows(Rows(device), e.sessions);
    assert RowsAgree(rows, e.sessions) by {
      forall k | 0 <= k < |rows| ensures RowAgrees(rows[k], e.sessions[k]) {
        KeptRowAgrees(Rows(device), e.sessions[k]);
      }
    }
  }

  // ---------------------------------------------------------------- overtaken announcements

  lemma AppendSpendsCursor(a: Append, device: Device, x: Detail)
    requires a.Accepted() && WellFormed(a.before, a.d) && Agrees(device, a.before, a.d)
    requires x.Accepted() && x.before == a.Outcome().state && x.d == a.d
    ensures device.catalog.nextCursor == Some(a.cursor) != x.before.catalogs[a.d].nextCursor
    ensures a.cursor in x.After().catalogs[a.d].seenCursors
    ensures x.After().sessions[a.d].revision == x.After().globalRevision == x.Outcome().event.revision
    ensures !AgreesExceptRow(device, x.before, a.d, x.row.id)
  {
  }

  /** An append and then a detail, both accepted by the backend, and the client hears of the detail
      reply first: whatever was appended, and however many of the older events follow, it sits at
      the backend's newest revision, disagrees with it and holds a spent cursor. */
  lemma OvertakenAppendNeverAgrees(a: Append, x: Detail, device: Device, events: seq<SessionsEvent>)
    requires a.Accepted() && WellFormed(a.before, a.d) && Agrees(device, a.before, a.d)
    requires x.Accepted() && x.before == a.Outcome().state && x.d == a.d && x.Lands(device)
    requires forall n :: 0 <= n < |events| ==> events[n].revision <= x.Outcome().event.revision
    ensures
      var end := CommitEvents(Commit(device, x.Reply()).0, events);
      && end.rows.revision == x.After().sessions[a.d].revision == x.After().globalRevision
      && !Agrees(end, x.After(), a.d)
      && end.catalog.nextCursor == Some(a.cursor) && a.cursor in x.After().catalogs[a.d].seenCursors
      && !S.PageRequestAllowed(x.After(), a.d, end.catalog.nextCursor, end.catalog.catalogRevision)
  {
    SettledAgrees(a, device);
    AgreementWaitsForNews(x, device, events);
    AppendSpendsCursor(a, device, x);
    LandedRows(x, device);
    LateEventsAreIdle(Commit(device, x.Reply()).0, events);
  }

  lemma DetailKeepsWellFormed(x: Detail)
    requires x.Accepted() && WellFormed(x.before, x.d)
    ensures WellFormed(x.After(), x.d)
  {
    hide S.PublishDetail;
    DetailReplacesItsRow(x);
  }

  lemma LateDetailIsIdle(x: Detail, device: Device)
    requires x.Accepted() && x.Outcome().event.revision < device.rows.revision
    ensures Commit(device, x.Reply()).0 == device
  {
  }

  /** A client one detail behind: up to a row of this id it agrees with the new cache exactly when
      that row is the detail's, or the detail tells it nothing new. */
  lemma BehindOneDetail(x: Detail, device: Device, id: string)
    requires x.Accepted() && WellFormed(x.before, x.d) && Agrees(device, x.before, x.d)
    ensures AgreesExceptRow(device, x.After(), x.d, id) <==>
            x.row.id == id
            || forall k :: 0 <= k < |Rows(device)| && Rows(device)[k].id == x.row.id ==>
                 RowAgrees(Rows(device)[k], x.row)
  {
    hide S.PublishDetail, UsableManifest, CanRetainFiles;
    DetailReplacesItsRow(x);
    var shown, cached, after := Rows(device), x.before.sessions[x.d].value, x.After().sessions[x.d].value;
    assert forall k :: 0 <= k < |shown| ==> RowAgrees(shown[k], cached[k]) && shown[k].id == cached[k].id;
    assert forall k :: 0 <= k < |shown| ==> after[k].id == cached[k].id;
  }

  /** A first detail and then a second, and the client hears of the second reply first: it agrees
      in the end exactly when both were of one row, or the first told it nothing new. */
  lemma OvertakenDetailAgreesIff(first: Detail, second: Detail, device: Device)
    requires first.Accepted() && WellFormed(first.before, first.d) && Agrees(device, first.before, first.d)
    requires second.Accepted() && second.before == first.After() && second.d == first.d && second.Lands(device)
    ensures
      var end := Commit(Commit(device, second.Reply()).0, first.Reply()).0;
      Agrees(end, second.After(), first.d) <==>
      first.row.id == second.row.id
      || forall k :: 0 <= k < |Rows(device)| && Rows(device)[k].id == first.row.id ==>
           RowAgrees(Rows(device)[k], first.row)
  {
    hide S.PublishDetail, Commit, UsableManifest, CanRetainFiles, WellFormed, AgreesExceptRow;
    DetailReplacesItsRow(first);
    DetailKeepsWellFormed(first);
    DetailReplacesItsRow(second);
    LandedRows(second, device);
    LateDetailIsIdle(first, Commit(device, second.Reply()).0);
    DetailReplyKeepsAgreementIff(second, device);
    BehindOneDetail(first, device, second.row.id);
  }

  /** The concrete case: one loaded row, one appended row, one detail of the first. */
  lemma DetailReplyCanHideAnAppend() returns (a: Append, x: Detail, device: Device)
    ensures a.Accepted() && WellFormed(a.before, a.d) && Agrees(device, a.before, a.d) && Sound(device)
    ensures x.Accepted() && x.before == a.Outcome().state && x.d == a.d && x.Lands(device)
    ensures Rows(Commit(device, x.Reply()).0) == [x.row] && a.page.items != []
  {
    var newer, older := VerifiedRow("b", 2, []), VerifiedRow("a", 1, []);
    var detail := VerifiedRow("b", 2, [SessionFile("f", "f", 1, "x")]);
    VerifiedRowIsUsable("b", 2, []);
    VerifiedRowIsUsable("b", 2, [SessionFile("f", "f", 1, "x")]);
    var catalog := S.Catalog(Some("c"), 7, Some("next"), [], {}, DeviceSnapshot, true, None, NO_CAPABILITIES);
    var p := S.Published(1, map["d" := Revisioned(1, [newer])], map["d" := catalog], map["d" := 1]);
    device := Device(Loaded(1, [newer]),
                     CatalogState(Some("c"), Some("next"), true, DeviceSnapshot, true, None, NO_CAPABILITIES, [],
                                  false, None, map[]));
    a := Append.Append(p, "d", "next", "c", 7,
                Page([older], [], None, false, Some("c"), DeviceSnapshot, true, None, NO_CAPABILITIES));
    SmallAppendIsAccepted(p, catalog, newer, older, a);
    var rows := a.Outcome().state.sessions["d"].value;
    assert rows == [newer] + [older] && rows[0].id == "b";
    assert HasRow(rows, "b") && S.FirstRow(rows, "b") == 0;
    assert Rows(device)[0] == newer;
    x := Detail.Detail(a.Outcome().state, "d", Some("c"), 7, detail, DIGEST);
  }

  lemma SmallAppendIsAccepted(
    p: S.Published, catalog: S.Catalog, newer: SessionView, older: SessionView, a: Append)
    requires newer.id != older.id && Newer(newer, older)
    requires catalog == S.Catalog(Some("c"), 7, Some("next"), [], {}, DeviceSnapshot, true, None, NO_CAPABILITIES)
    requires p == S.Published(1, map["d" := Revisioned(1, [newer])], map["d" := catalog], map["d" := 1])
    requires a == Append.Append(p, "d", "next", "c", 7,
                         Page([older], [], None, false, Some("c"), DeviceSnapshot, true, None, NO_CAPABILITIES))
    ensures a.Accepted() && a.Event().sessions == [newer] + [older]
  {
    assert S.IdSet([newer]) == {newer.id} && S.IdSet([older]) == {older.id};
  }
}
