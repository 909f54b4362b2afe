/** What the backend answers about its catalogs, and what it stores, in the fields of requests, pages
    and rows. */
module ServerLaws {
  import opened Prelude
  import opened SessionTypes
  import opened ServerCatalog
  import opened ServerRuns
  import C = ClientCatalog

  // ---------------------------------------------------------------- pages

  /** A page of a device snapshot, or of a device without catalog identity, that says consistently
      whether there is more. */
  ghost predicate PageIsWhole(page: Page) {
    && (page.authority.DeviceSnapshot? ==>
          page.catalogRevision.Some? && page.catalogRevision.value != "" && page.paginationSupported
          && page.unavailableReason == None)
    && (page.authority.AuthorityUnavailable? ==>
          page.catalogRevision == None && !page.paginationSupported
          && page.unavailableReason == Some(CatalogRevisionUnavailable))
    && (page.hasMore <==> page.nextCursor != None)
    && page.nextCursor != Some("")
    && (page.hasMore ==> page.paginationSupported)
  }

  /** No incoming id is known or repeated. */
  ghost predicate IdsFollow(rows: seq<SessionView>, items: seq<SessionView>) {
    var all := rows + items;
    forall i, k :: 0 <= i < k && |rows| <= k < |all| ==> all[i].id != all[k].id
  }

  /** The first is newer, the ids deciding between equal dates. */
  ghost predicate ComesBefore(a: SessionView, b: SessionView) {
    && a.dateLabel.Instant? && b.dateLabel.Instant?
    && (a.dateLabel.at > b.dateLabel.at || (a.dateLabel.at == b.dateLabel.at && TextBefore(b.id, a.id)))
  }

  /** Every incoming row comes after the one before it. */
  ghost predicate DatesFollow(rows: seq<SessionView>, items: seq<SessionView>) {
    && (forall i, j :: 0 <= i < j < |items| && j == i + 1 ==> ComesBefore(items[i], items[j]))
    && (rows != [] && items != [] ==> ComesBefore(rows[|rows| - 1], items[0]))
  }

  ghost predicate RowsFollow(rows: seq<SessionView>, items: seq<SessionView>) {
    IdsFollow(rows, items) && DatesFollow(rows, items)
  }

  ghost predicate DiagnosticsFollow(known: seq<Diagnostic>, items: seq<Diagnostic>) {
    var all := known + items;
    forall k :: |known| <= k < |all| ==> forall i :: 0 <= i < k ==> all[i].quarantineId != all[k].quarantineId
  }

  lemma IdsFollowIff(rows: seq<SessionView>, items: seq<SessionView>)
    ensures IdsFollow(rows, items) <==> FreshIds(rows, items)
  {
    var all := rows + items;
    if IdsFollow(rows, items) {
      forall i, j | 0 <= i < j < |items| ensures items[i].id != items[j].id {
        assert all[|rows| + i].id != all[|rows| + j].id;
      }
      forall i, j | 0 <= i < |rows| && 0 <= j < |items| ensures rows[i].id != items[j].id {
        assert all[i].id != all[|rows| + j].id;
      }
      assert IdSet(rows) * IdSet(items) == {};
    }
    if FreshIds(rows, items) {
      forall i, k | 0 <= i < k && |rows| <= k < |all| ensures all[i].id != all[k].id {
        assert items[k - |rows|].id in IdSet(items);
        if i < |rows| {
          assert rows[i].id in IdSet(rows);
        }
      }
    }
  }

  lemma DatesFollowIff(rows: seq<SessionView>, items: seq<SessionView>)
    ensures DatesFollow(rows, items) <==> OrderedAppend(rows, items)
  {
    assert forall a, b :: ComesBefore(a, b) <==> Newer(a, b);
    hide ComesBefore, Newer;
    if OrderedAppend(rows, items) {
      assert forall i :: 0 <= i < |items| - 1 ==> Newer(items[i], items[i + 1]);
    }
  }

  lemma RowsFollowIff(rows: seq<SessionView>, items: seq<SessionView>)
    ensures RowsFollow(rows, items) <==> FreshIds(rows, items) && OrderedAppend(rows, items)
  {
    IdsFollowIff(rows, items);
    DatesFollowIff(rows, items);
  }

  lemma DiagnosticsFollowIff(known: seq<Diagnostic>, items: seq<Diagnostic>)
    ensures DiagnosticsFollow(known, items) <==> FreshDiagnostics(known, items)
  {
    var all := known + items;
    if DiagnosticsFollow(known, items) {
      forall i, j | 0 <= i < j < |items| ensures items[i].quarantineId != items[j].quarantineId {
        assert all[|known| + i].quarantineId != all[|known| + j].quarantineId;
      }
      forall i, j | 0 <= i < |known| && 0 <= j < |items| ensures known[i].quarantineId != items[j].quarantineId {
        assert all[i].quarantineId != all[|known| + j].quarantineId;
      }
    }
  }

  /** The page comes from the snapshot, the connection and the cursor that the live catalog shows. */
  ghost predicate ReadFromLiveChain(c: Catalog, cursor: string, expected: string, epoch: nat, page: Page) {
    && c.catalogRevision == Some(expected) && page.catalogRevision == Some(expected)
    && epoch == c.connectionEpoch
    && c.nextCursor == Some(cursor) && cursor !in c.seenCursors
    && page.authority == c.authority && page.paginationSupported == c.paginationSupported
    && page.unavailableReason == c.unavailableReason && page.capabilities == c.capabilities
    && page.nextCursor != Some(cursor)
    && (page.nextCursor != None ==> page.nextCursor.value !in c.seenCursors)
  }

  /** Which pages are accepted: a first page without tokens, or the next page of the live chain. */
  lemma PageAcceptedIff(
    p: Published, d: DeviceId, cursor: Option<string>, expected: Option<string>, epoch: nat, page: Page)
    ensures
      PublishPage(p, d, cursor, expected, epoch, page).Accepted? <==>
      && PageIsWhole(page)
      && (|| (cursor == None && expected == None
              && RowsFollow([], page.items) && DiagnosticsFollow([], page.diagnostics))
          || (cursor.Some? && expected.Some? && d in p.catalogs && d in p.sessions
              && ReadFromLiveChain(p.catalogs[d], cursor.value, expected.value, epoch, page)
              && RowsFollow(p.sessions[d].value, page.items)
              && DiagnosticsFollow(p.catalogs[d].diagnostics, page.diagnostics)))
  {
    hide RowsFollow, FreshIds, OrderedAppend, DiagnosticsFollow, FreshDiagnostics;
    RowsFollowIff([], page.items);
    DiagnosticsFollowIff([], page.diagnostics);
    if d in p.sessions && d in p.catalogs {
      RowsFollowIff(p.sessions[d].value, page.items);
      DiagnosticsFollowIff(p.catalogs[d].diagnostics, page.diagnostics);
    }
  }

  /** No other device changes. */
  ghost predicate OthersKept(before: Published, after: Published, d: DeviceId) {
    forall e :: e != d ==>
      && (e in after.sessions <==> e in before.sessions)
      && (e in after.sessions ==> after.sessions[e] == before.sessions[e])
      && (e in after.catalogs <==> e in before.catalogs)
      && (e in after.catalogs ==> after.catalogs[e] == before.catalogs[e])
      && (e in after.sessionRevisions <==> e in before.sessionRevisions)
      && (e in after.sessionRevisions ==> after.sessionRevisions[e] == before.sessionRevisions[e])
  }

  /** One revision was spent, on this device. */
  ghost predicate OneRevisionSpent(before: Published, after: Published, d: DeviceId) {
    && after.globalRevision == before.globalRevision + 1
    && d in after.sessionRevisions && after.sessionRevisions[d] == before.globalRevision + 1
  }

  /** The event shows what is stored. */
  ghost predicate EventShows(e: SessionsEvent, p: Published, d: DeviceId) {
    && d in p.sessions && d in p.catalogs
    && var c := p.catalogs[d];
    && e.device == d && e.revision == p.sessions[d].revision == p.globalRevision && e.sessions == p.sessions[d].value
    && e.diagnostics == c.diagnostics && e.catalogRevision == c.catalogRevision && e.nextCursor == c.nextCursor
    && (e.hasMore <==> c.nextCursor != None) && e.authority == c.authority
    && e.paginationSupported == c.paginationSupported && e.unavailableReason == c.unavailableReason
    && e.capabilities == c.capabilities
  }

  /** What an accepted page leaves: old rows and new ones, the page's catalog, the cursor used up. */
  lemma AcceptedPageIsStored(
    p: Published, d: DeviceId, cursor: Option<string>, expected: Option<string>, epoch: nat, page: Page)
    requires PublishPage(p, d, cursor, expected, epoch, page).Accepted?
    ensures
      var after := PublishPage(p, d, cursor, expected, epoch, page).state;
      var (rows, seen, known) :=
        if cursor == None || d !in p.sessions || d !in p.catalogs then ([], {}, [])
        else (p.sessions[d].value, p.catalogs[d].seenCursors + {cursor.value}, p.catalogs[d].diagnostics);
      && d in after.sessions && after.sessions[d] == Revisioned(p.globalRevision + 1, rows + page.items)
      && d in after.catalogs && after.catalogs[d].connectionEpoch == epoch
      && after.catalogs[d].seenCursors == seen && after.catalogs[d].diagnostics == known + page.diagnostics
      && after.catalogs[d].catalogRevision == page.catalogRevision && after.catalogs[d].nextCursor == page.nextCursor
      && after.catalogs[d].authority == page.authority && after.catalogs[d].capabilities == page.capabilities
      && after.catalogs[d].paginationSupported == page.paginationSupported
      && after.catalogs[d].unavailableReason == page.unavailableReason
      && OneRevisionSpent(p, after, d) && OthersKept(p, after, d)
      && EventShows(PublishPage(p, d, cursor, expected, epoch, page).event, after, d)
  {
  }

  // ---------------------------------------------------------------- details

  /** Row k is the first with the detail's id, and the detail is of this very row. */
  ghost predicate FirstRowMatches(rows: seq<SessionView>, detail: SessionView, k: int) {
    && 0 <= k < |rows| && rows[k].id == detail.id && (forall m :: 0 <= m < k ==> rows[m].id != detail.id)
    && rows[k].revision == detail.revision && rows[k].verification == detail.verification
  }

  /** Which details are accepted, and what they replace; any other changes nothing. */
  lemma DetailAcceptedIff(p: Published, d: DeviceId, catalogRevision: Option<string>, epoch: nat, detail: SessionView)
    ensures
      var outcome := PublishDetail(p, d, catalogRevision, epoch, detail);
      && (outcome.Accepted? <==>
          && d in p.catalogs
          && p.catalogs[d].catalogRevision == catalogRevision && p.catalogs[d].connectionEpoch == epoch
          && d in p.sessions && exists k :: FirstRowMatches(p.sessions[d].value, detail, k))
      && (outcome.Refused? ==> outcome.state == p)
      && (outcome.Accepted? ==>
          && (forall k :: FirstRowMatches(p.sessions[d].value, detail, k) ==>
                d in outcome.state.sessions
                && outcome.state.sessions[d] == Revisioned(p.globalRevision + 1, p.sessions[d].value[k := detail]))
          && d in outcome.state.catalogs && outcome.state.catalogs[d] == p.catalogs[d]
          && OneRevisionSpent(p, outcome.state, d) && OthersKept(p, outcome.state, d)
          && EventShows(outcome.event, outcome.state, d))
  {
    if d in p.sessions && HasRow(p.sessions[d].value, detail.id) {
      var rows := p.sessions[d].value;
      var first := FirstRow(rows, detail.id);
      assert FirstRowMatches(rows, detail, first) <==>
             rows[first].revision == detail.revision && rows[first].verification == detail.verification;
      assert forall k :: FirstRowMatches(rows, detail, k) ==> k == first;
    }
  }

  // ---------------------------------------------------------------- retirement

  /** The device's catalog is gone, and nothing else but revisions may have changed with it. */
  ghost predicate CatalogDropped(before: Published, after: Published, d: DeviceId) {
    d !in after.catalogs && OneRevisionSpent(before, after, d) && OthersKept(before, after, d)
  }

  /** An invalidation drops the catalog of its device and keeps its rows. */
  lemma InvalidationDropsCatalog(p: Published, d: DeviceId)
    ensures
      var after := Apply(p, InvalidateAction(d));
      CatalogDropped(p, after, d) && after.sessions == p.sessions
  {
  }

  /** A full list does so too, with new rows; its event offers nothing to go on with. */
  lemma FullListDropsCatalog(p: Published, d: DeviceId, rows: seq<SessionView>)
    ensures
      var after := Apply(p, FullListAction(d, rows));
      && CatalogDropped(p, after, d)
      && d in after.sessions && after.sessions[d] == Revisioned(p.globalRevision + 1, rows)
    ensures
      Publishes(p, FullListAction(d, rows)) &&
      var e := Attempt(p, FullListAction(d, rows)).value.event;
      && e.device == d && e.revision == p.globalRevision + 1 && e.sessions == rows && e.diagnostics == []
      && e.catalogRevision == None && e.nextCursor == None && !e.hasMore && e.authority == AuthorityUnavailable
      && !e.paginationSupported && e.unavailableReason == Some(CatalogRevisionUnavailable)
      && e.capabilities == (if d in p.catalogs then p.catalogs[d].capabilities
                            else Capabilities(UnknownProfile, false, false, false, false))
  {
  }

  /** The client that hears a full list shows its rows, and has nothing to page or fetch by. */
  lemma FullListClearsClient(p: Published, d: DeviceId, rows: seq<SessionView>, device: C.Device)
    requires device.rows.revision <= p.globalRevision && DistinctIds(rows)
    ensures
      var e := Attempt(p, FullListAction(d, rows)).value.event;
      var after := C.Commit(device, C.CatalogLoaded(e)).0;
      && after.rows.value == Some(rows) && after.rows.revision == p.globalRevision + 1
      && after.catalog.catalogRevision == None && after.catalog.nextCursor == None && !after.catalog.hasMore
      && after.catalog.diagnostics == [] && after.catalog.details == map[]
  {
  }

  ghost predicate Retires(a: Action, d: DeviceId) {
    (a.InvalidateAction? || a.FullListAction?) && a.d == d
  }

  /** After a connection transition or a full list nothing that needs the catalog is granted, however
      the run goes on, until a first page is accepted. */
  lemma NothingGrantedAfterRetirement(p: Published, a: Action, d: DeviceId, actions: seq<Action>)
    requires Retires(a, d)
    requires forall n :: 0 <= n < |actions| ==>
               !PublishesFirstPage(RunFrom(Apply(p, a), actions[..n]), d, actions[n])
    ensures Retired(RunFrom(Apply(p, a), actions), d)
  {
    hide Retired, PublishesFirstPage, RunFrom;
    if a.InvalidateAction? {
      InvalidationDropsCatalog(p, d);
    } else {
      FullListDropsCatalog(p, d, a.rows);
    }
    RetirementIsFinal(Apply(p, a), d, actions);
  }

  // ---------------------------------------------------------------- requests

  /** The first loaded row with an id. */
  ghost predicate FirstWithId(p: Published, d: DeviceId, id: string, row: SessionView) {
    && d in p.sessions
    && exists k :: 0 <= k < |p.sessions[d].value| && p.sessions[d].value[k] == row && row.id == id
                   && forall m :: 0 <= m < k ==> p.sessions[d].value[m].id != id
  }

  /** The old protocol needs no verification; the newer one a usable one whose well-formed digest is
      the revision; an unknown one is refused. */
  ghost predicate RowIsTrusted(profile: Profile, row: SessionView) {
    || profile == LegacyPinnedTlsV1
    || (profile == LabHttpV4 && row.verification.Some?
        && row.verification.value.verdict == Usable && row.verification.value.manifestDigestValid
        && row.revision == "sha256:" + row.verification.value.manifestSha256)
  }

  lemma FirstWithIdIff(p: Published, d: DeviceId, id: string, row: SessionView)
    ensures FirstWithId(p, d, id, row) <==>
            d in p.sessions && HasRow(p.sessions[d].value, id)
            && p.sessions[d].value[FirstRow(p.sessions[d].value, id)] == row
  {
  }

  /** Which details may be read, and what the reader is bound to. */
  lemma DetailGrantedIff(p: Published, d: DeviceId, id: string, revision: string, catalogRevision: Option<string>)
    ensures
      DetailRequestAllowed(p, d, id, revision, catalogRevision) <==>
      && d in p.catalogs && p.catalogs[d].catalogRevision == catalogRevision
      && p.catalogs[d].capabilities.sessionDetail
      && exists row :: FirstWithId(p, d, id, row) && row.revision == revision
                       && RowIsTrusted(p.catalogs[d].capabilities.profile, row)
  {
    hide RowIsTrusted, VerificationAllows, FirstWithId;
    if d in p.sessions && d in p.catalogs && HasRow(p.sessions[d].value, id) {
      var row := p.sessions[d].value[FirstRow(p.sessions[d].value, id)];
      FirstWithIdIff(p, d, id, row);
      TrustIff(p.catalogs[d], row);
    }
    forall row ensures FirstWithId(p, d, id, row) <==>
      d in p.sessions && HasRow(p.sessions[d].value, id)
      && p.sessions[d].value[FirstRow(p.sessions[d].value, id)] == row
    {
      FirstWithIdIff(p, d, id, row);
    }
  }

  lemma TrustIff(c: Catalog, row: SessionView)
    ensures VerificationAllows(c, row) <==> RowIsTrusted(c.capabilities.profile, row)
  {
  }

  /** Which artifacts may be read. */
  lemma ArtifactGrantedIff(p: Published, d: DeviceId, id: string)
    ensures
      ArtifactRequestAllowed(p, d, id) <==>
      && d in p.catalogs && p.catalogs[d].capabilities.artifactDownload && p.catalogs[d].capabilities.sessionDetail
      && exists row :: FirstWithId(p, d, id, row) && RowIsTrusted(p.catalogs[d].capabilities.profile, row)
  {
    hide RowIsTrusted, VerificationAllows, FirstWithId;
    if d in p.sessions && d in p.catalogs && HasRow(p.sessions[d].value, id) {
      var row := p.sessions[d].value[FirstRow(p.sessions[d].value, id)];
      FirstWithIdIff(p, d, id, row);
      TrustIff(p.catalogs[d], row);
    }
    forall row ensures FirstWithId(p, d, id, row) <==>
      d in p.sessions && HasRow(p.sessions[d].value, id)
      && p.sessions[d].value[FirstRow(p.sessions[d].value, id)] == row
    {
      FirstWithIdIff(p, d, id, row);
    }
  }

  /** A reader is bound to the connection of the catalog and to the row as it is loaded. */
  lemma ReaderIsBound(p: Published, d: DeviceId, id: string, row: SessionView)
    requires d in p.catalogs && FirstWithId(p, d, id, row)
    ensures d in p.sessions && HasRow(p.sessions[d].value, id)
    ensures AuthorizationFor(p, d, id) ==
            ReadAuthorization(p.catalogs[d].connectionEpoch, row.revision, row.verification)
  {
    FirstWithIdIff(p, d, id, row);
  }

  /** A catalog that offers a cursor can be asked for it. */
  ghost predicate OffersAreUsable(p: Published) {
    forall d :: d in p.catalogs && p.catalogs[d].nextCursor.Some? ==>
      var c := p.catalogs[d];
      && c.nextCursor.value != "" && c.nextCursor.value !in c.seenCursors && c.paginationSupported
      && c.catalogRevision.Some? && c.catalogRevision.value != ""
  }

  lemma StepKeepsOffers(p: Published, a: Action)
    requires OffersAreUsable(p)
    ensures OffersAreUsable(Apply(p, a))
  {
    hide FreshIds, OrderedAppend, FreshDiagnostics, EventOf;
  }

  lemma {:induction false} OffersStayUsable(actions: seq<Action>)
    ensures OffersAreUsable(RunFrom(NOTHING_PUBLISHED, actions))
  {
    hide Apply;
    if actions != [] {
      OffersStayUsable(actions[..|actions| - 1]);
      StepKeepsOffers(RunFrom(NOTHING_PUBLISHED, actions[..|actions| - 1]), actions[|actions| - 1]);
    }
  }

  /** In every run a page request is allowed exactly without tokens, or with the very cursor and
      revision that the live catalog shows. */
  lemma PageRequestAllowedIff(
    actions: seq<Action>, d: DeviceId, cursor: Option<string>, catalogRevision: Option<string>)
    ensures
      var p := RunFrom(NOTHING_PUBLISHED, actions);
      PageRequestAllowed(p, d, cursor, catalogRevision) <==>
      || (cursor == None && catalogRevision == None)
      || (cursor != None && d in p.catalogs
          && p.catalogs[d].nextCursor == cursor && p.catalogs[d].catalogRevision == catalogRevision)
  {
    OffersStayUsable(actions);
  }

  /** In every run all pages of a live chain, its first one included, were read under the connection
      and the catalog revision that the catalog shows. */
  lemma ChainIsOfOneConnection(actions: seq<Action>, d: DeviceId, i: nat)
    requires d in RunFrom(NOTHING_PUBLISHED, actions).catalogs
    requires d in TraceRun(actions).chains && i < |TraceRun(actions).chains[d]|
    ensures
      var link, c := TraceRun(actions).chains[d][i], RunFrom(NOTHING_PUBLISHED, actions).catalogs[d];
      link.epoch == c.connectionEpoch && link.page.catalogRevision == c.catalogRevision
  {
    hide RunFrom, TraceRun, Linked, LiveCatalog;
    CursorChainInvariant(actions);
    assert ChainHolds(TraceRun(actions), d);
  }
}
