/** What each action makes of the client's rows and catalog, in the fields of events, replies and rows. */
module CommitLaws {
  import opened Prelude
  import opened SessionTypes
  import opened ClientCatalog

  // ---------------------------------------------------------------- fetched files

  /** A usable verdict over a manifest with this bare lowercase SHA-256. */
  ghost predicate Vouched(row: SessionView, digest: string) {
    && row.verification.Some? && row.verification.value.verdict == Usable
    && row.verification.value.manifestSha256 == digest && |digest| == 64
    && forall k :: 0 <= k < |digest| ==> '0' <= digest[k] <= '9' || 'a' <= digest[k] <= 'f'
  }

  lemma UsableManifestIff(row: SessionView, digest: string)
    ensures UsableManifest(row) == Some(digest) <==> Vouched(row, digest)
  {
    if Vouched(row, digest) {
      assert forall k :: 0 <= k < 64 ==> LowercaseHex(row.verification.value.manifestSha256[k]);
    }
    if UsableManifest(row) == Some(digest) {
      assert forall k :: 0 <= k < 64 ==> LowercaseHex(digest[k]);
    }
  }

  /** The shown row has files that the incoming one lacks, for the same revision and manifest. */
  ghost predicate FilesAreKept(shown: SessionView, incoming: SessionView) {
    && shown.id == incoming.id && shown.revision == incoming.revision
    && shown.files != [] && incoming.files == []
    && exists digest :: Vouched(shown, digest) && Vouched(incoming, digest)
  }

  lemma FilesAreKeptIff(shown: SessionView, incoming: SessionView)
    ensures FilesAreKept(shown, incoming) <==> shown.id == incoming.id && CanRetainFiles(shown, incoming)
  {
    if FilesAreKept(shown, incoming) {
      var digest :| Vouched(shown, digest) && Vouched(incoming, digest);
      UsableManifestIff(shown, digest);
      UsableManifestIff(incoming, digest);
    }
    if CanRetainFiles(shown, incoming) {
      UsableManifestIff(shown, UsableManifest(shown).value);
      UsableManifestIff(incoming, UsableManifest(shown).value);
    }
  }

  /** Replacing rows keeps the files of exactly the rows that meet the condition. */
  ghost predicate RowIsReplaced(existing: seq<SessionView>, incoming: SessionView, row: SessionView) {
    && (forall m :: 0 <= m < |existing| && FilesAreKept(existing[m], incoming) ==>
          row == incoming.(files := existing[m].files))
    && ((forall m :: 0 <= m < |existing| ==> !FilesAreKept(existing[m], incoming)) ==> row == incoming)
  }

  lemma {:induction false} LastRowWithId(rows: seq<SessionView>, m: nat)
    requires DistinctIds(rows) && m < |rows|
    ensures LastRow(rows, rows[m].id) == Some(rows[m])
  {
    if m < |rows| - 1 {
      LastRowWithId(rows[..|rows| - 1], m);
    }
  }

  lemma RetainedRowIsReplaced(existing: seq<SessionView>, incoming: SessionView)
    requires DistinctIds(existing)
    ensures RowIsReplaced(existing, incoming, RetainFiles(existing, incoming))
  {
    hide CanRetainFiles, FilesAreKept;
    forall m | 0 <= m < |existing|
      ensures FilesAreKept(existing[m], incoming) <==>
              existing[m].id == incoming.id && CanRetainFiles(existing[m], incoming)
      ensures existing[m].id == incoming.id ==> LastRow(existing, incoming.id) == Some(existing[m])
    {
      FilesAreKeptIff(existing[m], incoming);
      LastRowWithId(existing, m);
    }
  }

  /** Of every incoming list: fetched files are kept under exactly this condition. */
  lemma ReplacingKeepsFetchedFiles(existing: seq<SessionView>, incoming: seq<SessionView>)
    requires DistinctIds(existing)
    ensures |ReplaceRows(existing, incoming)| == |incoming|
    ensures forall k :: 0 <= k < |incoming| ==>
              RowIsReplaced(existing, incoming[k], ReplaceRows(existing, incoming)[k])
  {
    hide RowIsReplaced;
    forall k | 0 <= k < |incoming|
      ensures RowIsReplaced(existing, incoming[k], ReplaceRows(existing, incoming)[k])
    {
      RetainedRowIsReplaced(existing, incoming[k]);
    }
  }

  /** Merging one row puts it at the place of its id, or at the end, with fetched files kept under the
      same condition, and changes nothing else. */
  lemma MergedRowIsReplaced(rows: seq<SessionView>, candidate: SessionView)
    requires DistinctIds(rows)
    ensures
      var merged := MergedRow(rows, candidate);
      if HasRow(rows, candidate.id) then
        && |merged| == |rows|
        && forall k :: 0 <= k < |rows| ==>
             if rows[k].id == candidate.id then RowIsReplaced(rows, candidate, merged[k]) else merged[k] == rows[k]
      else merged == rows + [candidate]
  {
    hide FilesAreKept, CanRetainFiles;
    forall m | 0 <= m < |rows|
      ensures FilesAreKept(rows[m], candidate) <==> rows[m].id == candidate.id && CanRetainFiles(rows[m], candidate)
    {
      FilesAreKeptIff(rows[m], candidate);
    }
  }

  // ---------------------------------------------------------------- details

  /** The detail was asked of this row as it is, under this catalog revision. */
  ghost predicate DetailFits(detail: DetailState, row: SessionView, catalogRevision: Option<string>) {
    && detail.catalogRevision == catalogRevision && detail.sessionRevision == row.revision
    && Vouched(row, detail.manifestSha256)
  }

  /** Of the old details exactly those that fit a row with their id, under a catalog revision. */
  ghost predicate DetailsRetained(
    before: map<string, DetailState>, after: map<string, DetailState>, rows: seq<SessionView>,
    catalogRevision: Option<string>)
  {
    && (forall id :: id in after <==>
          id in before && catalogRevision != None
          && exists k :: 0 <= k < |rows| && rows[k].id == id && DetailFits(before[id], rows[k], catalogRevision))
    && forall id :: id in after ==> after[id] == before[id]
  }

  lemma RetentionKeepsFittingDetails(
    before: map<string, DetailState>, rows: seq<SessionView>, catalogRevision: Option<string>)
    ensures DetailsRetained(before, RetainDetails(before, rows, catalogRevision), rows, catalogRevision)
  {
    hide UsableManifest, Vouched;
    forall id, k | id in before && 0 <= k < |rows|
      ensures DetailMatches(before[id], rows[k], catalogRevision) <==> DetailFits(before[id], rows[k], catalogRevision)
    {
      UsableManifestIff(rows[k], before[id].manifestSha256);
    }
    hide DetailMatches, DetailFits;
  }

  // ---------------------------------------------------------------- events and pages

  /** Everything but rows, diagnostics and details that an event or a page sets in the catalog. */
  ghost predicate CatalogIs(
    c: CatalogState, catalogRevision: Option<string>, nextCursor: Option<string>, hasMore: bool, authority: Authority,
    paginationSupported: bool, unavailableReason: Option<UnavailableReason>, capabilities: Capabilities)
  {
    && c.catalogRevision == catalogRevision && c.nextCursor == nextCursor && c.hasMore == hasMore
    && c.authority == authority && c.paginationSupported == paginationSupported
    && c.unavailableReason == unavailableReason && c.capabilities == capabilities
  }

  /** A loaded resource: no error, not loading, and these rows to fall back to. */
  ghost predicate RowsAre(r: Resource<seq<SessionView>>, revision: int, rows: seq<SessionView>) {
    && !r.loading && r.error == None && r.rpcError == None && r.revision == revision
    && r.value == Some(rows) && r.lastGood == Some(rows)
  }

  /** An event is taken exactly if it is newer and repeats no id; then the client shows its rows, with
      fetched files kept, and its catalog. Any other event changes nothing. */
  lemma EventIsTakenIff(device: Device, e: SessionsEvent)
    requires DistinctIds(Rows(device))
    ensures
      var (after, result) := Commit(device, CatalogLoaded(e));
      && (result == Changed <==>
            e.revision > device.rows.revision && DistinctIds(e.sessions) && DistinctQuarantine(e.diagnostics))
      && (result != Changed ==> after == device)
      && (result == Changed ==>
          && RowsAre(after.rows, e.revision, Rows(after)) && |Rows(after)| == |e.sessions|
          && (forall k :: 0 <= k < |e.sessions| ==>
                if e.catalogRevision == None then Rows(after)[k] == e.sessions[k]
                else RowIsReplaced(Rows(device), e.sessions[k], Rows(after)[k]))
          && CatalogIs(after.catalog, e.catalogRevision, e.nextCursor, e.hasMore, e.authority, e.paginationSupported,
                       e.unavailableReason, e.capabilities)
          && after.catalog.diagnostics == e.diagnostics
          && !after.catalog.loadingMore && after.catalog.loadMoreError == None
          && DetailsRetained(device.catalog.details, after.catalog.details, Rows(after), e.catalogRevision))
  {
    hide RowIsReplaced, DetailsRetained, RetainDetails, ReplaceRows, ShowsEvent;
    ReplacingKeepsFetchedFiles(Rows(device), e.sessions);
    RetentionKeepsFittingDetails(device.catalog.details, Rows(Commit(device, CatalogLoaded(e)).0), e.catalogRevision);
  }

  /** A page goes on from what the client shows: same catalog, new ids, an older first row. */
  ghost predicate PageGoesOn(device: Device, page: Page, expected: Option<string>) {
    && expected != None && device.catalog.catalogRevision == expected && page.catalogRevision == expected
    && (forall i, j :: 0 <= i < |Rows(device)| && 0 <= j < |page.items| ==> Rows(device)[i].id != page.items[j].id)
    && (Rows(device) != [] && page.items != [] ==> Newer(Rows(device)[|Rows(device)| - 1], page.items[0]))
    && (forall i, j :: 0 <= i < |device.catalog.diagnostics| && 0 <= j < |page.diagnostics| ==>
          device.catalog.diagnostics[i].quarantineId != page.diagnostics[j].quarantineId)
  }

  lemma PageGoesOnIff(device: Device, page: Page, expected: Option<string>)
    requires DistinctIds(page.items) && DistinctQuarantine(page.diagnostics)
    ensures
      PageGoesOn(device, page, expected) <==>
      && expected.Some? && device.catalog.catalogRevision == expected && page.catalogRevision == expected
      && !RepeatsIdentity(Rows(device), page.items) && BoundaryDescends(Rows(device), page.items)
      && FreshQuarantine(device.catalog.diagnostics, page.diagnostics)
  {
    hide Newer;
  }

  /** A page is taken exactly if it is newer, repeats no id and, for an append, goes on from what the
      client shows. An append is added to rows and diagnostics, a first page replaces them. */
  lemma PageIsTakenIff(device: Device, reply: PageReply, mode: PageMode)
    ensures
      var page := reply.page;
      var (after, result) := Commit(device, PageLoaded(reply, mode));
      && (result == Changed <==>
            reply.revision > device.rows.revision && DistinctIds(page.items) && DistinctQuarantine(page.diagnostics)
            && (mode.Append? ==> PageGoesOn(device, page, mode.expected)))
      && (result != Changed ==> after == device)
      && (result == Changed ==>
          && RowsAre(after.rows, reply.revision, if mode.Append? then Rows(device) + page.items else page.items)
          && CatalogIs(after.catalog, page.catalogRevision, page.nextCursor, page.hasMore, page.authority,
                       page.paginationSupported, page.unavailableReason, page.capabilities)
          && after.catalog.diagnostics
             == (if mode.Append? then device.catalog.diagnostics + page.diagnostics else page.diagnostics)
          && !after.catalog.loadingMore && after.catalog.loadMoreError == None
          && DetailsRetained(device.catalog.details, after.catalog.details, Rows(after), page.catalogRevision))
  {
    hide DetailsRetained, RetainDetails, PageGoesOn, RepeatsIdentity, BoundaryDescends, FreshQuarantine, Newer;
    if DistinctIds(reply.page.items) && DistinctQuarantine(reply.page.diagnostics) && mode.Append? {
      PageGoesOnIff(device, reply.page, mode.expected);
    }
    hide DistinctIds, DistinctQuarantine;
    RetentionKeepsFittingDetails(device.catalog.details, Rows(Commit(device, PageLoaded(reply, mode)).0),
                                 reply.page.catalogRevision);
  }

  /** What comes again under the revision the client already shows is known, not stale, exactly if it
      is what the client shows: an event all of it, a page its end. */
  lemma KnownExactlyWhenShown(device: Device, e: SessionsEvent, reply: PageReply)
    requires e.revision == reply.revision == device.rows.revision
    requires DistinctIds(e.sessions) && DistinctQuarantine(e.diagnostics)
    requires DistinctIds(reply.page.items) && DistinctQuarantine(reply.page.diagnostics)
    ensures Commit(device, CatalogLoaded(e)).1 == Unchanged <==>
            && Rows(device) == e.sessions && device.catalog.diagnostics == e.diagnostics
            && CatalogIs(device.catalog, e.catalogRevision, e.nextCursor, e.hasMore, e.authority,
                         e.paginationSupported, e.unavailableReason, e.capabilities)
    ensures
      var page := reply.page;
      Commit(device, PageLoaded(reply, Replace)).1 == Unchanged <==>
      && CatalogIs(device.catalog, page.catalogRevision, page.nextCursor, page.hasMore, page.authority,
                   page.paginationSupported, page.unavailableReason, page.capabilities)
      && (exists n :: 0 <= n <= |Rows(device)| && Rows(device)[n..] == page.items)
      && (exists n :: 0 <= n <= |device.catalog.diagnostics| && device.catalog.diagnostics[n..] == page.diagnostics)
  {
    hide DistinctIds, DistinctQuarantine;
    SuffixIff(Rows(device), reply.page.items);
    SuffixIff(device.catalog.diagnostics, reply.page.diagnostics);
    hide IsSuffix;
  }

  lemma SuffixIff<T>(current: seq<T>, incoming: seq<T>)
    ensures IsSuffix(current, incoming) <==> exists n :: 0 <= n <= |current| && current[n..] == incoming
  {
    if IsSuffix(current, incoming) {
      assert current[|current| - |incoming|..] == incoming;
    }
    if n :| 0 <= n <= |current| && current[n..] == incoming {
      assert n == |current| - |incoming|;
    }
  }

  // ---------------------------------------------------------------- detail actions

  /** The client shows the row of this revision and manifest, under this catalog revision. */
  ghost predicate ShowsSession(
    device: Device, id: string, revision: string, catalogRevision: Option<string>, digest: string)
  {
    && device.catalog.catalogRevision == catalogRevision
    && exists k :: 0 <= k < |Rows(device)| && Rows(device)[k].id == id && Rows(device)[k].revision == revision
                   && Vouched(Rows(device)[k], digest)
  }

  lemma ShowsSessionIff(
    device: Device, id: string, revision: string, catalogRevision: Option<string>, digest: string)
    ensures ShowsSession(device, id, revision, catalogRevision, digest) <==>
            SessionMatches(device, id, revision, catalogRevision, digest)
  {
    hide Vouched, UsableManifest;
    forall k | 0 <= k < |Rows(device)|
      ensures Vouched(Rows(device)[k], digest) <==> UsableManifest(Rows(device)[k]) == Some(digest)
    {
      UsableManifestIff(Rows(device)[k], digest);
    }
  }

  /** A fetched detail is taken exactly if it is not older than the rows and is of the very row that
      was asked for, while the client still shows it. It takes the place of that row, and of nothing
      else. */
  lemma DetailIsTakenIff(
    device: Device, revision: int, detail: SessionView, sessionRevision: string, catalogRevision: Option<string>,
    digest: string)
    ensures
      var (after, result) := Commit(device, DetailLoaded(revision, detail, sessionRevision, catalogRevision, digest));
      && (result == Changed <==>
            revision >= device.rows.revision && detail.id != "" && detail.revision == sessionRevision
            && Vouched(detail, digest) && ShowsSession(device, detail.id, sessionRevision, catalogRevision, digest))
      && (result != Changed ==> result == Stale && after == device)
      && (result == Changed ==>
          && !after.rows.loading && after.rows.value.Some? && after.rows.lastGood == after.rows.value
          && after.rows.error == device.rows.error && after.rows.rpcError == device.rows.rpcError
          && after.rows.revision == revision && |Rows(after)| == |Rows(device)|
          && (forall k :: 0 <= k < |Rows(device)| ==>
                Rows(after)[k] == if Rows(device)[k].id == detail.id then detail else Rows(device)[k])
          && after.catalog == device.catalog.(details := device.catalog.details[detail.id :=
               DetailState(false, None, sessionRevision, catalogRevision, digest)]))
  {
    UsableManifestIff(detail, digest);
    ShowsSessionIff(device, detail.id, sessionRevision, catalogRevision, digest);
    hide Vouched, UsableManifest, ShowsSession, SessionMatches;
  }

  /** Asking for a detail marks it as loading, and a failure keeps its error, exactly while the client
      shows the row that was asked for. */
  lemma DetailProgressIsNoted(
    device: Device, id: string, revision: string, catalogRevision: Option<string>, digest: string, error: string)
    ensures
      var (started, startResult) := Commit(device, DetailStarted(id, revision, catalogRevision, digest));
      var (failed, failResult) := Commit(device, DetailFailed(id, revision, catalogRevision, digest, error));
      if ShowsSession(device, id, revision, catalogRevision, digest) then
        && startResult == failResult == Changed && started.rows == failed.rows == device.rows
        && started.catalog == device.catalog.(details :=
             device.catalog.details[id := DetailState(true, None, revision, catalogRevision, digest)])
        && failed.catalog == device.catalog.(details :=
             device.catalog.details[id := DetailState(false, Some(error), revision, catalogRevision, digest)])
      else startResult == failResult == Stale && started == failed == device
  {
    ShowsSessionIff(device, id, revision, catalogRevision, digest);
    hide ShowsSession, SessionMatches;
  }

  // ---------------------------------------------------------------- loading more, and loading

  /** A request for more is marked exactly for the cursor and catalog that the client shows and that
      offer more; a failure ends it with its error, and a moved catalog drops the client's, both for
      that cursor and catalog only. */
  lemma LoadMoreIsNoted(device: Device, revision: string, cursor: string, error: string)
    ensures
      var c := device.catalog;
      var shown := c.catalogRevision == Some(revision) && c.nextCursor == Some(cursor);
      var (started, startResult) := Commit(device, LoadMoreStarted(revision, cursor));
      var (failed, failResult) := Commit(device, LoadMoreFailed(revision, cursor, error));
      var (dropped, dropResult) := Commit(device, CatalogInvalidated(revision, cursor));
      && started.rows == failed.rows == dropped.rows == device.rows
      && (if !shown || !c.hasMore || !c.paginationSupported then startResult == Stale && started == device
          else if c.loadingMore && c.loadMoreError == None then startResult == Unchanged && started == device
          else startResult == Changed && started.catalog == c.(loadingMore := true, loadMoreError := None))
      && (if !shown then failResult == dropResult == Stale && failed == dropped == device
          else failResult == dropResult == Changed
               && failed.catalog == c.(loadingMore := false, loadMoreError := Some(error))
               && dropped.catalog.catalogRevision == None && dropped.catalog.nextCursor == None
               && !dropped.catalog.hasMore && !dropped.catalog.loadingMore && dropped.catalog.diagnostics == []
               && !dropped.catalog.paginationSupported && dropped.catalog.loadMoreError == None
               && dropped.catalog.details == map[])
  {
  }

  /** A load marks the rows as loading and forgets errors, requests for more and details; a failure
      that is not older shows its error over the last good rows; bare rows replace not newer ones. */
  lemma LoadingIsNoted(
    device: Device, revision: int, sessions: seq<SessionView>, error: string, rpcError: Option<string>,
    seen: Option<int>)
    ensures
      var (started, result) := Commit(device, LoadingStarted);
      && result == (if device.rows.loading then Unchanged else Changed) && started.rows.loading
      && started.rows.value == device.rows.value && started.rows.lastGood == device.rows.lastGood
      && (device.rows.loading || (started.rows.error == None && started.rows.rpcError == None))
      && started.rows.revision == device.rows.revision
      && started.catalog == device.catalog.(loadingMore := false, loadMoreError := None, details := map[])
    ensures
      var (failed, result) := Commit(device, LoadingFailed(error, rpcError, seen));
      && failed.catalog == device.catalog
      && (if seen != None && seen.value < device.rows.revision then result == Stale && failed == device
          else !failed.rows.loading && failed.rows.error == Some(error) && failed.rows.rpcError == rpcError
               && failed.rows.value == device.rows.lastGood == failed.rows.lastGood
               && failed.rows.revision == device.rows.revision
               && result == (if device.rows.error == Some(error) && device.rows.rpcError == rpcError
                                && !device.rows.loading && device.rows.value == device.rows.lastGood
                             then Unchanged else Changed))
    ensures
      var (loaded, result) := Commit(device, SessionsLoaded(revision, sessions));
      && loaded.catalog == device.catalog
      && (if revision < device.rows.revision then result == Stale && loaded == device
          else
            && RowsAre(loaded.rows, revision, sessions)
            && result == (if device.rows.value == Some(sessions) && !device.rows.loading
                             && device.rows.error == None && device.rows.rpcError == None
                          then Unchanged else Changed))
  {
  }
}
