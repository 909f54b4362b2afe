/** The client store: the commit entry point with its loops over rows, diagnostics and
    details, each proved against the value the commit rules specify. */
module ClientStore {
  import opened Prelude
  import opened SessionTypes
  import opened ClientCatalog

  method HasDuplicateSessionIdentity(rows: seq<SessionView>) returns (duplicate: bool)
    ensures duplicate <==> !DistinctIds(rows)
  {
    var seen: set<string> := {};
    for i := 0 to |rows|
      invariant DistinctIds(rows[..i])
      invariant forall id :: id in seen <==> exists k :: 0 <= k < i && rows[k].id == id
    {
      if rows[i].id in seen {
        return true;
      }
      seen := seen + {rows[i].id};
    }
    assert rows[..|rows|] == rows;
    return false;
  }

  method HasDuplicateDiagnosticIdentity(diagnostics: seq<Diagnostic>) returns (duplicate: bool)
    ensures duplicate <==> !DistinctQuarantine(diagnostics)
  {
    var seen: set<string> := {};
    for i := 0 to |diagnostics|
      invariant DistinctQuarantine(diagnostics[..i])
      invariant forall id :: id in seen <==> exists k :: 0 <= k < i && diagnostics[k].quarantineId == id
    {
      if diagnostics[i].quarantineId in seen {
        return true;
      }
      seen := seen + {diagnostics[i].quarantineId};
    }
    assert diagnostics[..|diagnostics|] == diagnostics;
    return false;
  }

  method RepeatsSessionIdentity(existing: seq<SessionView>, incoming: seq<SessionView>) returns (repeats: bool)
    ensures repeats <==> RepeatsIdentity(existing, incoming)
  {
    var seen := set r | r in existing :: r.id;
    for j := 0 to |incoming|
      invariant !RepeatsIdentity(existing, incoming[..j])
      invariant forall id :: id in seen <==>
                  (exists i :: 0 <= i < |existing| && existing[i].id == id)
                  || (exists i :: 0 <= i < j && incoming[i].id == id)
    {
      if incoming[j].id in seen {
        return true;
      }
      seen := seen + {incoming[j].id};
    }
    assert incoming[..|incoming|] == incoming;
    return false;
  }

  ghost predicate PositionsOf(positions: map<string, nat>, rows: seq<SessionView>) {
    forall id :: LastPosition(rows, id) == if id in positions then Some(positions[id]) else None
  }

  /** Replacing a row by one of the same id moves no id. */
  lemma ReplacementKeepsPositions(positions: map<string, nat>, rows: seq<SessionView>, k: nat, row: SessionView)
    requires PositionsOf(positions, rows) && k < |rows| && row.id == rows[k].id
    ensures PositionsOf(positions, rows[k := row])
  {
    var rows' := rows[k := row];
    forall id ensures LastPosition(rows', id) == LastPosition(rows, id) {
      assert forall m :: 0 <= m < |rows| ==> rows'[m].id == rows[m].id;
      var was, now := LastPosition(rows, id), LastPosition(rows', id);
      if was.Some? {
        assert rows'[was.value].id == id;
      }
      if now.Some? {
        assert rows[now.value].id == id;
      }
    }
  }

  lemma AppendingAddsPosition(positions: map<string, nat>, rows: seq<SessionView>, row: SessionView)
    requires PositionsOf(positions, rows)
    ensures PositionsOf(positions[row.id := |rows|], rows + [row])
  {
    assert (rows + [row])[..|rows|] == rows;
  }

  /** Appends unknown ids; a known id is replaced in place, keeping fetched files. */
  method MergeSessionViews(existing: seq<SessionView>, incoming: seq<SessionView>) returns (merged: seq<SessionView>)
    ensures merged == MergedRows(existing, incoming)
  {
    merged := existing;
    var positions: map<string, nat> := map[];
    for k := 0 to |existing|
      invariant PositionsOf(positions, existing[..k])
    {
      assert existing[..k + 1] == existing[..k] + [existing[k]];
      AppendingAddsPosition(positions, existing[..k], existing[k]);
      positions := positions[existing[k].id := k];
    }
    assert existing[..|existing|] == existing;
    for j := 0 to |incoming|
      invariant PositionsOf(positions, merged)
      invariant merged == MergedRows(existing, incoming[..j])
    {
      hide PositionsOf;
      var candidate := incoming[j];
      assert incoming[..j + 1][..j] == incoming[..j];
      PositionOfId(positions, merged, candidate.id);
      if candidate.id !in positions {
        AppendingAddsPosition(positions, merged, candidate);
        positions := positions[candidate.id := |merged|];
        merged := merged + [candidate];
      } else {
        var at := positions[candidate.id];
        var current := merged[at];
        var row := if CanRetainFiles(current, candidate) then candidate.(files := current.files) else candidate;
        ReplacementKeepsPositions(positions, merged, at, row);
        merged := merged[at := row];
      }
    }
    assert incoming[..|incoming|] == incoming;
  }

  lemma PositionOfId(positions: map<string, nat>, rows: seq<SessionView>, id: string)
    requires PositionsOf(positions, rows)
    ensures LastPosition(rows, id) == if id in positions then Some(positions[id]) else None
  {
  }

  /** A page that repeats no identity is appended. */
  lemma {:induction false} MergingFreshRowsAppends(existing: seq<SessionView>, incoming: seq<SessionView>)
    requires !RepeatsIdentity(existing, incoming)
    ensures MergedRows(existing, incoming) == existing + incoming
  {
    if incoming != [] {
      var before, last := incoming[..|incoming| - 1], incoming[|incoming| - 1];
      assert !RepeatsIdentity(existing, before);
      MergingFreshRowsAppends(existing, before);
      forall m | 0 <= m < |existing + before| ensures (existing + before)[m].id != last.id {
      }
    }
  }

  lemma MergedRowKeepsOthers(rows: seq<SessionView>, candidate: SessionView)
    requires DistinctIds(rows)
    ensures
      var merged := MergedRow(rows, candidate);
      && DistinctIds(merged) && |rows| <= |merged|
      && (forall k :: 0 <= k < |rows| ==>
            merged[k].id == rows[k].id && (rows[k].id != candidate.id ==> merged[k] == rows[k]))
      && HasRow(merged, candidate.id)
  {
    hide CanRetainFiles;
    var at := LastPosition(rows, candidate.id);
    assert MergedRow(rows, candidate)[if at.Some? then at.value else |rows|].id == candidate.id;
  }

  /** Merging moves no known row, keeps ids distinct, shows every incoming id and touches no row of
      another id. */
  lemma {:induction false} MergingKeepsOtherRows(existing: seq<SessionView>, incoming: seq<SessionView>)
    requires DistinctIds(existing)
    ensures
      var merged := MergedRows(existing, incoming);
      && DistinctIds(merged) && |existing| <= |merged|
      && (forall k :: 0 <= k < |existing| ==>
            merged[k].id == existing[k].id && (HasRow(incoming, existing[k].id) || merged[k] == existing[k]))
      && (forall j :: 0 <= j < |incoming| ==> HasRow(merged, incoming[j].id))
  {
    hide MergedRow, DistinctIds;
    if incoming != [] {
      var before, last := incoming[..|incoming| - 1], incoming[|incoming| - 1];
      MergingKeepsOtherRows(existing, before);
      var rows, merged := MergedRows(existing, before), MergedRows(existing, incoming);
      MergedRowKeepsOthers(rows, last);
      assert forall j :: 0 <= j < |before| ==> incoming[j] == before[j];
      forall j | 0 <= j < |incoming| ensures HasRow(merged, incoming[j].id) {
        if j < |before| {
          var k :| 0 <= k < |rows| && rows[k].id == before[j].id;
          assert merged[k].id == incoming[j].id;
        }
      }
    }
  }

  method MergeCatalogDiagnostics(existing: seq<Diagnostic>, incoming: seq<Diagnostic>)
    returns (merged: Option<seq<Diagnostic>>)
    ensures merged.Some? <==> FreshQuarantine(existing, incoming)
    ensures merged.Some? ==> merged.value == existing + incoming
  {
    var out := existing;
    var positions := set d | d in existing :: d.quarantineId;
    for j := 0 to |incoming|
      invariant out == existing + incoming[..j]
      invariant FreshQuarantine(existing, incoming[..j])
      invariant forall id :: id in positions <==>
                  (exists i :: 0 <= i < |existing| && existing[i].quarantineId == id)
                  || (exists i :: 0 <= i < j && incoming[i].quarantineId == id)
    {
      if incoming[j].quarantineId in positions {
        return None;
      }
      positions := positions + {incoming[j].quarantineId};
      out := out + [incoming[j]];
    }
    assert incoming[..|incoming|] == incoming;
    return Some(out);
  }

  method ReplaceSessionViews(existing: seq<SessionView>, incoming: seq<SessionView>) returns (rows: seq<SessionView>)
    ensures rows == ReplaceRows(existing, incoming)
  {
    var previous: map<string, SessionView> := map[];
    for k := 0 to |existing|
      invariant forall id :: LastRow(existing[..k], id) == if id in previous then Some(previous[id]) else None
    {
      assert existing[..k + 1][..k] == existing[..k];
      previous := previous[existing[k].id := existing[k]];
    }
    assert existing[..|existing|] == existing;
    rows := [];
    for k := 0 to |incoming|
      invariant |rows| == k
      invariant forall m :: 0 <= m < k ==> rows[m] == RetainFiles(existing, incoming[m])
    {
      var candidate := incoming[k];
      if candidate.id in previous && CanRetainFiles(previous[candidate.id], candidate) {
        rows := rows + [candidate.(files := previous[candidate.id].files)];
      } else {
        rows := rows + [candidate];
      }
    }
  }

  method RetainMatchingDetailStates(
    details: map<string, DetailState>, rows: seq<SessionView>, catalogRevision: Option<string>)
    returns (retained: map<string, DetailState>)
    ensures retained == RetainDetails(details, rows, catalogRevision)
  {
    retained := map[];
    if catalogRevision.None? {
      return;
    }
    for k := 0 to |rows|
      invariant forall id :: id in retained <==>
                  id in details && DetailIsPresent(id, details[id], rows[..k], catalogRevision)
      invariant forall id :: id in retained ==> retained[id] == details[id]
    {
      var row := rows[k];
      if row.id in details && DetailMatches(details[row.id], row, catalogRevision) {
        assert rows[..k + 1][k] == row;
        retained := retained[row.id := details[row.id]];
      }
      forall id | id in details
        ensures DetailIsPresent(id, details[id], rows[..k + 1], catalogRevision) <==>
                DetailIsPresent(id, details[id], rows[..k], catalogRevision)
                || (row.id == id && DetailMatches(details[id], row, catalogRevision))
      {
        ExtendPresence(id, details[id], rows, k, catalogRevision);
      }
    }
    assert rows[..|rows|] == rows;
  }

  lemma ExtendPresence(id: string, detail: DetailState, rows: seq<SessionView>, k: nat, catalogRevision: Option<string>)
    requires k < |rows|
    ensures DetailIsPresent(id, detail, rows[..k + 1], catalogRevision) <==>
            DetailIsPresent(id, detail, rows[..k], catalogRevision)
            || (rows[k].id == id && DetailMatches(detail, rows[k], catalogRevision))
  {
    if DetailIsPresent(id, detail, rows[..k], catalogRevision) {
      var m :| 0 <= m < k && rows[..k][m].id == id && DetailMatches(detail, rows[..k][m], catalogRevision);
      assert rows[..k + 1][m] == rows[..k][m];
    }
    if rows[k].id == id && DetailMatches(detail, rows[k], catalogRevision) {
      assert rows[..k + 1][k] == rows[k];
    }
    if DetailIsPresent(id, detail, rows[..k + 1], catalogRevision) {
      var m :| 0 <= m < k + 1 && rows[..k + 1][m].id == id && DetailMatches(detail, rows[..k + 1][m], catalogRevision);
      if m < k {
        assert rows[..k][m] == rows[..k + 1][m];
      }
    }
  }

  class AppStore {
    var sessions: map<DeviceId, Resource<seq<SessionView>>>
    var sessionCatalogs: map<DeviceId, CatalogState>

    /** What the selectors show for a device; absent entries read as idle. */
    function Of(d: DeviceId): Device
      reads this
    {
      Device(if d in sessions then sessions[d] else IdleResource(),
             if d in sessionCatalogs then sessionCatalogs[d] else IDLE_CATALOG)
    }

    constructor ()
      ensures forall d :: Of(d) == IDLE_DEVICE
    {
      sessions, sessionCatalogs := map[], map[];
    }

    method CommitCatalogSnapshot(d: DeviceId, e: SessionsEvent) returns (result: CommitResult)
      modifies this
      ensures (Of(d), result) == CommitEvent(old(Of(d)), e)
      ensures forall other :: other != d ==> Of(other) == old(Of(other))
    {
      var current := Of(d).rows;
      if e.revision < current.revision {
        return Stale;
      }
      var catalog := Of(d).catalog;
      var repeatedRows := HasDuplicateSessionIdentity(e.sessions);
      var repeatedDiagnostics := HasDuplicateDiagnosticIdentity(e.diagnostics);
      if repeatedRows || repeatedDiagnostics {
        return Stale;
      }
      if e.revision == current.revision {
        return if ShowsEvent(Of(d), e) then Unchanged else Stale;
      }
      var rows := e.sessions;
      if e.catalogRevision.Some? {
        rows := ReplaceSessionViews(Rows(Of(d)), e.sessions);
      }
      var details := RetainMatchingDetailStates(catalog.details, rows, e.catalogRevision);
      sessions := sessions[d := Loaded(e.revision, rows)];
      sessionCatalogs := sessionCatalogs[d :=
        CatalogState(e.catalogRevision, e.nextCursor, e.hasMore, e.authority, e.paginationSupported,
                     e.unavailableReason, e.capabilities, e.diagnostics, false, None, details)];
      return Changed;
    }

    method CommitSessionPage(d: DeviceId, reply: PageReply, mode: PageMode) returns (result: CommitResult)
      modifies this
      ensures (Of(d), result) == CommitPage(old(Of(d)), reply, mode)
      ensures forall other :: other != d ==> Of(other) == old(Of(other))
    {
      var current, catalog, page := Of(d).rows, Of(d).catalog, reply.page;
      if reply.revision < current.revision {
        return Stale;
      }
      if mode.Append? && (mode.expected.None? || catalog.catalogRevision != mode.expected) {
        return Stale;
      }
      if mode.Append? && page.catalogRevision != mode.expected {
        return Stale;
      }
      var repeatedRows := HasDuplicateSessionIdentity(page.items);
      var repeatedDiagnostics := HasDuplicateDiagnosticIdentity(page.diagnostics);
      if repeatedRows || repeatedDiagnostics {
        return Stale;
      }
      if reply.revision == current.revision {
        if !SameMetadata(catalog, page) {
          return Stale;
        }
        var exact := Rows(Of(d)) == page.items;
        var suffix := IsSuffix(Rows(Of(d)), page.items);
        return if (exact || suffix) && IsSuffix(catalog.diagnostics, page.diagnostics) then Unchanged else Stale;
      }
      var rows, diagnostics := page.items, page.diagnostics;
      if mode.Append? {
        var repeats := RepeatsSessionIdentity(Rows(Of(d)), page.items);
        if repeats || !BoundaryDescends(Rows(Of(d)), page.items) {
          return Stale;
        }
        rows := MergeSessionViews(Rows(Of(d)), page.items);
        MergingFreshRowsAppends(Rows(Of(d)), page.items);
        var merged := MergeCatalogDiagnostics(catalog.diagnostics, page.diagnostics);
        if merged.None? {
          return Stale;
        }
        diagnostics := merged.value;
      }
      var details := RetainMatchingDetailStates(catalog.details, rows, page.catalogRevision);
      sessions := sessions[d := Loaded(reply.revision, rows)];
      sessionCatalogs := sessionCatalogs[d :=
        CatalogState(page.catalogRevision, page.nextCursor, page.hasMore, page.authority, page.paginationSupported,
                     page.unavailableReason, page.capabilities, diagnostics, false, None, details)];
      return Changed;
    }

    /** The single commit entry point for everything about one device's sessions. */
    method CommitAction(d: DeviceId, a: Action) returns (result: CommitResult)
      modifies this
      ensures (Of(d), result) == Commit(old(Of(d)), a)
      ensures forall other :: other != d ==> Of(other) == old(Of(other))
    {
      match a {
        case CatalogLoaded(e) => result := CommitCatalogSnapshot(d, e);
        case PageLoaded(reply, mode) => result := CommitSessionPage(d, reply, mode);
        case DetailLoaded(revision, detail, sessionRevision, catalogRevision, manifest) =>
          var current := Of(d).rows;
          if revision < current.revision || detail.id == "" || detail.revision != sessionRevision
             || UsableManifest(detail) != Some(manifest)
             || !SessionMatches(Of(d), detail.id, sessionRevision, catalogRevision, manifest)
          {
            return Stale;
          }
          var rows := SubstituteRow(Rows(Of(d)), detail);
          var catalog := Of(d).catalog;
          var details := catalog.details[detail.id :=
            DetailState(false, None, sessionRevision, catalogRevision, manifest)];
          sessions := sessions[d :=
            Resource(false, Some(rows), current.error, current.rpcError,
                     if current.revision > revision then current.revision else revision, Some(rows))];
          sessionCatalogs := sessionCatalogs[d := catalog.(details := details)];
          return Changed;
        case LoadingStarted =>
          var (next, marked) := MarkLoading(Of(d).rows);
          var catalog := Of(d).catalog;
          sessions := sessions[d := next];
          sessionCatalogs := sessionCatalogs[d :=
            catalog.(loadingMore := false, loadMoreError := None, details := map[])];
          return marked;
        case LoadingFailed(error, rpcError, seenRevision) =>
          var (next, failed) := FailResource(Of(d).rows, error, rpcError, seenRevision);
          sessions := sessions[d := next];
          return failed;
        case SessionsLoaded(revision, rows) =>
          var (next, loaded) := LoadResource(Of(d).rows, revision, rows);
          sessions := sessions[d := next];
          return loaded;
        case _ => result := CommitCatalogOnly(d, a);
      }
    }

    /** Load-more, invalidation and detail progress touch only the catalog state. */
    method CommitCatalogOnly(d: DeviceId, a: Action) returns (result: CommitResult)
      requires a.LoadMoreStarted? || a.LoadMoreFailed? || a.CatalogInvalidated? || a.DetailStarted? || a.DetailFailed?
      modifies this`sessionCatalogs
      ensures (Of(d), result) == Commit(old(Of(d)), a)
      ensures forall other :: other != d ==> Of(other) == old(Of(other))
    {
      var catalog := Of(d).catalog;
      if a.DetailStarted? || a.DetailFailed? {
        if !SessionMatches(Of(d), a.sessionId, a.sessionRevision, a.catalogRevision, a.manifestSha256) {
          return Stale;
        }
        var failure := if a.DetailFailed? then Some(a.error) else None;
        sessionCatalogs := sessionCatalogs[d := catalog.(details := catalog.details[a.sessionId :=
          DetailState(a.DetailStarted?, failure, a.sessionRevision, a.catalogRevision, a.manifestSha256)])];
        return Changed;
      }
      if catalog.catalogRevision != Some(a.catalog) || catalog.nextCursor != Some(a.cursor) {
        return Stale;
      }
      match a {
        case LoadMoreStarted(_, _) =>
          if !catalog.hasMore || !catalog.paginationSupported {
            return Stale;
          }
          if catalog.loadingMore && catalog.loadMoreError.None? {
            return Unchanged;
          }
          sessionCatalogs := sessionCatalogs[d := catalog.(loadingMore := true, loadMoreError := None)];
        case LoadMoreFailed(_, _, error) =>
          sessionCatalogs := sessionCatalogs[d := catalog.(loadingMore := false, loadMoreError := Some(error))];
        case CatalogInvalidated(_, _) =>
          sessionCatalogs := sessionCatalogs[d := IDLE_CATALOG];
      }
      return Changed;
    }
  }
}
