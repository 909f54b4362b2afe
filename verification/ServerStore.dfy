/** The mutable store behind the catalogs: publishers and validators as the backend
    runs them under its mutex, each proved against the value it specifies. */
module ServerStore {
  import opened Prelude
  import opened SessionTypes
  import opened ServerCatalog

  /** Appends a page after checking identities against everything already loaded, then order. */
  method MergeSessionViews(existing: seq<SessionView>, incoming: seq<SessionView>)
    returns (merged: seq<SessionView>, problem: Option<Refusal>)
    ensures problem.None? <==> FreshIds(existing, incoming) && OrderedAppend(existing, incoming)
    ensures problem.None? ==> merged == existing + incoming
    ensures problem.Some? ==>
              problem.value == if FreshIds(existing, incoming) then NotNewestFirst else RepeatedSession
  {
    merged := existing;
    var seen := set r | r in existing :: r.id;
    for i := 0 to |incoming|
      invariant seen == IdSet(existing) + IdSet(incoming[..i])
      invariant FreshIds(existing, incoming[..i])
    {
      if incoming[i].id in seen {
        assert !FreshIds(existing, incoming) by {
          if incoming[i].id in IdSet(incoming[..i]) {
            var k :| 0 <= k < i && incoming[..i][k].id == incoming[i].id;
            assert incoming[k].id == incoming[i].id;
          } else {
            assert incoming[i] in incoming;
          }
        }
        return merged, Some(RepeatedSession);
      }
      assert incoming[..i + 1] == incoming[..i] + [incoming[i]];
      seen := seen + {incoming[i].id};
    }
    assert incoming[..|incoming|] == incoming;
    var ordered := ValidateSessionPageOrder(existing, incoming);
    if !ordered {
      return merged, Some(NotNewestFirst);
    }
    return existing + incoming, None;
  }

  /** Neighbours inside the page first, then the pair across the page boundary. */
  method ValidateSessionPageOrder(existing: seq<SessionView>, incoming: seq<SessionView>) returns (ordered: bool)
    ensures ordered <==> OrderedAppend(existing, incoming)
  {
    var i := 0;
    while i + 1 < |incoming|
      invariant i <= |incoming|
      invariant forall k :: 0 <= k < i && k + 1 < |incoming| ==> Newer(incoming[k], incoming[k + 1])
    {
      if !Newer(incoming[i], incoming[i + 1]) {
        return false;
      }
      i := i + 1;
    }
    return existing == [] || incoming == [] || Newer(existing[|existing| - 1], incoming[0]);
  }

  /** Pushes one diagnostic at a time, refusing the first repeated quarantine id. */
  method MergeSessionDiagnostics(existing: seq<Diagnostic>, incoming: seq<Diagnostic>)
    returns (merged: seq<Diagnostic>, allNew: bool)
    ensures allNew <==> FreshDiagnostics(existing, incoming)
    ensures allNew ==> merged == existing + incoming
  {
    merged := existing;
    for i := 0 to |incoming|
      invariant merged == existing + incoming[..i]
      invariant FreshDiagnostics(existing, incoming[..i])
    {
      for k := 0 to |merged|
        invariant forall m :: 0 <= m < k ==> merged[m].quarantineId != incoming[i].quarantineId
      {
        if merged[k].quarantineId == incoming[i].quarantineId {
          if k >= |existing| {
            assert incoming[k - |existing|].quarantineId == incoming[i].quarantineId;
          }
          return merged, false;
        }
      }
      assert forall m :: 0 <= m < |existing| ==> existing[m] == merged[m];
      assert forall m :: 0 <= m < i ==> incoming[m] == merged[|existing| + m];
      merged := merged + [incoming[i]];
    }
    assert incoming[..|incoming|] == incoming;
    return merged, true;
  }

  method FindRow(rows: seq<SessionView>, id: string) returns (position: Option<nat>)
    ensures position.Some? <==> HasRow(rows, id)
    ensures position.Some? ==> position.value == FirstRow(rows, id)
  {
    for k := 0 to |rows|
      invariant forall m :: 0 <= m < k ==> rows[m].id != id
    {
      if rows[k].id == id {
        return Some(k);
      }
    }
    return None;
  }

  class PublishedResources {
    var globalRevision: nat
    var sessions: map<DeviceId, Revisioned<seq<SessionView>>>
    var catalogs: map<DeviceId, Catalog>
    var sessionRevisions: map<DeviceId, nat>

    function View(): Published
      reads this
    {
      Published(globalRevision, sessions, catalogs, sessionRevisions)
    }

    constructor ()
      ensures View() == NOTHING_PUBLISHED
    {
      globalRevision, sessions, catalogs, sessionRevisions := 0, map[], map[], map[];
    }

    method AllocateSession(d: DeviceId) returns (revision: nat)
      modifies this`globalRevision, this`sessionRevisions
      ensures View() == Allocate(old(View()), d)
      ensures revision == globalRevision
    {
      globalRevision := globalRevision + 1;
      revision := globalRevision;
      sessionRevisions := sessionRevisions[d := revision];
    }

    method PublishSessionPage(
      d: DeviceId, cursor: Option<string>, expected: Option<string>, epoch: nat, page: Page)
      returns (outcome: Outcome)
      modifies this
      ensures outcome == PublishPage(old(View()), d, cursor, expected, epoch, page)
      ensures View() == outcome.state
    {
      if !ValidMetadata(page) {
        return Refused(View(), InvalidMetadata);
      }
      var rows: seq<SessionView>, seen: set<string>, diagnostics: seq<Diagnostic> := [], {}, [];
      if cursor.Some? {
        if expected.None? {
          return Refused(View(), MissingRevision);
        }
        if d !in catalogs {
          return Refused(View(), SnapshotGone);
        }
        var current := catalogs[d];
        if current.catalogRevision != expected || page.catalogRevision != expected
           || current.connectionEpoch != epoch || current.authority != page.authority
           || current.paginationSupported != page.paginationSupported
           || current.unavailableReason != page.unavailableReason
           || current.capabilities != page.capabilities || current.nextCursor != cursor
           || cursor.value in current.seenCursors
        {
          return Refused(View(), SnapshotChanged);
        }
        if d !in sessions {
          return Refused(View(), CacheGone);
        }
        rows := sessions[d].value;
        seen := current.seenCursors + {cursor.value};
        diagnostics := current.diagnostics;
      }
      if (cursor.None? && expected.Some?) || (cursor.Some? && expected != page.catalogRevision) {
        return Refused(View(), RevisionMismatch);
      }
      if page.nextCursor.Some? && page.nextCursor.value in seen {
        return Refused(View(), RepeatedCursor);
      }
      var merged, problem := MergeSessionViews(rows, page.items);
      if problem.Some? {
        if cursor.Some? {
          catalogs := catalogs - {d};
        }
        return Refused(View(), problem.value);
      }
      var mergedDiagnostics, allNew := MergeSessionDiagnostics(diagnostics, page.diagnostics);
      if !allNew {
        if cursor.Some? {
          catalogs := catalogs - {d};
        }
        return Refused(View(), RepeatedDiagnostic);
      }
      var catalog := Catalog(page.catalogRevision, epoch, page.nextCursor, mergedDiagnostics, seen, page.authority,
                             page.paginationSupported, page.unavailableReason, page.capabilities);
      outcome := Store(d, merged, catalog);
    }

    /** Stores rows and catalog with one fresh revision; returns what subscribers receive. */
    method Store(d: DeviceId, rows: seq<SessionView>, catalog: Catalog) returns (outcome: Outcome)
      modifies this
      ensures outcome == Publish(old(View()), d, rows, catalog)
      ensures View() == outcome.state
    {
      var revision := AllocateSession(d);
      sessions := sessions[d := Revisioned(revision, rows)];
      catalogs := catalogs[d := catalog];
      outcome := Accepted(View(),
                          EventOf(d, revision, rows, catalog));
    }

    method PublishSessionDetail(d: DeviceId, catalogRevision: Option<string>, epoch: nat, detail: SessionView)
      returns (outcome: Outcome)
      modifies this
      ensures outcome == PublishDetail(old(View()), d, catalogRevision, epoch, detail)
      ensures View() == outcome.state
    {
      if d !in catalogs || catalogs[d].catalogRevision != catalogRevision || catalogs[d].connectionEpoch != epoch {
        return Refused(View(), SnapshotChanged);
      }
      if d !in sessions {
        return Refused(View(), CacheGone);
      }
      var rows := sessions[d].value;
      var position := FindRow(rows, detail.id);
      if position.None? {
        return Refused(View(), UnknownSession);
      }
      if rows[position.value].revision != detail.revision {
        return Refused(View(), SessionChanged);
      }
      if rows[position.value].verification != detail.verification {
        return Refused(View(), Unverified);
      }
      outcome := Store(d, rows[position.value := detail], catalogs[d]);
    }

    method PublishFullList(d: DeviceId, rows: seq<SessionView>) returns (outcome: Outcome)
      modifies this
      ensures outcome == PublishSessions(old(View()), d, rows)
      ensures View() == outcome.state
    {
      var revision := AllocateSession(d);
      sessions := sessions[d := Revisioned(revision, rows)];
      var capabilities := if d in catalogs then catalogs[d].capabilities else NO_CAPABILITIES;
      catalogs := catalogs - {d};
      outcome := Accepted(
        View(),
        SessionsEvent(d, revision, rows, [], None, None, false, AuthorityUnavailable, false,
                      Some(CatalogRevisionUnavailable), capabilities));
    }

    method InvalidateSessionCatalog(d: DeviceId)
      modifies this`globalRevision, this`sessionRevisions, this`catalogs
      ensures View() == Invalidate(old(View()), d)
      ensures catalogs == old(catalogs) - {d} && sessions == old(sessions)
      ensures globalRevision == old(globalRevision) + 1
      ensures sessionRevisions == old(sessionRevisions)[d := globalRevision]
    {
      catalogs := catalogs - {d};
      var _ := AllocateSession(d);
    }

    method ValidateSessionPageRequest(d: DeviceId, cursor: Option<string>, catalogRevision: Option<string>)
      returns (epoch: Option<nat>, refusal: Option<Refusal>)
      ensures refusal.None? <==> PageRequestAllowed(View(), d, cursor, catalogRevision)
      ensures refusal.None? ==>
                epoch == if cursor.None? then None else Some(catalogs[d].connectionEpoch)
    {
      epoch := None;
      match (cursor, catalogRevision) {
        case (None, None) => refusal := None;
        case (Some(c), Some(r)) =>
          if c == "" || r == "" {
            return None, Some(EmptyToken);
          }
          if d !in catalogs {
            return None, Some(SnapshotGone);
          }
          var catalog := catalogs[d];
          if catalog.catalogRevision != catalogRevision {
            return None, Some(SnapshotChanged);
          }
          if !catalog.paginationSupported {
            return None, Some(PaginationUnsupported);
          }
          if catalog.nextCursor != cursor || c in catalog.seenCursors {
            return None, Some(CursorSpent);
          }
          return Some(catalog.connectionEpoch), None;
        case _ => refusal := Some(HalfRequest);
      }
    }

    method ValidateSessionDetailRequest(
      d: DeviceId, id: string, revision: string, catalogRevision: Option<string>)
      returns (answer: ReadAnswer)
      ensures answer.Granted? <==> DetailRequestAllowed(View(), d, id, revision, catalogRevision)
      ensures answer.Granted? ==> answer.authorization == AuthorizationFor(View(), d, id)
    {
      if d !in catalogs {
        return Denied(SnapshotGone);
      }
      if catalogs[d].catalogRevision != catalogRevision {
        return Denied(SnapshotChanged);
      }
      if !catalogs[d].capabilities.sessionDetail {
        return Denied(DetailUnsupported);
      }
      if d !in sessions {
        return Denied(UnknownSession);
      }
      var position := FindRow(sessions[d].value, id);
      if position.None? {
        return Denied(UnknownSession);
      }
      var summary := sessions[d].value[position.value];
      if summary.revision != revision {
        return Denied(SessionChanged);
      }
      if !VerificationAllows(catalogs[d], summary) {
        return Denied(Unverified);
      }
      return Granted(ReadAuthorization(catalogs[d].connectionEpoch, summary.revision, summary.verification));
    }

    method AuthorizeSessionArtifactRequest(d: DeviceId, id: string) returns (answer: ReadAnswer)
      ensures answer.Granted? <==> ArtifactRequestAllowed(View(), d, id)
      ensures answer.Granted? ==> answer.authorization == AuthorizationFor(View(), d, id)
    {
      if d !in catalogs {
        return Denied(SnapshotGone);
      }
      if !catalogs[d].capabilities.artifactDownload || !catalogs[d].capabilities.sessionDetail {
        return Denied(DownloadUnsupported);
      }
      if d !in sessions {
        return Denied(UnknownSession);
      }
      var position := FindRow(sessions[d].value, id);
      if position.None? {
        return Denied(UnknownSession);
      }
      var summary := sessions[d].value[position.value];
      if !VerificationAllows(catalogs[d], summary) {
        return Denied(Unverified);
      }
      return Granted(ReadAuthorization(catalogs[d].connectionEpoch, summary.revision, summary.verification));
    }
  }
}
