/** The backend's published session catalogs (src-tauri/src/application.rs). */
module ServerCatalog {
  import opened Prelude
  import opened SessionTypes

  datatype Catalog = Catalog(
    catalogRevision: Option<string>, connectionEpoch: nat, nextCursor: Option<string>,
    diagnostics: seq<Diagnostic>, seenCursors: set<string>, authority: Authority,
    paginationSupported: bool, unavailableReason: Option<UnavailableReason>, capabilities: Capabilities)

  /** The part of the published resources that sessions use, as one value. */
  datatype Published = Published(
    globalRevision: nat,
    sessions: map<DeviceId, Revisioned<seq<SessionView>>>,
    catalogs: map<DeviceId, Catalog>,
    sessionRevisions: map<DeviceId, nat>)

  const NOTHING_PUBLISHED := Published(0, map[], map[], map[])

  datatype Refusal =
    | InvalidMetadata | MissingRevision | SnapshotGone | SnapshotChanged | CacheGone | RevisionMismatch
    | RepeatedCursor | RepeatedSession | NotNewestFirst | RepeatedDiagnostic
    | EmptyToken | PaginationUnsupported | CursorSpent | HalfRequest
    | DetailUnsupported | DownloadUnsupported | UnknownSession | SessionChanged | Unverified

  datatype Outcome =
    | Refused(state: Published, reason: Refusal)
    | Accepted(state: Published, event: SessionsEvent)

  // ---------------------------------------------------------------- building blocks

  /** Reserves the next revision for one device. */
  function Allocate(p: Published, d: DeviceId): Published {
    p.(globalRevision := p.globalRevision + 1, sessionRevisions := p.sessionRevisions[d := p.globalRevision + 1])
  }

  function Retire(p: Published, d: DeviceId): Published {
    p.(catalogs := p.catalogs - {d})
  }

  function EventOf(d: DeviceId, revision: nat, rows: seq<SessionView>, c: Catalog): SessionsEvent {
    SessionsEvent(d, revision, rows, c.diagnostics, c.catalogRevision, c.nextCursor, c.nextCursor.Some?, c.authority,
                  c.paginationSupported, c.unavailableReason, c.capabilities)
  }

  /** Stores rows and catalog under one fresh revision and announces the accumulated list. */
  function Publish(p: Published, d: DeviceId, rows: seq<SessionView>, c: Catalog): Outcome {
    var a := Allocate(p, d);
    Accepted(
      a.(sessions := a.sessions[d := Revisioned(a.globalRevision, rows)], catalogs := a.catalogs[d := c]),
      EventOf(d, a.globalRevision, rows, c))
  }

  predicate ValidMetadata(page: Page) {
    && (match page.authority
        case DeviceSnapshot =>
          page.catalogRevision.Some? && page.catalogRevision.value != "" && page.paginationSupported
          && page.unavailableReason.None?
        case AuthorityUnavailable =>
          page.catalogRevision.None? && !page.paginationSupported
          && page.unavailableReason == Some(CatalogRevisionUnavailable))
    && page.hasMore == page.nextCursor.Some?
    && page.nextCursor != Some("")
    && (page.paginationSupported || !page.hasMore)
  }

  /** The page belongs to the same snapshot, connection and cursor as the stored chain. */
  predicate ContinuesChain(c: Catalog, cursor: string, expected: string, epoch: nat, page: Page) {
    && c.catalogRevision == Some(expected) == page.catalogRevision
    && c.connectionEpoch == epoch
    && c.authority == page.authority
    && c.paginationSupported == page.paginationSupported
    && c.unavailableReason == page.unavailableReason
    && c.capabilities == page.capabilities
    && c.nextCursor == Some(cursor)
    && cursor !in c.seenCursors
  }

  function IdSet(rows: seq<SessionView>): set<string> {
    set r | r in rows :: r.id
  }

  /** No incoming id occurs among the existing rows or earlier in the page. */
  predicate FreshIds(existing: seq<SessionView>, incoming: seq<SessionView>) {
    DistinctIds(incoming) && IdSet(existing) !! IdSet(incoming)
  }

  /** The order checks of a page: inside the page, and across the boundary. */
  predicate OrderedAppend(existing: seq<SessionView>, incoming: seq<SessionView>) {
    && NeighboursDescend(incoming)
    && (existing != [] && incoming != [] ==> Newer(existing[|existing| - 1], incoming[0]))
  }

  predicate FreshDiagnostics(existing: seq<Diagnostic>, incoming: seq<Diagnostic>) {
    && DistinctQuarantine(incoming)
    && forall i, j :: 0 <= i < |existing| && 0 <= j < |incoming| ==>
         existing[i].quarantineId != incoming[j].quarantineId
  }

  // ---------------------------------------------------------------- publications

  /** What an append or a first page starts from. */
  datatype ChainStart =
    | NoStart(reason: Refusal)
    | StartFrom(rows: seq<SessionView>, seen: set<string>, diagnostics: seq<Diagnostic>)

  function StartOf(p: Published, d: DeviceId, cursor: Option<string>, expected: Option<string>, epoch: nat, page: Page)
    : ChainStart
  {
    if cursor.None? then StartFrom([], {}, [])
    else if expected.None? then NoStart(MissingRevision)
    else if d !in p.catalogs then NoStart(SnapshotGone)
    else if !ContinuesChain(p.catalogs[d], cursor.value, expected.value, epoch, page) then NoStart(SnapshotChanged)
    else if d !in p.sessions then NoStart(CacheGone)
    else StartFrom(p.sessions[d].value, p.catalogs[d].seenCursors + {cursor.value}, p.catalogs[d].diagnostics)
  }

  function PublishPage(
    p: Published, d: DeviceId, cursor: Option<string>, expected: Option<string>, epoch: nat, page: Page): Outcome
  {
    if !ValidMetadata(page) then Refused(p, InvalidMetadata)
    else
      match StartOf(p, d, cursor, expected, epoch, page)
      case NoStart(reason) => Refused(p, reason)
      case StartFrom(rows, seen, diagnostics) =>
        var retired := if cursor.Some? then Retire(p, d) else p;
        if (cursor.None? && expected.Some?) || (cursor.Some? && expected != page.catalogRevision)
          then Refused(p, RevisionMismatch)
        else if page.nextCursor.Some? && page.nextCursor.value in seen then Refused(p, RepeatedCursor)
        else if !FreshIds(rows, page.items) then Refused(retired, RepeatedSession)
        else if !OrderedAppend(rows, page.items) then Refused(retired, NotNewestFirst)
        else if !FreshDiagnostics(diagnostics, page.diagnostics) then Refused(retired, RepeatedDiagnostic)
        else
          Publish(p, d, rows + page.items,
                  Catalog(page.catalogRevision, epoch, page.nextCursor, diagnostics + page.diagnostics, seen,
                          page.authority, page.paginationSupported, page.unavailableReason, page.capabilities))
  }

  /** The first row with this id, as `position` and `find` return it. */
  function FirstRow(rows: seq<SessionView>, id: string): (k: nat)
    requires HasRow(rows, id)
    ensures k < |rows| && rows[k].id == id && forall m :: 0 <= m < k ==> rows[m].id != id
  {
    if rows[0].id == id then 0
    else
      assert HasRow(rows[1..], id) by {
        var k :| 0 <= k < |rows| && rows[k].id == id;
        assert rows[1..][k - 1] == rows[k];
      }
      assert forall m :: 1 <= m < |rows| ==> rows[m] == rows[1..][m - 1];
      1 + FirstRow(rows[1..], id)
  }

  function PublishDetail(p: Published, d: DeviceId, catalogRevision: Option<string>, epoch: nat, detail: SessionView)
    : Outcome
  {
    if d !in p.catalogs || p.catalogs[d].catalogRevision != catalogRevision || p.catalogs[d].connectionEpoch != epoch
      then Refused(p, SnapshotChanged)
    else if d !in p.sessions then Refused(p, CacheGone)
    else
      var rows := p.sessions[d].value;
      if !HasRow(rows, detail.id) then Refused(p, UnknownSession)
      else
        var k := FirstRow(rows, detail.id);
        if rows[k].revision != detail.revision then Refused(p, SessionChanged)
        else if rows[k].verification != detail.verification then Refused(p, Unverified)
        else Publish(p, d, rows[k := detail], p.catalogs[d])
  }

  /** A complete list without any catalog identity: the chain ends here. */
  function PublishSessions(p: Published, d: DeviceId, rows: seq<SessionView>): Outcome {
    var capabilities := if d in p.catalogs then p.catalogs[d].capabilities else NO_CAPABILITIES;
    var a := Allocate(p, d);
    Accepted(
      Retire(a, d).(sessions := a.sessions[d := Revisioned(a.globalRevision, rows)]),
      SessionsEvent(d, a.globalRevision, rows, [], None, None, false, AuthorityUnavailable, false,
                    Some(CatalogRevisionUnavailable), capabilities))
  }

  /** Connection transitions and unreadable mutations both retire the catalog and skip a revision. */
  function Invalidate(p: Published, d: DeviceId): Published {
    Allocate(Retire(p, d), d)
  }

  // ---------------------------------------------------------------- request validators

  predicate PageRequestAllowed(p: Published, d: DeviceId, cursor: Option<string>, catalogRevision: Option<string>) {
    (cursor.None? && catalogRevision.None?)
    || (cursor.Some? && catalogRevision.Some? && cursor.value != "" && catalogRevision.value != ""
        && d in p.catalogs
        && p.catalogs[d].catalogRevision == catalogRevision
        && p.catalogs[d].paginationSupported
        && p.catalogs[d].nextCursor == cursor
        && cursor.value !in p.catalogs[d].seenCursors)
  }

  predicate PermitsDetail(v: Verification, revision: string) {
    v.verdict == Usable && v.manifestDigestValid && revision == "sha256:" + v.manifestSha256
  }

  predicate VerificationAllows(c: Catalog, row: SessionView) {
    match c.capabilities.profile
    case LegacyPinnedTlsV1 => true
    case LabHttpV4 => row.verification.Some? && PermitsDetail(row.verification.value, row.revision)
    case UnknownProfile => false
  }

  predicate DetailRequestAllowed(
    p: Published, d: DeviceId, id: string, revision: string, catalogRevision: Option<string>)
  {
    && d in p.catalogs
    && p.catalogs[d].catalogRevision == catalogRevision
    && p.catalogs[d].capabilities.sessionDetail
    && d in p.sessions
    && HasRow(p.sessions[d].value, id)
    && p.sessions[d].value[FirstRow(p.sessions[d].value, id)].revision == revision
    && VerificationAllows(p.catalogs[d], p.sessions[d].value[FirstRow(p.sessions[d].value, id)])
  }

  predicate ArtifactRequestAllowed(p: Published, d: DeviceId, id: string) {
    && d in p.catalogs
    && p.catalogs[d].capabilities.artifactDownload
    && p.catalogs[d].capabilities.sessionDetail
    && d in p.sessions
    && HasRow(p.sessions[d].value, id)
    && VerificationAllows(p.catalogs[d], p.sessions[d].value[FirstRow(p.sessions[d].value, id)])
  }

  /** What a reader is bound to: the connection, the revision and the verification of the row as
      the backend has it loaded. */
  datatype ReadAuthorization = ReadAuthorization(
    connectionEpoch: nat, sessionRevision: string, verification: Option<Verification>)

  datatype ReadAnswer = Denied(reason: Refusal) | Granted(authorization: ReadAuthorization)

  function AuthorizationFor(p: Published, d: DeviceId, id: string): ReadAuthorization
    requires d in p.catalogs && d in p.sessions && HasRow(p.sessions[d].value, id)
  {
    var row := p.sessions[d].value[FirstRow(p.sessions[d].value, id)];
    ReadAuthorization(p.catalogs[d].connectionEpoch, row.revision, row.verification)
  }
}
