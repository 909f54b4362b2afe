/** The client's commit rules for one device (src/runtime/reducer.ts), as values:
    what every action makes of the session resource and the catalog state. */
module ClientCatalog {
  import opened Prelude
  import opened SessionTypes

  datatype Resource<T> = Resource(
    loading: bool, value: Option<T>, error: Option<string>, rpcError: Option<string>, revision: int,
    lastGood: Option<T>)

  function IdleResource<T>(): Resource<T> {
    Resource(false, None, None, None, -1, None)
  }

  datatype DetailState = DetailState(
    loading: bool, error: Option<string>, sessionRevision: string, catalogRevision: Option<string>,
    manifestSha256: string)

  datatype CatalogState = CatalogState(
    catalogRevision: Option<string>, nextCursor: Option<string>, hasMore: bool, authority: Authority,
    paginationSupported: bool, unavailableReason: Option<UnavailableReason>, capabilities: Capabilities,
    diagnostics: seq<Diagnostic>, loadingMore: bool, loadMoreError: Option<string>,
    details: map<string, DetailState>)

  const IDLE_CATALOG := CatalogState(None, None, false, AuthorityUnavailable, false, Some(CatalogRevisionUnavailable),
                                     NO_CAPABILITIES, [], false, None, map[])

  datatype Device = Device(rows: Resource<seq<SessionView>>, catalog: CatalogState)

  const IDLE_DEVICE := Device(IdleResource(), IDLE_CATALOG)

  datatype CommitResult = Unchanged | Changed | Stale

  /** Replace carries a first page, append the page after a known catalog revision. */
  datatype PageMode = Replace | Append(expected: Option<string>)

  datatype Action =
    | CatalogLoaded(event: SessionsEvent)
    | PageLoaded(reply: PageReply, mode: PageMode)
    | DetailLoaded(revision: int, detail: SessionView, sessionRevision: string, catalogRevision: Option<string>,
                   manifestSha256: string)
    | DetailStarted(sessionId: string, sessionRevision: string, catalogRevision: Option<string>,
                    manifestSha256: string)
    | DetailFailed(sessionId: string, sessionRevision: string, catalogRevision: Option<string>,
                   manifestSha256: string, error: string)
    | LoadMoreStarted(catalog: string, cursor: string)
    | LoadMoreFailed(catalog: string, cursor: string, error: string)
    | CatalogInvalidated(catalog: string, cursor: string)
    | LoadingStarted
    | LoadingFailed(error: string, rpcError: Option<string>, seenRevision: Option<int>)
    | SessionsLoaded(revision: int, sessions: seq<SessionView>)

  // ---------------------------------------------------------------- row and detail helpers

  function Rows(device: Device): seq<SessionView> {
    if device.rows.value.Some? then device.rows.value.value else []
  }

  predicate CanRetainFiles(current: SessionView, candidate: SessionView) {
    && current.revision == candidate.revision
    && candidate.files == []
    && current.files != []
    && UsableManifest(current).Some?
    && UsableManifest(current) == UsableManifest(candidate)
  }

  /** The last row with this id, the one a `Map` built from the rows keeps. */
  function LastRow(rows: seq<SessionView>, id: string): (r: Option<SessionView>)
    ensures r.Some? <==> exists k :: 0 <= k < |rows| && rows[k].id == id
    ensures r.Some? ==> r.value.id == id && r.value in rows
  {
    if rows == [] then None
    else if rows[|rows| - 1].id == id then Some(rows[|rows| - 1])
    else LastRow(rows[..|rows| - 1], id)
  }

  /** The incoming row, with the files already fetched for the very same manifest. */
  function RetainFiles(existing: seq<SessionView>, candidate: SessionView): SessionView {
    var current := LastRow(existing, candidate.id);
    if current.Some? && CanRetainFiles(current.value, candidate) then candidate.(files := current.value.files)
    else candidate
  }

  function ReplaceRows(existing: seq<SessionView>, incoming: seq<SessionView>): (rows: seq<SessionView>)
    ensures |rows| == |incoming|
    ensures forall k :: 0 <= k < |rows| ==> rows[k] == RetainFiles(existing, incoming[k])
  {
    seq(|incoming|, k requires 0 <= k < |incoming| => RetainFiles(existing, incoming[k]))
  }

  /** The last position of an id, the one a `Map` of positions keeps. */
  function LastPosition(rows: seq<SessionView>, id: string): (k: Option<nat>)
    ensures k.Some? ==> k.value < |rows| && rows[k.value].id == id
    ensures k.Some? ==> forall m :: k.value < m < |rows| ==> rows[m].id != id
    ensures k.None? ==> forall m :: 0 <= m < |rows| ==> rows[m].id != id
  {
    if rows == [] then None
    else if rows[|rows| - 1].id == id then Some(|rows| - 1)
    else LastPosition(rows[..|rows| - 1], id)
  }

  /** One incoming row: in place of the row with its id, keeping fetched files, or at the end. */
  function MergedRow(rows: seq<SessionView>, candidate: SessionView): seq<SessionView> {
    var at := LastPosition(rows, candidate.id);
    if at.None? then rows + [candidate]
    else
      var current := rows[at.value];
      rows[at.value := if CanRetainFiles(current, candidate) then candidate.(files := current.files) else candidate]
  }

  function MergedRows(existing: seq<SessionView>, incoming: seq<SessionView>): seq<SessionView> {
    if incoming == [] then existing
    else MergedRow(MergedRows(existing, incoming[..|incoming| - 1]), incoming[|incoming| - 1])
  }

  predicate DetailMatches(detail: DetailState, row: SessionView, catalogRevision: Option<string>) {
    && detail.catalogRevision == catalogRevision
    && detail.sessionRevision == row.revision
    && UsableManifest(row) == Some(detail.manifestSha256)
  }

  predicate DetailIsPresent(
    id: string, detail: DetailState, rows: seq<SessionView>, catalogRevision: Option<string>)
  {
    exists k :: 0 <= k < |rows| && rows[k].id == id && DetailMatches(detail, rows[k], catalogRevision)
  }

  function RetainDetails(details: map<string, DetailState>, rows: seq<SessionView>, catalogRevision: Option<string>)
    : map<string, DetailState>
  {
    map id | id in details && catalogRevision.Some? && DetailIsPresent(id, details[id], rows, catalogRevision)
      :: details[id]
  }

  predicate IsSuffix<T(==)>(current: seq<T>, incoming: seq<T>) {
    |incoming| <= |current| && current[|current| - |incoming|..] == incoming
  }

  predicate RepeatsIdentity(existing: seq<SessionView>, incoming: seq<SessionView>) {
    exists j :: 0 <= j < |incoming| &&
      ((exists i :: 0 <= i < |existing| && existing[i].id == incoming[j].id)
       || (exists i :: 0 <= i < j && incoming[i].id == incoming[j].id))
  }

  predicate BoundaryDescends(existing: seq<SessionView>, incoming: seq<SessionView>) {
    existing != [] && incoming != [] ==> Newer(existing[|existing| - 1], incoming[0])
  }

  predicate FreshQuarantine(existing: seq<Diagnostic>, incoming: seq<Diagnostic>) {
    forall j :: 0 <= j < |incoming| ==>
      (forall i :: 0 <= i < |existing| ==> existing[i].quarantineId != incoming[j].quarantineId)
      && (forall i :: 0 <= i < j ==> incoming[i].quarantineId != incoming[j].quarantineId)
  }

  predicate SameMetadata(c: CatalogState, page: Page) {
    && c.catalogRevision == page.catalogRevision
    && c.nextCursor == page.nextCursor
    && c.hasMore == page.hasMore
    && c.authority == page.authority
    && c.paginationSupported == page.paginationSupported
    && c.unavailableReason == page.unavailableReason
    && c.capabilities == page.capabilities
  }

  predicate ShowsEvent(device: Device, e: SessionsEvent) {
    && Rows(device) == e.sessions
    && device.catalog.catalogRevision == e.catalogRevision
    && device.catalog.nextCursor == e.nextCursor
    && device.catalog.hasMore == e.hasMore
    && device.catalog.authority == e.authority
    && device.catalog.paginationSupported == e.paginationSupported
    && device.catalog.unavailableReason == e.unavailableReason
    && device.catalog.capabilities == e.capabilities
    && device.catalog.diagnostics == e.diagnostics
  }

  /** A loaded resource with these rows. */
  function Loaded(revision: int, rows: seq<SessionView>): Resource<seq<SessionView>> {
    Resource(false, Some(rows), None, None, revision, Some(rows))
  }

  // ---------------------------------------------------------------- commits

  /** The accumulated event: `visibleSnapshotsEqual` is equality of values. */
  function CommitEvent(device: Device, e: SessionsEvent): (Device, CommitResult) {
    if e.revision < device.rows.revision then (device, Stale)
    else if !DistinctIds(e.sessions) || !DistinctQuarantine(e.diagnostics) then (device, Stale)
    else if e.revision == device.rows.revision then (device, if ShowsEvent(device, e) then Unchanged else Stale)
    else
      var rows := if e.catalogRevision.None? then e.sessions else ReplaceRows(Rows(device), e.sessions);
      (Device(
         Loaded(e.revision, rows),
         CatalogState(e.catalogRevision, e.nextCursor, e.hasMore, e.authority, e.paginationSupported,
                      e.unavailableReason, e.capabilities, e.diagnostics, false, None,
                      RetainDetails(device.catalog.details, rows, e.catalogRevision))),
       Changed)
  }

  function CommitPage(device: Device, reply: PageReply, mode: PageMode): (Device, CommitResult) {
    var page := reply.page;
    if reply.revision < device.rows.revision then (device, Stale)
    else if mode.Append? && (mode.expected.None? || device.catalog.catalogRevision != mode.expected
                             || page.catalogRevision != mode.expected) then (device, Stale)
    else if !DistinctIds(page.items) || !DistinctQuarantine(page.diagnostics) then (device, Stale)
    else if reply.revision == device.rows.revision then
      (device,
       if SameMetadata(device.catalog, page) && IsSuffix(Rows(device), page.items)
          && IsSuffix(device.catalog.diagnostics, page.diagnostics)
       then Unchanged else Stale)
    else if mode.Append? && (RepeatsIdentity(Rows(device), page.items) || !BoundaryDescends(Rows(device), page.items)
                             || !FreshQuarantine(device.catalog.diagnostics, page.diagnostics))
      then (device, Stale)
    else
      var rows := if mode.Append? then Rows(device) + page.items else page.items;
      var diagnostics := if mode.Append? then device.catalog.diagnostics + page.diagnostics else page.diagnostics;
      (Device(
         Loaded(reply.revision, rows),
         CatalogState(page.catalogRevision, page.nextCursor, page.hasMore, page.authority, page.paginationSupported,
                      page.unavailableReason, page.capabilities, diagnostics, false, None,
                      RetainDetails(device.catalog.details, rows, page.catalogRevision))),
       Changed)
  }

  predicate SessionMatches(
    device: Device, id: string, revision: string, catalogRevision: Option<string>, manifestSha256: string)
  {
    && device.catalog.catalogRevision == catalogRevision
    && exists k :: 0 <= k < |Rows(device)| && Rows(device)[k].id == id && Rows(device)[k].revision == revision
                   && UsableManifest(Rows(device)[k]) == Some(manifestSha256)
  }

  function SubstituteRow(rows: seq<SessionView>, detail: SessionView): (out: seq<SessionView>)
    ensures |out| == |rows|
    ensures forall k :: 0 <= k < |rows| ==> out[k] == if rows[k].id == detail.id then detail else rows[k]
  {
    seq(|rows|, k requires 0 <= k < |rows| => if rows[k].id == detail.id then detail else rows[k])
  }

  function SetDetail(device: Device, id: string, detail: DetailState): Device {
    device.(catalog := device.catalog.(details := device.catalog.details[id := detail]))
  }

  function CommitDetail(
    device: Device, revision: int, detail: SessionView, sessionRevision: string, catalogRevision: Option<string>,
    manifestSha256: string): (Device, CommitResult)
  {
    if revision < device.rows.revision || detail.id == "" || detail.revision != sessionRevision
       || UsableManifest(detail) != Some(manifestSha256)
       || !SessionMatches(device, detail.id, sessionRevision, catalogRevision, manifestSha256)
      then (device, Stale)
    else
      var rows := SubstituteRow(Rows(device), detail);
      var resource := Resource(false, Some(rows), device.rows.error, device.rows.rpcError, revision, Some(rows));
      (SetDetail(device.(rows := resource), detail.id,
                 DetailState(false, None, sessionRevision, catalogRevision, manifestSha256)),
       Changed)
  }

  function LoadResource<T(==)>(current: Resource<T>, revision: int, value: T): (Resource<T>, CommitResult) {
    if revision < current.revision then (current, Stale)
    else
      (Resource(false, Some(value), None, None, revision, Some(value)),
       if current.value != Some(value) || current.loading || current.error.Some? || current.rpcError.Some?
       then Changed else Unchanged)
  }

  function FailResource<T(==)>(
    current: Resource<T>, error: string, rpcError: Option<string>, seenRevision: Option<int>)
    : (Resource<T>, CommitResult)
  {
    if seenRevision.Some? && seenRevision.value < current.revision then (current, Stale)
    else
      (current.(loading := false, error := Some(error), rpcError := rpcError, value := current.lastGood),
       if current.error != Some(error) || current.rpcError != rpcError || current.loading
          || current.value != current.lastGood
       then Changed else Unchanged)
  }

  function MarkLoading<T>(current: Resource<T>): (Resource<T>, CommitResult) {
    if current.loading then (current, Unchanged)
    else (current.(loading := true, error := None, rpcError := None), Changed)
  }

  function Commit(device: Device, a: Action): (Device, CommitResult) {
    var c := device.catalog;
    match a
    case CatalogLoaded(e) => CommitEvent(device, e)
    case PageLoaded(reply, mode) => CommitPage(device, reply, mode)
    case DetailLoaded(revision, detail, sessionRevision, catalogRevision, manifest) =>
      CommitDetail(device, revision, detail, sessionRevision, catalogRevision, manifest)
    case DetailStarted(id, revision, catalogRevision, manifest) =>
      if !SessionMatches(device, id, revision, catalogRevision, manifest) then (device, Stale)
      else (SetDetail(device, id, DetailState(true, None, revision, catalogRevision, manifest)), Changed)
    case DetailFailed(id, revision, catalogRevision, manifest, error) =>
      if !SessionMatches(device, id, revision, catalogRevision, manifest) then (device, Stale)
      else (SetDetail(device, id, DetailState(false, Some(error), revision, catalogRevision, manifest)), Changed)
    case LoadMoreStarted(catalog, cursor) =>
      if c.catalogRevision != Some(catalog) || c.nextCursor != Some(cursor) || !c.hasMore || !c.paginationSupported
        then (device, Stale)
      else if c.loadingMore && c.loadMoreError.None? then (device, Unchanged)
      else (device.(catalog := c.(loadingMore := true, loadMoreError := None)), Changed)
    case LoadMoreFailed(catalog, cursor, error) =>
      if c.catalogRevision != Some(catalog) || c.nextCursor != Some(cursor) then (device, Stale)
      else (device.(catalog := c.(loadingMore := false, loadMoreError := Some(error))), Changed)
    case CatalogInvalidated(catalog, cursor) =>
      if c.catalogRevision != Some(catalog) || c.nextCursor != Some(cursor) then (device, Stale)
      else (device.(catalog := IDLE_CATALOG), Changed)
    case LoadingStarted =>
      var (rows, result) := MarkLoading(device.rows);
      (Device(rows, c.(loadingMore := false, loadMoreError := None, details := map[])), result)
    case LoadingFailed(error, rpcError, seenRevision) =>
      var (rows, result) := FailResource(device.rows, error, rpcError, seenRevision);
      (device.(rows := rows), result)
    case SessionsLoaded(revision, sessions) =>
      var (rows, result) := LoadResource(device.rows, revision, sessions);
      (device.(rows := rows), result)
  }
}
