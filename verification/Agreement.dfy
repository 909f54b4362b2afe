/** Run-level agreement: published events and first-page replies, delivered in any order,
    duplicated or dropped, never leave the client showing rows the backend did not publish; nor do
    append and detail replies that find the client on the rows they were published over. */
module Agreement {
  import opened Prelude
  import opened SessionTypes
  import S = ServerCatalog
  import R = ServerRuns
  import opened ClientCatalog

  /** What the backend announces. `base` are the rows an append or a detail was published over. */
  datatype Message =
    | EventMessage(event: SessionsEvent)
    | FirstPageMessage(reply: PageReply)
    | AppendMessage(base: seq<SessionView>, expected: string, reply: PageReply)
    | DetailMessage(base: seq<SessionView>, revision: nat, detail: SessionView, catalogRevision: Option<string>)

  function RevisionOf(m: Message): nat {
    match m
    case EventMessage(e) => e.revision
    case FirstPageMessage(reply) => reply.revision
    case AppendMessage(_, _, reply) => reply.revision
    case DetailMessage(_, revision, _, _) => revision
  }

  function RowsOf(m: Message): seq<SessionView> {
    match m
    case EventMessage(e) => e.sessions
    case FirstPageMessage(reply) => reply.page.items
    case AppendMessage(base, _, reply) => base + reply.page.items
    case DetailMessage(base, _, detail, _) => SubstituteRow(base, detail)
  }

  datatype Step =
    | Serve(action: R.Action)
    | Receive(message: Message)
    | Local(commit: Action)

  /** Backend, everything it ever announced for one device, and the client of that device. */
  datatype World = World(server: S.Published, pool: set<Message>, device: Device, received: set<Message>)

  const START := World(S.NOTHING_PUBLISHED, {}, IDLE_DEVICE, {})

  /** The reply that accompanies the event of a publication. */
  function ReplyOf(p: S.Published, a: R.Action, revision: nat): set<Message> {
    var base := if a.InvalidateAction? || a.OtherPublication? || a.d !in p.sessions then [] else p.sessions[a.d].value;
    match a
    case PageAction(d, cursor, expected, _, page) =>
      if cursor.None? then {FirstPageMessage(PageReply(d, revision, page))}
      else if expected.None? then {}
      else {AppendMessage(base, expected.value, PageReply(d, revision, page))}
    case DetailAction(_, catalogRevision, _, detail) => {DetailMessage(base, revision, detail, catalogRevision)}
    case _ => {}
  }

  function Announcements(p: S.Published, a: R.Action, d: DeviceId): set<Message> {
    if !R.Publishes(p, a) || a.d != d then {}
    else
      var event := R.Attempt(p, a).value.event;
      {EventMessage(event)} + ReplyOf(p, a, event.revision)
  }

  /** Actions of the client itself; none of them brings rows. */
  predicate BringsNoRows(a: Action) {
    !a.CatalogLoaded? && !a.PageLoaded? && !a.DetailLoaded? && !a.SessionsLoaded?
  }

  function CommitMessage(device: Device, m: Message): Device {
    match m
    case EventMessage(e) => Commit(device, CatalogLoaded(e)).0
    case FirstPageMessage(reply) => Commit(device, PageLoaded(reply, Replace)).0
    case AppendMessage(_, expected, reply) => Commit(device, PageLoaded(reply, PageMode.Append(Some(expected)))).0
    case DetailMessage(_, revision, detail, catalogRevision) =>
      var manifest := if UsableManifest(detail).Some? then UsableManifest(detail).value else "";
      Commit(device, DetailLoaded(revision, detail, detail.revision, catalogRevision, manifest)).0
  }

  /** Some received row carried exactly these files for the same id, revision and usable manifest. */
  ghost predicate Carried(received: set<Message>, row: SessionView) {
    exists m, k ::
      m in received && 0 <= k < |RowsOf(m)| && RowsOf(m)[k].id == row.id && RowsOf(m)[k].revision == row.revision
      && UsableManifest(RowsOf(m)[k]).Some? && UsableManifest(RowsOf(m)[k]) == UsableManifest(row)
      && RowsOf(m)[k].files == row.files
  }

  /** The published row, or the published row without files plus files fetched earlier. */
  ghost predicate ShowsRow(shown: SessionView, published: SessionView, received: set<Message>) {
    shown == published
    || (published.files == [] && shown.files != [] && shown == published.(files := shown.files)
        && Carried(received, shown))
  }

  ghost predicate ShowsRows(shown: seq<SessionView>, published: seq<SessionView>, received: set<Message>) {
    |shown| == |published| && forall k :: 0 <= k < |shown| ==> ShowsRow(shown[k], published[k], received)
  }

  /** An append or detail reply that is news to the client finds it on the rows it was published over. */
  ghost predicate FindsItsBase(w: World, m: Message) {
    (m.AppendMessage? || m.DetailMessage?) && w.device.rows.revision < RevisionOf(m) ==>
      ShowsRows(Rows(w.device), m.base, w.received)
  }

  /** A message outside the pool, a reply that does not find its base, or a local action that brings
      rows, is no step. */
  ghost function Next(w: World, s: Step, d: DeviceId): World {
    match s
    case Serve(a) => w.(server := R.Apply(w.server, a), pool := w.pool + Announcements(w.server, a, d))
    case Receive(m) =>
      if m in w.pool && FindsItsBase(w, m)
        then w.(device := CommitMessage(w.device, m), received := w.received + {m})
      else w
    case Local(a) => if BringsNoRows(a) then w.(device := Commit(w.device, a).0) else w
  }

  ghost function Run(steps: seq<Step>, d: DeviceId): World {
    if steps == [] then START else Next(Run(steps[..|steps| - 1], d), steps[|steps| - 1], d)
  }

  /** The backend's side: one list of rows per revision, each reply beside its event, the current
      rows among the announced ones, and no id twice in a live catalog. */
  ghost predicate PoolHolds(w: World, d: DeviceId) {
    && (forall m :: m in w.pool ==> RevisionOf(m) <= w.server.globalRevision)
    && (forall m, n :: m in w.pool && n in w.pool && RevisionOf(m) == RevisionOf(n) ==> RowsOf(m) == RowsOf(n))
    && (forall m :: m in w.pool && !m.EventMessage? ==>
          exists e :: EventMessage(e) in w.pool && e.revision == RevisionOf(m))
    && (d in w.server.sessions ==>
          exists e :: EventMessage(e) in w.pool && e.revision == w.server.sessions[d].revision
                      && e.sessions == w.server.sessions[d].value)
    && LiveRowsAreDistinct(w.server, d)
  }

  ghost predicate LiveRowsAreDistinct(p: S.Published, d: DeviceId) {
    d in p.catalogs ==> d in p.sessions && DistinctIds(p.sessions[d].value)
  }

  lemma LiveRowsStayDistinct(p: S.Published, a: R.Action, d: DeviceId)
    requires LiveRowsAreDistinct(p, d)
    ensures LiveRowsAreDistinct(R.Apply(p, a), d)
  {
    hide S.OrderedAppend, S.FreshDiagnostics, S.ContinuesChain, S.ValidMetadata, S.EventOf;
    if R.Publishes(p, a) && a.d == d {
      if a.PageAction? {
        if a.cursor.Some? {
          R.FreshRowsStayDistinct(p.sessions[d].value, a.page.items);
        } else {
          assert [] + a.page.items == a.page.items;
        }
      }
    }
  }

  /** The client's side: it shows one received message, and failure falls back to the same rows. */
  ghost predicate ClientHolds(w: World) {
    && w.received <= w.pool
    && w.device.rows.lastGood == w.device.rows.value
    && (w.device.rows.value.None? ==> w.device.rows.revision == -1)
    && (w.device.rows.value.Some? ==>
          exists m :: m in w.received && RevisionOf(m) == w.device.rows.revision
                      && ShowsRows(Rows(w.device), RowsOf(m), w.received))
  }

  lemma DetailRowsAreSubstituted(rows: seq<SessionView>, detail: SessionView)
    requires DistinctIds(rows) && HasRow(rows, detail.id)
    ensures SubstituteRow(rows, detail) == rows[S.FirstRow(rows, detail.id) := detail]
  {
  }

  /** New announcements carry the one fresh revision and the rows the backend now caches. */
  lemma AnnouncementsAreNew(p: S.Published, a: R.Action, d: DeviceId)
    requires LiveRowsAreDistinct(p, d)
    ensures forall m :: m in Announcements(p, a, d) ==>
              && RevisionOf(m) == p.globalRevision + 1
              && RowsOf(m) == R.Attempt(p, a).value.event.sessions
              && EventMessage(R.Attempt(p, a).value.event) in Announcements(p, a, d)
  {
    hide S.OrderedAppend, S.FreshIds, S.FreshDiagnostics, S.ContinuesChain, S.ValidMetadata;
    R.PublicationsTakeFreshRevisions(p, a);
    forall m | m in Announcements(p, a, d)
      ensures RowsOf(m) == R.Attempt(p, a).value.event.sessions
    {
      if m.FirstPageMessage? {
        assert [] + a.page.items == a.page.items;
      } else if m.DetailMessage? {
        DetailRowsAreSubstituted(p.sessions[d].value, a.detail);
      }
    }
  }

  lemma ServeKeepsCache(w: World, a: R.Action, d: DeviceId)
    requires PoolHolds(w, d) && d in R.Apply(w.server, a).sessions
    ensures exists e :: EventMessage(e) in Next(w, Serve(a), d).pool
              && e.revision == R.Apply(w.server, a).sessions[d].revision
              && e.sessions == R.Apply(w.server, a).sessions[d].value
  {
    R.PublicationsTakeFreshRevisions(w.server, a);
    if Announcements(w.server, a, d) != {} {
      var event := R.Attempt(w.server, a).value.event;
      assert EventMessage(event) in Next(w, Serve(a), d).pool;
    } else {
      assert d in w.server.sessions && R.Apply(w.server, a).sessions[d] == w.server.sessions[d];
      var e :| EventMessage(e) in w.pool && e.revision == w.server.sessions[d].revision
               && e.sessions == w.server.sessions[d].value;
      assert EventMessage(e) in Next(w, Serve(a), d).pool;
    }
  }

  lemma ServeKeepsPool(w: World, a: R.Action, d: DeviceId)
    requires PoolHolds(w, d)
    ensures PoolHolds(Next(w, Serve(a), d), d)
  {
    var w' := Next(w, Serve(a), d);
    R.PublicationsTakeFreshRevisions(w.server, a);
    AnnouncementsAreNew(w.server, a, d);
    LiveRowsStayDistinct(w.server, a, d);
    forall m | m in w'.pool && !m.EventMessage?
      ensures exists e :: EventMessage(e) in w'.pool && e.revision == RevisionOf(m)
    {
      if m in w.pool {
        var e :| EventMessage(e) in w.pool && e.revision == RevisionOf(m);
        assert EventMessage(e) in w'.pool;
      } else {
        assert EventMessage(R.Attempt(w.server, a).value.event) in w'.pool;
      }
    }
    if d in w'.server.sessions {
      ServeKeepsCache(w, a, d);
    }
  }

  lemma CarriedGrows(received: set<Message>, more: set<Message>, row: SessionView)
    requires received <= more && Carried(received, row)
    ensures Carried(more, row)
  {
    var m, k :| m in received && 0 <= k < |RowsOf(m)| && RowsOf(m)[k].id == row.id
      && RowsOf(m)[k].revision == row.revision && UsableManifest(RowsOf(m)[k]).Some?
      && UsableManifest(RowsOf(m)[k]) == UsableManifest(row) && RowsOf(m)[k].files == row.files;
    assert m in more;
  }

  lemma ShowsRowsGrows(shown: seq<SessionView>, published: seq<SessionView>, received: set<Message>, more: set<Message>)
    requires received <= more && ShowsRows(shown, published, received)
    ensures ShowsRows(shown, published, more)
  {
    forall k | 0 <= k < |shown| ensures ShowsRow(shown[k], published[k], more) {
      if shown[k] != published[k] {
        CarriedGrows(received, more, shown[k]);
      }
    }
  }

  /** Files kept from a shown row were carried by some received row. */
  lemma RetainedRowIsCarried(w: World, candidate: SessionView)
    requires ClientHolds(w)
    ensures ShowsRow(RetainFiles(Rows(w.device), candidate), candidate, w.received)
  {
    var row := RetainFiles(Rows(w.device), candidate);
    if row != candidate {
      var current := LastRow(Rows(w.device), candidate.id).value;
      var k :| 0 <= k < |Rows(w.device)| && Rows(w.device)[k] == current;
      var m :| m in w.received && RevisionOf(m) == w.device.rows.revision
               && ShowsRows(Rows(w.device), RowsOf(m), w.received);
      assert ShowsRow(current, RowsOf(m)[k], w.received);
      if current == RowsOf(m)[k] {
        assert RowsOf(m)[k].files == row.files;
      } else {
        var n, j :| n in w.received && 0 <= j < |RowsOf(n)| && RowsOf(n)[j].id == current.id
          && RowsOf(n)[j].revision == current.revision && UsableManifest(RowsOf(n)[j]).Some?
          && UsableManifest(RowsOf(n)[j]) == UsableManifest(current) && RowsOf(n)[j].files == current.files;
        assert RowsOf(n)[j].files == row.files;
      }
      assert Carried(w.received, row);
    }
  }

  lemma UnchangedKeepsClient(w: World, received: set<Message>)
    requires ClientHolds(w) && w.received <= received <= w.pool
    ensures ClientHolds(w.(received := received))
  {
    if w.device.rows.value.Some? {
      var n :| n in w.received && RevisionOf(n) == w.device.rows.revision
               && ShowsRows(Rows(w.device), RowsOf(n), w.received);
      ShowsRowsGrows(Rows(w.device), RowsOf(n), w.received, received);
      assert n in received;
    }
  }

  lemma ReplacementShows(w: World, m: Message)
    requires ClientHolds(w)
    ensures ShowsRows(ReplaceRows(Rows(w.device), RowsOf(m)), RowsOf(m), w.received)
  {
    forall k | 0 <= k < |RowsOf(m)|
      ensures ShowsRow(ReplaceRows(Rows(w.device), RowsOf(m))[k], RowsOf(m)[k], w.received)
    {
      RetainedRowIsCarried(w, RowsOf(m)[k]);
    }
  }

  /** A detail reply at the revision the client already shows substitutes a row of those very rows. */
  lemma DetailFindsRows(w: World, m: Message)
    requires ClientHolds(w) && m in w.pool && m.DetailMessage? && FindsItsBase(w, m)
    requires forall n :: n in w.pool && RevisionOf(n) == RevisionOf(m) ==> RowsOf(n) == RowsOf(m)
    requires w.device.rows.revision <= RevisionOf(m) && w.device.rows.value.Some?
    ensures ShowsRows(SubstituteRow(Rows(w.device), m.detail), RowsOf(m), w.received)
  {
    var shown := Rows(w.device);
    if w.device.rows.revision == RevisionOf(m) {
      var n :| n in w.received && RevisionOf(n) == w.device.rows.revision && ShowsRows(shown, RowsOf(n), w.received);
      assert RowsOf(n) == RowsOf(m);
      assert forall k :: 0 <= k < |shown| ==> ShowsRow(shown[k], RowsOf(m)[k], w.received);
    } else {
      assert forall k :: 0 <= k < |shown| ==> ShowsRow(shown[k], m.base[k], w.received);
    }
  }

  lemma NewsIsShown(w: World, m: Message, d: DeviceId)
    requires ClientHolds(w) && PoolHolds(w, d) && m in w.pool && FindsItsBase(w, m)
    requires CommitMessage(w.device, m) != w.device
    ensures ShowsRows(Rows(CommitMessage(w.device, m)), RowsOf(m), w.received)
  {
    ReplacementShows(w, m);
    match m {
      case EventMessage(_) =>
      case FirstPageMessage(_) =>
      case AppendMessage(base, _, reply) =>
        assert forall k :: 0 <= k < |base| ==> ShowsRow(Rows(w.device)[k], base[k], w.received);
      case DetailMessage(_, _, detail, _) =>
        DetailFindsRows(w, m);
    }
  }

  lemma ReceiveKeepsClient(w: World, m: Message, d: DeviceId)
    requires ClientHolds(w) && PoolHolds(w, d) && m in w.pool && FindsItsBase(w, m)
    ensures ClientHolds(Next(w, Receive(m), d))
  {
    var w' := Next(w, Receive(m), d);
    if w'.device == w.device {
      UnchangedKeepsClient(w, w'.received);
    } else {
      NewsIsShown(w, m, d);
      ShowsRowsGrows(Rows(w'.device), RowsOf(m), w.received, w'.received);
      assert m in w'.received;
    }
  }

  lemma LocalKeepsClient(w: World, a: Action, d: DeviceId)
    requires ClientHolds(w)
    ensures ClientHolds(Next(w, Local(a), d))
  {
    var w' := Next(w, Local(a), d);
    assert w'.device.rows.value == w.device.rows.value && w'.device.rows.revision == w.device.rows.revision;
    assert Rows(w'.device) == Rows(w.device);
  }

  lemma StepKeepsAgreement(w: World, s: Step, d: DeviceId)
    requires PoolHolds(w, d) && ClientHolds(w)
    ensures PoolHolds(Next(w, s, d), d) && ClientHolds(Next(w, s, d))
  {
    match s {
      case Serve(a) =>
        ServeKeepsPool(w, a, d);
      case Receive(m) =>
        if m in w.pool && FindsItsBase(w, m) {
          ReceiveKeepsClient(w, m, d);
        }
      case Local(a) =>
        LocalKeepsClient(w, a, d);
    }
  }

  lemma {:induction false} RunKeepsAgreement(steps: seq<Step>, d: DeviceId)
    ensures PoolHolds(Run(steps, d), d) && ClientHolds(Run(steps, d))
  {
    if steps != [] {
      RunKeepsAgreement(steps[..|steps| - 1], d);
      StepKeepsAgreement(Run(steps[..|steps| - 1], d), steps[|steps| - 1], d);
    }
  }

  /** Over every run: rows held at revision r are the rows announced at r, up to files fetched
      earlier for the same id, revision and manifest; at the backend's newest revision they are
      the backend's cached rows. */
  lemma ClientShowsWhatWasPublished(steps: seq<Step>, d: DeviceId)
    ensures
      var w := Run(steps, d);
      && (w.device.rows.value.Some? ==>
            exists e :: EventMessage(e) in w.pool && e.revision == w.device.rows.revision)
      && (forall e :: w.device.rows.value.Some? && EventMessage(e) in w.pool && e.revision == w.device.rows.revision ==>
            ShowsRows(Rows(w.device), e.sessions, w.received))
      && (w.device.rows.value.Some? && d in w.server.sessions
          && w.server.sessions[d].revision == w.device.rows.revision ==>
            ShowsRows(Rows(w.device), w.server.sessions[d].value, w.received))
  {
    var w := Run(steps, d);
    RunKeepsAgreement(steps, d);
    if w.device.rows.value.Some? {
      var m :| m in w.received && RevisionOf(m) == w.device.rows.revision
               && ShowsRows(Rows(w.device), RowsOf(m), w.received);
      if !m.EventMessage? {
        var e :| EventMessage(e) in w.pool && e.revision == RevisionOf(m);
      } else {
        assert EventMessage(m.event) in w.pool;
      }
      forall e | EventMessage(e) in w.pool && e.revision == w.device.rows.revision
        ensures ShowsRows(Rows(w.device), e.sessions, w.received)
      {
        assert RevisionOf(EventMessage(e)) == RevisionOf(m);
        assert RowsOf(EventMessage(e)) == RowsOf(m);
      }
    }
  }

  /** A client that is behind catches up on an event exactly when the event repeats no identity. */
  lemma EventCatchesUpIffDistinct(device: Device, e: SessionsEvent)
    requires device.rows.revision < e.revision
    ensures Commit(device, CatalogLoaded(e)).0.rows.revision == e.revision <==>
            DistinctIds(e.sessions) && DistinctQuarantine(e.diagnostics)
  {
  }

  predicate NothingToRetain(existing: seq<SessionView>, incoming: seq<SessionView>) {
    forall k :: 0 <= k < |incoming| ==> RetainFiles(existing, incoming[k]) == incoming[k]
  }

  predicate EqualUpToFiles(rows: seq<SessionView>, others: seq<SessionView>) {
    |rows| == |others| && forall k :: 0 <= k < |rows| ==> rows[k] == others[k].(files := rows[k].files)
  }

  lemma MatchIgnoresFiles(
    id: string, detail: DetailState, rows: seq<SessionView>, others: seq<SessionView>, catalogRevision: Option<string>)
    requires EqualUpToFiles(rows, others) && DetailIsPresent(id, detail, rows, catalogRevision)
    ensures DetailIsPresent(id, detail, others, catalogRevision)
  {
    var k :| 0 <= k < |rows| && rows[k].id == id && DetailMatches(detail, rows[k], catalogRevision);
    assert rows[k] == others[k].(files := rows[k].files);
    assert DetailMatches(detail, others[k], catalogRevision);
  }

  lemma DetailsIgnoreFiles(
    details: map<string, DetailState>, rows: seq<SessionView>, others: seq<SessionView>,
    catalogRevision: Option<string>)
    requires EqualUpToFiles(rows, others)
    ensures RetainDetails(details, rows, catalogRevision) == RetainDetails(details, others, catalogRevision)
  {
    assert EqualUpToFiles(others, rows) by {
      forall k | 0 <= k < |others| ensures others[k] == rows[k].(files := others[k].files) {
        assert rows[k] == others[k].(files := rows[k].files);
      }
    }
    forall id | id in details
      ensures DetailIsPresent(id, details[id], rows, catalogRevision) <==>
              DetailIsPresent(id, details[id], others, catalogRevision)
    {
      if DetailIsPresent(id, details[id], rows, catalogRevision) {
        MatchIgnoresFiles(id, details[id], rows, others, catalogRevision);
      }
      if DetailIsPresent(id, details[id], others, catalogRevision) {
        MatchIgnoresFiles(id, details[id], others, rows, catalogRevision);
      }
    }
  }

  /** The client after both announcements of a first page; only the rows it kept depend on the order. */
  function BothDelivered(device: Device, event: SessionsEvent, rows: seq<SessionView>): Device {
    Device(
      Loaded(event.revision, rows),
      CatalogState(event.catalogRevision, event.nextCursor, event.hasMore, event.authority,
                   event.paginationSupported, event.unavailableReason, event.capabilities, event.diagnostics,
                   false, None, RetainDetails(device.catalog.details, rows, event.catalogRevision)))
  }

  lemma FirstPageOrders(p: S.Published, d: DeviceId, epoch: nat, page: Page, device: Device)
    requires S.PublishPage(p, d, None, None, epoch, page).Accepted?
    requires device.rows.revision <= p.globalRevision
    ensures
      var e := S.PublishPage(p, d, None, None, epoch, page).event;
      var event, reply := EventMessage(e), FirstPageMessage(PageReply(d, e.revision, page));
      var kept := if page.catalogRevision.Some? then ReplaceRows(Rows(device), page.items) else page.items;
      && CommitMessage(CommitMessage(device, event), reply) == BothDelivered(device, e, kept)
      && CommitMessage(CommitMessage(device, reply), event) == BothDelivered(device, e, page.items)
  {
    hide S.OrderedAppend, S.ContinuesChain;
    assert [] + page.items == page.items && [] + page.diagnostics == page.diagnostics;
  }

  lemma ReplacedRowsEqualUpToFiles(existing: seq<SessionView>, incoming: seq<SessionView>)
    ensures EqualUpToFiles(ReplaceRows(existing, incoming), incoming)
    ensures ReplaceRows(existing, incoming) == incoming <==> NothingToRetain(existing, incoming)
  {
    if ReplaceRows(existing, incoming) == incoming {
      forall k | 0 <= k < |incoming| ensures RetainFiles(existing, incoming[k]) == incoming[k] {
        assert ReplaceRows(existing, incoming)[k] == incoming[k];
      }
    }
  }

  /** The two orders of one first page: the same catalog, the same rows up to files, and exactly
      the same client when no row of the page could keep fetched files. */
  lemma FirstPageOrdersAgreeUpToFiles(
    p: S.Published, d: DeviceId, epoch: nat, page: Page, device: Device)
    requires S.PublishPage(p, d, None, None, epoch, page).Accepted?
    requires device.rows.revision <= p.globalRevision
    ensures
      var event := EventMessage(S.PublishPage(p, d, None, None, epoch, page).event);
      var reply := FirstPageMessage(PageReply(d, RevisionOf(event), page));
      var eventFirst := CommitMessage(CommitMessage(device, event), reply);
      var replyFirst := CommitMessage(CommitMessage(device, reply), event);
      && replyFirst.rows.revision == eventFirst.rows.revision == RevisionOf(event)
      && replyFirst.catalog == eventFirst.catalog
      && Rows(replyFirst) == page.items
      && EqualUpToFiles(Rows(eventFirst), Rows(replyFirst))
      && (eventFirst == replyFirst <==> page.catalogRevision.None? || NothingToRetain(Rows(device), page.items))
  {
    hide S.PublishPage, CommitMessage, RetainDetails, ReplaceRows, NothingToRetain;
    var e := S.PublishPage(p, d, None, None, epoch, page).event;
    var kept := if page.catalogRevision.Some? then ReplaceRows(Rows(device), page.items) else page.items;
    FirstPageOrders(p, d, epoch, page, device);
    ReplacedRowsEqualUpToFiles(Rows(device), page.items);
    DetailsIgnoreFiles(device.catalog.details, kept, page.items, e.catalogRevision);
  }
}
