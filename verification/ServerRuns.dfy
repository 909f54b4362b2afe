/** What the published catalogs keep over every run of the backend. */
module ServerRuns {
  import opened Prelude
  import opened SessionTypes
  import opened ServerCatalog

  datatype Action =
    | PageAction(d: DeviceId, cursor: Option<string>, expected: Option<string>, epoch: nat, page: Page)
    | DetailAction(d: DeviceId, catalogRevision: Option<string>, epoch: nat, detail: SessionView)
    | FullListAction(d: DeviceId, rows: seq<SessionView>)
    | InvalidateAction(d: DeviceId)
    | OtherPublication

  /** The publication an action attempts; the last two attempt none. */
  function Attempt(p: Published, a: Action): Option<Outcome> {
    match a
    case PageAction(d, cursor, expected, epoch, page) => Some(PublishPage(p, d, cursor, expected, epoch, page))
    case DetailAction(d, catalogRevision, epoch, detail) =>
      Some(PublishDetail(p, d, catalogRevision, epoch, detail))
    case FullListAction(d, rows) => Some(PublishSessions(p, d, rows))
    case InvalidateAction(_) => None
    case OtherPublication => None
  }

  function Apply(p: Published, a: Action): Published {
    match a
    case InvalidateAction(d) => Invalidate(p, d)
    case OtherPublication => p.(globalRevision := p.globalRevision + 1)
    case _ => Attempt(p, a).value.state
  }

  predicate Publishes(p: Published, a: Action) {
    Attempt(p, a).Some? && Attempt(p, a).value.Accepted?
  }

  function RunFrom(p: Published, actions: seq<Action>): Published {
    if actions == [] then p else Apply(RunFrom(p, actions[..|actions| - 1]), actions[|actions| - 1])
  }

  // ---------------------------------------------------------------- history of one chain

  /** An accepted page with the cursor that requested it and the connection it was read under. */
  datatype Link = Link(cursor: Option<string>, epoch: nat, page: Page)

  datatype Traced = Traced(pub: Published, chains: map<DeviceId, seq<Link>>)

  function Trace(t: Traced, a: Action): Traced {
    var chains :=
      if !a.PageAction? || !Publishes(t.pub, a) then t.chains
      else if a.cursor.None? || a.d !in t.chains then t.chains[a.d := [Link(a.cursor, a.epoch, a.page)]]
      else t.chains[a.d := t.chains[a.d] + [Link(a.cursor, a.epoch, a.page)]];
    Traced(Apply(t.pub, a), chains)
  }

  function TraceRun(actions: seq<Action>): (t: Traced)
    ensures t.pub == RunFrom(NOTHING_PUBLISHED, actions)
  {
    if actions == [] then Traced(NOTHING_PUBLISHED, map[])
    else Trace(TraceRun(actions[..|actions| - 1]), actions[|actions| - 1])
  }

  function LoadedRows(chain: seq<Link>): seq<SessionView> {
    if chain == [] then [] else LoadedRows(chain[..|chain| - 1]) + chain[|chain| - 1].page.items
  }

  function LoadedDiagnostics(chain: seq<Link>): seq<Diagnostic> {
    if chain == [] then [] else LoadedDiagnostics(chain[..|chain| - 1]) + chain[|chain| - 1].page.diagnostics
  }

  function UsedCursors(chain: seq<Link>): seq<Option<string>> {
    seq(|chain|, i requires 0 <= i < |chain| => chain[i].cursor)
  }

  /** Each page was requested by the cursor its predecessor offered; no cursor twice. */
  predicate Linked(chain: seq<Link>) {
    && chain != []
    && chain[0].cursor.None?
    && (forall i :: 1 <= i < |chain| ==> chain[i].cursor.Some? && chain[i].cursor == chain[i - 1].page.nextCursor)
    && NoDuplicates(UsedCursors(chain))
  }

  predicate SameUpToDetail(rows: seq<SessionView>, loaded: seq<SessionView>) {
    && |rows| == |loaded|
    && forall k :: 0 <= k < |rows| ==>
         rows[k].id == loaded[k].id && rows[k].revision == loaded[k].revision
         && rows[k].verification == loaded[k].verification
  }

  /** The part of the invariant a live catalog shows without its history. */
  predicate LiveCatalog(p: Published, d: DeviceId)
    requires d in p.catalogs
  {
    && d in p.sessions
    && p.sessions[d].revision <= p.globalRevision
    && DistinctIds(p.sessions[d].value)
    && DistinctQuarantine(p.catalogs[d].diagnostics)
    && (p.catalogs[d].nextCursor.Some? ==> p.catalogs[d].nextCursor.value !in p.catalogs[d].seenCursors)
  }

  ghost predicate ChainHolds(t: Traced, d: DeviceId)
    requires d in t.pub.catalogs
  {
    && LiveCatalog(t.pub, d)
    && d in t.chains
    && var chain, c := t.chains[d], t.pub.catalogs[d];
    && Linked(chain)
    && SameUpToDetail(t.pub.sessions[d].value, LoadedRows(chain))
    && c.diagnostics == LoadedDiagnostics(chain)
    && c.nextCursor == chain[|chain| - 1].page.nextCursor
    && (forall s :: s in c.seenCursors <==> Some(s) in UsedCursors(chain))
    && (forall i :: 0 <= i < |chain| ==>
          chain[i].page.catalogRevision == c.catalogRevision && chain[i].epoch == c.connectionEpoch)
  }

  ghost predicate ChainsHold(t: Traced) {
    forall d :: d in t.pub.catalogs ==> ChainHolds(t, d)
  }

  lemma FirstPageStartsChain(t: Traced, a: Action)
    requires a.PageAction? && a.cursor.None? && Publishes(t.pub, a)
    ensures ChainHolds(Trace(t, a), a.d)
  {
    var t' := Trace(t, a);
    var chain := t'.chains[a.d];
    assert chain[..0] == [];
    assert LoadedRows(chain) == LoadedRows(chain[..0]) + a.page.items == a.page.items;
    assert LoadedDiagnostics(chain) == LoadedDiagnostics(chain[..0]) + a.page.diagnostics == a.page.diagnostics;
    assert [] + a.page.items == a.page.items && [] + a.page.diagnostics == a.page.diagnostics;
    assert UsedCursors(chain) == [None];
  }

  lemma {:induction false} ChainGrows(chain: seq<Link>, link: Link)
    requires Linked(chain) && link.cursor.Some? && link.cursor == chain[|chain| - 1].page.nextCursor
    requires link.cursor !in UsedCursors(chain)
    ensures Linked(chain + [link])
    ensures UsedCursors(chain + [link]) == UsedCursors(chain) + [link.cursor]
    ensures LoadedRows(chain + [link]) == LoadedRows(chain) + link.page.items
    ensures LoadedDiagnostics(chain + [link]) == LoadedDiagnostics(chain) + link.page.diagnostics
  {
    var grown := chain + [link];
    assert grown[..|chain|] == chain;
    var used := UsedCursors(chain);
    assert UsedCursors(grown) == used + [link.cursor];
    forall i, j | 0 <= i < j < |grown| ensures UsedCursors(grown)[i] != UsedCursors(grown)[j] {
      if j == |chain| {
        assert used[i] in used;
      } else {
        assert used[i] != used[j];
      }
    }
    forall i | 1 <= i < |grown| ensures grown[i].cursor.Some? && grown[i].cursor == grown[i - 1].page.nextCursor {
      if i < |chain| {
        assert grown[i] == chain[i] && grown[i - 1] == chain[i - 1];
      }
    }
  }

  lemma FreshRowsStayDistinct(rows: seq<SessionView>, items: seq<SessionView>)
    requires DistinctIds(rows) && FreshIds(rows, items)
    ensures DistinctIds(rows + items)
  {
    var all := rows + items;
    forall i, j | 0 <= i < j < |all| ensures all[i].id != all[j].id {
      if i < |rows| <= j {
        assert rows[i].id in IdSet(rows) && items[j - |rows|].id in IdSet(items);
      }
    }
  }

  /** What an accepted append does to one device, in terms of its old rows and catalog. */
  lemma AppendEffect(p: Published, a: Action)
    requires a.PageAction? && a.cursor.Some? && Publishes(p, a)
    ensures a.expected.Some? && a.d in p.catalogs && a.d in p.sessions
    ensures ContinuesChain(p.catalogs[a.d], a.cursor.value, a.expected.value, a.epoch, a.page)
    ensures
      var before, after := p.catalogs[a.d], Apply(p, a).catalogs[a.d];
      && before.connectionEpoch == a.epoch == after.connectionEpoch
      && before.authority == a.page.authority == after.authority
      && before.paginationSupported == a.page.paginationSupported == after.paginationSupported
      && before.unavailableReason == a.page.unavailableReason == after.unavailableReason
      && before.capabilities == a.page.capabilities == after.capabilities
      && before.nextCursor == a.cursor && a.cursor.value !in before.seenCursors
    ensures FreshIds(p.sessions[a.d].value, a.page.items)
    ensures FreshDiagnostics(p.catalogs[a.d].diagnostics, a.page.diagnostics)
    ensures a.page.nextCursor.Some? ==> a.page.nextCursor.value !in p.catalogs[a.d].seenCursors + {a.cursor.value}
    ensures
      var p' := Apply(p, a);
      && a.d in p'.catalogs && a.d in p'.sessions
      && p'.sessions[a.d] == Revisioned(p'.globalRevision, p.sessions[a.d].value + a.page.items)
      && p'.catalogs[a.d].catalogRevision == a.page.catalogRevision == p.catalogs[a.d].catalogRevision
      && p'.catalogs[a.d].nextCursor == a.page.nextCursor
      && p'.catalogs[a.d].seenCursors == p.catalogs[a.d].seenCursors + {a.cursor.value}
      && p'.catalogs[a.d].diagnostics == p.catalogs[a.d].diagnostics + a.page.diagnostics
  {
  }

  lemma AppendExtendsChain(t: Traced, a: Action)
    requires ChainsHold(t)
    requires a.PageAction? && a.cursor.Some? && Publishes(t.pub, a)
    ensures ChainHolds(Trace(t, a), a.d)
  {
    hide Apply, Publishes, LoadedRows, LoadedDiagnostics, Linked;
    var t' := Trace(t, a);
    AppendEffect(t.pub, a);
    assert ChainHolds(t, a.d);
    var chain, link := t.chains[a.d], Link(a.cursor, a.epoch, a.page);
    assert a.cursor !in UsedCursors(chain);
    ChainGrows(chain, link);
    FreshRowsStayDistinct(t.pub.sessions[a.d].value, a.page.items);
    assert t'.chains[a.d] == chain + [link];
    assert LiveCatalog(t'.pub, a.d);
    assert SameUpToDetail(t'.pub.sessions[a.d].value, LoadedRows(chain + [link]));
  }

  /** A detail replaces one row by one with the same id, revision and verification. */
  lemma DetailKeepsChain(t: Traced, a: Action)
    requires ChainsHold(t) && a.DetailAction? && Publishes(t.pub, a)
    ensures ChainHolds(Trace(t, a), a.d)
  {
    hide LoadedRows, LoadedDiagnostics, Linked, UsedCursors;
    assert ChainHolds(t, a.d);
  }

  /** Everything else leaves the catalogs it keeps, their rows and their history alone. */
  lemma StepFramesDevice(t: Traced, a: Action, d: DeviceId)
    requires d in Trace(t, a).pub.catalogs
    requires !(Publishes(t.pub, a) && (a.PageAction? || a.DetailAction?) && a.d == d)
    ensures d in t.pub.catalogs && Trace(t, a).pub.catalogs[d] == t.pub.catalogs[d]
    ensures d in t.pub.sessions ==>
              d in Trace(t, a).pub.sessions && Trace(t, a).pub.sessions[d] == t.pub.sessions[d]
    ensures d in t.chains ==> d in Trace(t, a).chains && Trace(t, a).chains[d] == t.chains[d]
    ensures Trace(t, a).pub.globalRevision >= t.pub.globalRevision
  {
    hide OrderedAppend, FreshIds, FreshDiagnostics, ContinuesChain, ValidMetadata, EventOf;
  }

  lemma StepKeepsChains(t: Traced, a: Action)
    requires ChainsHold(t)
    ensures ChainsHold(Trace(t, a))
  {
    forall d | d in Trace(t, a).pub.catalogs ensures ChainHolds(Trace(t, a), d) {
      StepKeepsChain(t, a, d);
    }
  }

  lemma StepKeepsChain(t: Traced, a: Action, d: DeviceId)
    requires ChainsHold(t) && d in Trace(t, a).pub.catalogs
    ensures ChainHolds(Trace(t, a), d)
  {
    if Publishes(t.pub, a) && a.DetailAction? && a.d == d {
      DetailKeepsChain(t, a);
    } else if Publishes(t.pub, a) && a.PageAction? && a.d == d {
      if a.cursor.None? {
        FirstPageStartsChain(t, a);
      } else {
        AppendExtendsChain(t, a);
      }
    } else {
      StepFramesDevice(t, a, d);
      assert ChainHolds(t, d);
    }
  }

  /** Over every run: a live catalog is the linked pages since the last first page, up to details. */
  lemma {:induction false} CursorChainInvariant(actions: seq<Action>)
    ensures ChainsHold(TraceRun(actions))
  {
    if actions != [] {
      CursorChainInvariant(actions[..|actions| - 1]);
      StepKeepsChains(TraceRun(actions[..|actions| - 1]), actions[|actions| - 1]);
    }
  }

  // ---------------------------------------------------------------- order

  ghost predicate Ordered(p: Published) {
    forall d :: d in p.catalogs ==> d in p.sessions && StrictlyNewestFirst(p.sessions[d].value)
  }

  /** What a caller can check before publishing a detail: its date fits between its neighbours. */
  predicate FitsBetweenNeighbours(rows: seq<SessionView>, k: nat, detail: SessionView)
    requires k < |rows|
  {
    (k > 0 ==> Newer(rows[k - 1], detail)) && (k + 1 < |rows| ==> Newer(detail, rows[k + 1]))
  }

  /** The detail publisher compares id, revision and verification, never the date, so order
      survives exactly when the new date fits. */
  lemma DetailKeepsOrderIffItFits(rows: seq<SessionView>, k: nat, detail: SessionView)
    requires k < |rows| && StrictlyNewestFirst(rows)
    ensures StrictlyNewestFirst(rows[k := detail]) <==> FitsBetweenNeighbours(rows, k, detail)
  {
    var rows' := rows[k := detail];
    NeighboursOrderEveryPair(rows);
    NeighboursOrderEveryPair(rows');
    if FitsBetweenNeighbours(rows, k, detail) {
      forall i | 0 <= i < |rows'| - 1 ensures Newer(rows'[i], rows'[i + 1]) {
        assert Newer(rows[i], rows[i + 1]);
      }
    } else {
      if k > 0 && !Newer(rows[k - 1], detail) {
        assert !Newer(rows'[k - 1], rows'[k]);
      } else {
        assert !Newer(rows'[k], rows'[k + 1]);
      }
    }
  }

  predicate DetailFits(p: Published, a: Action) {
    a.DetailAction? && Publishes(p, a) ==>
      var rows := p.sessions[a.d].value;
      FitsBetweenNeighbours(rows, FirstRow(rows, a.detail.id), a.detail)
  }

  lemma AppendKeepsOrder(rows: seq<SessionView>, items: seq<SessionView>)
    requires StrictlyNewestFirst(rows) && OrderedAppend(rows, items)
    ensures StrictlyNewestFirst(rows + items)
  {
    NeighboursOrderEveryPair(rows);
    NeighboursOrderEveryPair(rows + items);
    var all := rows + items;
    forall i | 0 <= i < |all| - 1 ensures Newer(all[i], all[i + 1]) {
      if i + 1 < |rows| {
        assert Newer(rows[i], rows[i + 1]);
      } else if i >= |rows| {
        assert Newer(items[i - |rows|], items[i - |rows| + 1]);
      }
    }
  }

  lemma StepKeepsOrder(p: Published, a: Action)
    requires Ordered(p) && DetailFits(p, a)
    ensures Ordered(Apply(p, a))
  {
    if Publishes(p, a) {
      if a.PageAction? {
        if a.cursor.Some? {
          AppendKeepsOrder(p.sessions[a.d].value, a.page.items);
        } else {
          AppendKeepsOrder([], a.page.items);
        }
      } else if a.DetailAction? {
        var rows := p.sessions[a.d].value;
        DetailKeepsOrderIffItFits(rows, FirstRow(rows, a.detail.id), a.detail);
      }
    }
  }

  /** Over every run whose details fit, every pair of rows of a live catalog is newest-first. */
  lemma {:induction false} CatalogStaysNewestFirst(actions: seq<Action>)
    requires forall n :: 0 <= n < |actions| ==>
               DetailFits(RunFrom(NOTHING_PUBLISHED, actions[..n]), actions[n])
    ensures Ordered(RunFrom(NOTHING_PUBLISHED, actions))
  {
    if actions != [] {
      var before := actions[..|actions| - 1];
      forall n | 0 <= n < |before|
        ensures DetailFits(RunFrom(NOTHING_PUBLISHED, before[..n]), before[n])
      {
        assert before[..n] == actions[..n];
      }
      CatalogStaysNewestFirst(before);
      StepKeepsOrder(RunFrom(NOTHING_PUBLISHED, before), actions[|actions| - 1]);
    }
  }

  function PlainRow(id: string, at: int): SessionView {
    SessionView(id, "r", Instant("t", at), 0, [], NotDownloaded, false, None)
  }

  /** A catalog reached by one first page, and an accepted detail after which the order is
      broken: the detail moves the date of the older row above the newer one. */
  lemma DetailCanBreakOrder() returns (first: Action, detail: Action)
    ensures Ordered(Apply(NOTHING_PUBLISHED, first))
    ensures Publishes(Apply(NOTHING_PUBLISHED, first), detail)
    ensures !Ordered(Apply(Apply(NOTHING_PUBLISHED, first), detail))
  {
    var rows := [PlainRow("b", 2), PlainRow("a", 1)];
    var page := Page(rows, [], None, false, Some("c"), DeviceSnapshot, true, None, NO_CAPABILITIES);
    first := PageAction("d", None, None, 7, page);
    detail := DetailAction("d", Some("c"), 7, PlainRow("a", 9));
    var p := Apply(NOTHING_PUBLISHED, first);
    TwoRowsAreAccepted(rows, page, first);
    assert HasRow(rows, "a") && FirstRow(rows, "a") == 1 by {
      assert rows[1].id == "a" && rows[0].id != "a";
    }
    var moved := rows[1 := PlainRow("a", 9)];
    assert Apply(p, detail).sessions["d"].value == moved;
    assert !Newer(moved[0], moved[1]);
  }

  lemma TwoRowsAreAccepted(rows: seq<SessionView>, page: Page, first: Action)
    requires rows == [PlainRow("b", 2), PlainRow("a", 1)]
    requires page == Page(rows, [], None, false, Some("c"), DeviceSnapshot, true, None, NO_CAPABILITIES)
    requires first == PageAction("d", None, None, 7, page)
    ensures
      var p := Apply(NOTHING_PUBLISHED, first);
      && p.catalogs.Keys == {"d"} && "d" in p.sessions && p.sessions["d"].value == rows
      && p.catalogs["d"].catalogRevision == Some("c") && p.catalogs["d"].connectionEpoch == 7
      && Ordered(p)
  {
    assert "b" != "a" by {
      assert "b"[0] != "a"[0];
    }
    assert Newer(rows[0], rows[1]);
    assert [] + rows == rows;
  }

  // ---------------------------------------------------------------- refusals and retirement

  /** A refused page touches no rows, no revision and no other device; it retires the device's
      own catalog exactly when a continuation of the live chain fails its merge. */
  lemma RefusedPageIsAtomic(
    p: Published, d: DeviceId, cursor: Option<string>, expected: Option<string>, epoch: nat, page: Page)
    requires PublishPage(p, d, cursor, expected, epoch, page).Refused?
    ensures
      var p' := PublishPage(p, d, cursor, expected, epoch, page).state;
      && p'.sessions == p.sessions
      && p'.sessionRevisions == p.sessionRevisions
      && p'.globalRevision == p.globalRevision
      && (forall e :: e != d ==> (e in p'.catalogs <==> e in p.catalogs))
      && (forall e :: e in p'.catalogs ==> p'.catalogs[e] == p.catalogs[e])
      && (d in p.catalogs && d !in p'.catalogs <==>
          cursor.Some? && expected.Some? && d in p.catalogs && d in p.sessions && ValidMetadata(page)
          && ContinuesChain(p.catalogs[d], cursor.value, expected.value, epoch, page)
          && (page.nextCursor.Some? ==>
              page.nextCursor.value != cursor.value && page.nextCursor.value !in p.catalogs[d].seenCursors)
          && !(FreshIds(p.sessions[d].value, page.items) && OrderedAppend(p.sessions[d].value, page.items)
               && FreshDiagnostics(p.catalogs[d].diagnostics, page.diagnostics)))
  {
  }

  /** Nothing that needs the chain is granted for this device. */
  ghost predicate Retired(p: Published, d: DeviceId) {
    && d !in p.catalogs
    && (forall cursor, revision :: cursor != None ==> !PageRequestAllowed(p, d, cursor, revision))
    && (forall id, revision, catalog :: !DetailRequestAllowed(p, d, id, revision, catalog))
    && (forall id :: !ArtifactRequestAllowed(p, d, id))
    && (forall catalog, epoch, detail :: PublishDetail(p, d, catalog, epoch, detail).Refused?)
    && (forall cursor, expected, epoch, page :: cursor != None ==>
          PublishPage(p, d, cursor, expected, epoch, page).Refused?)
  }

  predicate PublishesFirstPage(p: Published, d: DeviceId, a: Action) {
    a.PageAction? && a.d == d && a.cursor.None? && Publishes(p, a)
  }

  lemma AbsentCatalogGrantsNothing(p: Published, d: DeviceId)
    requires d !in p.catalogs
    ensures Retired(p, d)
  {
  }

  lemma {:induction false} AbsentStaysAbsent(p: Published, d: DeviceId, actions: seq<Action>)
    requires d !in p.catalogs
    requires forall n :: 0 <= n < |actions| ==> !PublishesFirstPage(RunFrom(p, actions[..n]), d, actions[n])
    ensures d !in RunFrom(p, actions).catalogs
  {
    if actions != [] {
      var before := actions[..|actions| - 1];
      forall n | 0 <= n < |before| ensures !PublishesFirstPage(RunFrom(p, before[..n]), d, before[n]) {
        assert before[..n] == actions[..n];
      }
      AbsentStaysAbsent(p, d, before);
      OnlyFirstPagesBringCatalogs(RunFrom(p, before), d, actions[|actions| - 1]);
    }
  }

  lemma OnlyFirstPagesBringCatalogs(p: Published, d: DeviceId, a: Action)
    requires d !in p.catalogs && !PublishesFirstPage(p, d, a)
    ensures d !in Apply(p, a).catalogs
  {
  }

  /** Once a catalog is gone it stays gone, and grants nothing, through every run without an
      accepted first page. */
  lemma RetirementIsFinal(p: Published, d: DeviceId, actions: seq<Action>)
    requires d !in p.catalogs
    requires forall n :: 0 <= n < |actions| ==> !PublishesFirstPage(RunFrom(p, actions[..n]), d, actions[n])
    ensures Retired(RunFrom(p, actions), d)
  {
    AbsentStaysAbsent(p, d, actions);
    AbsentCatalogGrantsNothing(RunFrom(p, actions), d);
  }

  /** A detail read under an authorisation is published exactly when it brings what was authorised,
      as long as the catalog has not moved meanwhile. */
  lemma AuthorizedDetailIsPublishedIff(
    p: Published, d: DeviceId, id: string, revision: string, catalogRevision: Option<string>, detail: SessionView)
    requires DetailRequestAllowed(p, d, id, revision, catalogRevision) && detail.id == id
    ensures
      var granted := AuthorizationFor(p, d, id);
      PublishDetail(p, d, catalogRevision, granted.connectionEpoch, detail).Accepted? <==>
      detail.revision == granted.sessionRevision && detail.verification == granted.verification
  {
  }

  /** Every accepted publication carries a revision above all earlier ones. */
  lemma PublicationsTakeFreshRevisions(p: Published, a: Action)
    ensures Apply(p, a).globalRevision >= p.globalRevision
    ensures Publishes(p, a) ==>
              && Attempt(p, a).value.event.revision == p.globalRevision + 1 == Apply(p, a).globalRevision
              && Attempt(p, a).value.event.device == a.d
              && a.d in Apply(p, a).sessions
              && Apply(p, a).sessions[a.d] ==
                   Revisioned(p.globalRevision + 1, Attempt(p, a).value.event.sessions)
  {
  }

  /** No cached rows are beyond the device's last allocated revision, nor that beyond the global one. */
  ghost predicate RevisionsBounded(p: Published) {
    && (forall d :: d in p.sessions ==>
          d in p.sessionRevisions && p.sessions[d].revision <= p.sessionRevisions[d])
    && forall d :: d in p.sessionRevisions ==> p.sessionRevisions[d] <= p.globalRevision
  }

  lemma StepKeepsRevisionsBounded(p: Published, a: Action)
    requires RevisionsBounded(p)
    ensures RevisionsBounded(Apply(p, a))
  {
    hide OrderedAppend, FreshIds, FreshDiagnostics, ContinuesChain, ValidMetadata, EventOf;
  }

  /** Over every run. */
  lemma {:induction false} SessionRevisionsAreBounded(actions: seq<Action>)
    ensures RevisionsBounded(RunFrom(NOTHING_PUBLISHED, actions))
  {
    hide Apply;
    if actions == [] {
      assert RevisionsBounded(NOTHING_PUBLISHED);
    } else {
      SessionRevisionsAreBounded(actions[..|actions| - 1]);
      StepKeepsRevisionsBounded(RunFrom(NOTHING_PUBLISHED, actions[..|actions| - 1]), actions[|actions| - 1]);
    }
  }
}
