/** Values that travel between the device, the backend and the client:
    session rows, catalog pages, diagnostics and published events. */
module SessionTypes {
  import opened Prelude

  type DeviceId = string

  /** A start date as the device wrote it, with what the one timestamp parser of
      the model reads in it. Backend and client use the same reading. */
  datatype DateLabel = Unreadable(text: string) | Instant(text: string, at: int)

  datatype Verdict = Usable | Unusable

  datatype Verification = Verification(
    verdict: Verdict, actor: string, validator: string, manifestSha256: string,
    verifiedAt: string, manifestDigestValid: bool)

  datatype SessionFile = SessionFile(fileId: string, displayPath: string, bytes: nat, sha256: string)

  datatype DownloadStatus = NotDownloaded | Downloading | Downloaded | DownloadFailed

  datatype SessionView = SessionView(
    id: string, revision: string, dateLabel: DateLabel, totalBytes: nat, files: seq<SessionFile>,
    downloadStatus: DownloadStatus, backedUp: bool, verification: Option<Verification>)

  datatype Diagnostic = Diagnostic(quarantineId: string, code: string, observedAt: string, message: string)

  datatype Authority = DeviceSnapshot | AuthorityUnavailable

  datatype UnavailableReason = CatalogRevisionUnavailable

  datatype Profile = LegacyPinnedTlsV1 | LabHttpV4 | UnknownProfile

  datatype Capabilities = Capabilities(
    profile: Profile, sessionDeletion: bool, sessionDetail: bool, artifactDownload: bool, captureStatus: bool)

  const NO_CAPABILITIES := Capabilities(UnknownProfile, false, false, false, false)

  /** One page of a device catalog, as the device answered and as the reply carries it. */
  datatype Page = Page(
    items: seq<SessionView>, diagnostics: seq<Diagnostic>, nextCursor: Option<string>, hasMore: bool,
    catalogRevision: Option<string>, authority: Authority, paginationSupported: bool,
    unavailableReason: Option<UnavailableReason>, capabilities: Capabilities)

  /** The event payload: the accumulated list, never just the page. */
  datatype SessionsEvent = SessionsEvent(
    device: DeviceId, revision: nat, sessions: seq<SessionView>, diagnostics: seq<Diagnostic>,
    catalogRevision: Option<string>, nextCursor: Option<string>, hasMore: bool, authority: Authority,
    paginationSupported: bool, unavailableReason: Option<UnavailableReason>, capabilities: Capabilities)

  datatype PageReply = PageReply(device: DeviceId, revision: nat, page: Page)

  predicate DistinctIds(rows: seq<SessionView>) {
    forall i, j :: 0 <= i < j < |rows| ==> rows[i].id != rows[j].id
  }

  predicate HasRow(rows: seq<SessionView>, id: string) {
    exists k :: 0 <= k < |rows| && rows[k].id == id
  }

  predicate DistinctQuarantine(diagnostics: seq<Diagnostic>) {
    forall i, j :: 0 <= i < j < |diagnostics| ==> diagnostics[i].quarantineId != diagnostics[j].quarantineId
  }

  /** Strictly newest-first on (started_at, id); two unreadable dates are never ordered. */
  predicate Newer(a: SessionView, b: SessionView) {
    && a.dateLabel.Instant?
    && b.dateLabel.Instant?
    && (a.dateLabel.at > b.dateLabel.at || (a.dateLabel.at == b.dateLabel.at && TextBefore(b.id, a.id)))
  }

  lemma NewerTransitive(a: SessionView, b: SessionView, c: SessionView)
    requires Newer(a, b) && Newer(b, c)
    ensures Newer(a, c)
  {
    if a.dateLabel.at == b.dateLabel.at == c.dateLabel.at {
      TextBeforeTransitive(c.id, b.id, a.id);
    }
  }

  /** What the code checks: neighbours only. */
  predicate NeighboursDescend(rows: seq<SessionView>) {
    forall i :: 0 <= i < |rows| - 1 ==> Newer(rows[i], rows[i + 1])
  }

  /** What the catalog promises: every pair. */
  predicate StrictlyNewestFirst(rows: seq<SessionView>) {
    forall i, j :: 0 <= i < j < |rows| ==> Newer(rows[i], rows[j])
  }

  lemma {:induction false} PairDescends(rows: seq<SessionView>, i: nat, j: nat)
    requires NeighboursDescend(rows) && i < j < |rows|
    ensures Newer(rows[i], rows[j])
    decreases j
  {
    assert Newer(rows[j - 1], rows[j - 1 + 1]);
    if i < j - 1 {
      PairDescends(rows, i, j - 1);
      NewerTransitive(rows[i], rows[j - 1], rows[j]);
    }
  }

  lemma NeighboursOrderEveryPair(rows: seq<SessionView>)
    ensures NeighboursDescend(rows) <==> StrictlyNewestFirst(rows)
  {
    if NeighboursDescend(rows) {
      forall i, j | 0 <= i < j < |rows| ensures Newer(rows[i], rows[j]) {
        PairDescends(rows, i, j);
      }
    }
  }

  predicate LowercaseHex(c: char) {
    '0' <= c <= '9' || 'a' <= c <= 'f'
  }

  /** The client's test for a usable verification: verdict and bare lowercase SHA-256. */
  predicate HasUsableVerification(s: SessionView) {
    && s.verification.Some?
    && s.verification.value.verdict == Usable
    && |s.verification.value.manifestSha256| == 64
    && forall k :: 0 <= k < 64 ==> LowercaseHex(s.verification.value.manifestSha256[k])
  }

  function UsableManifest(s: SessionView): Option<string> {
    if HasUsableVerification(s) then Some(s.verification.value.manifestSha256) else None
  }
}
