/**
 * The pure helpers of the dashboard page: which settings are masked, the
 * colour of a challenge's status badge, the page of challenges shown and
 * the "Showing a to b of n" line, the audit-log filter, and which edited
 * settings are sent back to the server.
 */
module Dashboard {

  import opened Wrappers
  import opened Text
  import opened Seqs

  // ---------------------------------------------------------------------------
  // sensitive settings

  /** `isSensitiveField`: a key naming a token or a password is masked. */
  predicate IsSensitiveField(key: string) {
    Contains(key, "TOKEN") || Contains(key, "PASSWORD")
  }

  /** A key is sensitive exactly when "TOKEN" or "PASSWORD" occurs somewhere in it. */
  lemma SensitiveIffOccurs(key: string)
    ensures IsSensitiveField(key) <==>
      (exists i: nat :: OccursAt(key, "TOKEN", i)) || (exists i: nat :: OccursAt(key, "PASSWORD", i))
  {
    ContainsIff(key, "TOKEN");
    ContainsIff(key, "PASSWORD");
  }

  // ---------------------------------------------------------------------------
  // status badge

  const GRAY := "bg-gray-100 text-gray-800"
  const BLUE := "bg-blue-100 text-blue-800"
  const PURPLE := "bg-purple-100 text-purple-800"
  const GREEN := "bg-green-100 text-green-800"

  /**
   * `getStatusColor`: a concluded challenge is gray; an active one is blue,
   * purple or green for the submissions, voting and completed phases in any
   * case, and gray for anything else.
   */
  function StatusColor(status: string, isActive: bool): (r: string)
    ensures r == GRAY || r == BLUE || r == PURPLE || r == GREEN
    ensures !isActive ==> r == GRAY
    ensures r == BLUE <==> isActive && ToLower(status) == "submissions"
    ensures r == PURPLE <==> isActive && ToLower(status) == "voting"
    ensures r == GREEN <==> isActive && ToLower(status) == "completed"
  {
    assert GRAY[3] != BLUE[3] && GRAY[3] != PURPLE[3] && GRAY[5] != GREEN[5];
    assert BLUE[3] != PURPLE[3] && BLUE[3] != GREEN[3] && PURPLE[3] != GREEN[3];
    if !isActive then GRAY
    else
      var lower := ToLower(status);
      if lower == "submissions" then BLUE
      else if lower == "voting" then PURPLE
      else if lower == "completed" then GREEN
      else GRAY
  }

  /** The badge ignores the case of the status. */
  lemma StatusColorIgnoresCase(a: string, b: string, isActive: bool)
    requires ToLower(a) == ToLower(b)
    ensures StatusColor(a, isActive) == StatusColor(b, isActive)
  {
  }

  // ---------------------------------------------------------------------------
  // pagination

  function Min(a: int, b: int): int { if a <= b then a else b }

  /** Where a `slice` bound lands: a negative bound counts from the end, and bounds are clamped to the length. */
  function SliceBound(i: int, len: nat): (r: nat)
    ensures r <= len
    ensures 0 <= i <= len ==> r == i
    ensures i > len ==> r == len
    ensures i < 0 ==> r == if len + i < 0 then 0 else len + i
  {
    if i < 0 then (if len + i < 0 then 0 else len + i)
    else if i > len then len
    else i
  }

  /** `Array.prototype.slice(start, end)`. */
  function JsSlice<T>(s: seq<T>, start: int, end: int): (r: seq<T>)
    ensures |r| <= |s|
  {
    var a, b := SliceBound(start, |s|), SliceBound(end, |s|);
    if a < b then s[a..b] else []
  }

  /** `paginatedChallenges`: the slice of the list shown on the current page. */
  function Paginated<T>(items: seq<T>, currentPage: int, itemsPerPage: int): seq<T> {
    JsSlice(items, (currentPage - 1) * itemsPerPage, currentPage * itemsPerPage)
  }

  /** `Math.ceil(totalItems / itemsPerPage)` for a positive page size. */
  function TotalPages(totalItems: nat, itemsPerPage: nat): (r: nat)
    requires itemsPerPage > 0
    ensures itemsPerPage * r >= totalItems
    ensures r > 0 ==> itemsPerPage * (r - 1) < totalItems
  {
    (totalItems + itemsPerPage - 1) / itemsPerPage
  }

  /** The first number of the "Showing a to b of n" line. */
  function ShowingFrom(currentPage: int, itemsPerPage: int): int {
    (currentPage - 1) * itemsPerPage + 1
  }

  /** The second number of the "Showing a to b of n" line. */
  function ShowingTo(currentPage: int, itemsPerPage: int, totalItems: nat): int {
    Min(currentPage * itemsPerPage, totalItems)
  }

  lemma MulMono(a: int, b: int, n: nat)
    requires a <= b
    ensures a * n <= b * n
  {
  }

  /**
   * On a page from the first up, the page shows the items from position
   * (page−1)·n up to but not including min(page·n, length), in order, so at
   * most n of them.
   */
  lemma PageIsWindow<T>(items: seq<T>, currentPage: nat, itemsPerPage: nat)
    requires currentPage >= 1 && itemsPerPage > 0
    ensures var lo, hi := Min((currentPage - 1) * itemsPerPage, |items|), Min(currentPage * itemsPerPage, |items|);
      && lo <= hi
      && Paginated(items, currentPage, itemsPerPage) == items[lo..hi]
      && |Paginated(items, currentPage, itemsPerPage)| <= itemsPerPage
  {
    var start, end := (currentPage - 1) * itemsPerPage, currentPage * itemsPerPage;
    assert end == start + itemsPerPage;
    MulMono(0, currentPage - 1, itemsPerPage);
  }

  /**
   * On every page that the page count allows, the "Showing" line names a
   * non-empty range inside the list, and it has as many numbers as the page
   * has items.
   */
  lemma ShowingMatchesPage<T>(items: seq<T>, currentPage: nat, itemsPerPage: nat)
    requires itemsPerPage > 0
    requires 1 <= currentPage <= TotalPages(|items|, itemsPerPage)
    ensures var from, to := ShowingFrom(currentPage, itemsPerPage), ShowingTo(currentPage, itemsPerPage, |items|);
      && 1 <= from <= to <= |items|
      && to - from + 1 == |Paginated(items, currentPage, itemsPerPage)|
  {
    var total := TotalPages(|items|, itemsPerPage);
    PageIsWindow(items, currentPage, itemsPerPage);
    MulMono(currentPage - 1, total - 1, itemsPerPage);
    MulMono(0, currentPage - 1, itemsPerPage);
    assert (currentPage - 1) * itemsPerPage < |items|;
  }

  /** No items make no pages; otherwise the last page is the one holding the last item. */
  lemma TotalPagesBounds(totalItems: nat, itemsPerPage: nat)
    requires itemsPerPage > 0
    ensures TotalPages(totalItems, itemsPerPage) == 0 <==> totalItems == 0
  {
  }

  // ---------------------------------------------------------------------------
  // audit log filter

  /** One audit log entry; the time is an instant in milliseconds. */
  datatype AuditLog = AuditLog(actionType: string, timestamp: int, details: string)

  /** The date bounds of the filter; an empty field is None. Each bound is the instant its date parses to. */
  datatype DateRange = DateRange(start: Option<int>, end: Option<int>)

  /** The action-type test: 'all', or one of 'env', 'challenge', 'warning' with its marker in the action type. */
  predicate MatchesAction(auditFilter: string, actionType: string) {
    || auditFilter == "all"
    || (auditFilter == "env" && Contains(actionType, "ENV"))
    || (auditFilter == "challenge" && Contains(actionType, "CHALLENGE"))
    || (auditFilter == "warning" && Contains(actionType, "WARNING"))
  }

  /** The date test: on or after the start when there is one, on or before the end when there is one. */
  predicate InRange(range: DateRange, timestamp: int) {
    && (range.start.None? || timestamp >= range.start.value)
    && (range.end.None? || timestamp <= range.end.value)
  }

  function Passes(auditFilter: string, range: DateRange): AuditLog -> bool {
    (log: AuditLog) => MatchesAction(auditFilter, log.actionType) && InRange(range, log.timestamp)
  }

  /** `getFilteredAuditLogs` */
  function FilteredAuditLogs(logs: seq<AuditLog>, auditFilter: string, range: DateRange): seq<AuditLog> {
    Filter(logs, Passes(auditFilter, range))
  }

  /**
   * The filtered logs keep their order, and a log is in them exactly when its
   * action type matches the filter and its time lies within the bounds.
   */
  lemma FilteredLogsAreTheMatching(logs: seq<AuditLog>, auditFilter: string, range: DateRange)
    ensures IsSubsequence(FilteredAuditLogs(logs, auditFilter, range), logs)
    ensures forall log :: log in FilteredAuditLogs(logs, auditFilter, range) <==>
      log in logs && MatchesAction(auditFilter, log.actionType) && InRange(range, log.timestamp)
  {
    var p := Passes(auditFilter, range);
    var f := FilteredAuditLogs(logs, auditFilter, range);
    FilterIsSubsequence(logs, p);
    forall log | log in f ensures log in logs && p(log) {
      var k :| 0 <= k < |f| && f[k] == log;
    }
    forall log | log in logs && p(log) ensures log in f {
      var k :| 0 <= k < |logs| && logs[k] == log;
    }
  }

  /** With 'all' and no date bounds every log is shown, in order. */
  lemma NoFilterShowsAll(logs: seq<AuditLog>)
    ensures FilteredAuditLogs(logs, "all", DateRange(None, None)) == logs
  {
    FilterAll(logs, Passes("all", DateRange(None, None)));
  }

  /** A filter value other than the four known ones shows nothing. */
  lemma UnknownFilterShowsNothing(logs: seq<AuditLog>, auditFilter: string, range: DateRange)
    requires auditFilter != "all" && auditFilter != "env" && auditFilter != "challenge" && auditFilter != "warning"
    ensures FilteredAuditLogs(logs, auditFilter, range) == []
  {
    FilterNone(logs, Passes(auditFilter, range));
  }

  // ---------------------------------------------------------------------------
  // saving edited settings

  /** `handleEnvUpdate`: the keys whose edited value differs from the loaded one (a missing key always differs). */
  function ChangedKeys(edited: map<string, string>, loaded: map<string, string>): (r: set<string>)
    ensures r <= edited.Keys
    ensures forall k :: k in edited && k !in r ==> k in loaded && loaded[k] == edited[k]
  {
    set k | k in edited && (k !in loaded || edited[k] != loaded[k])
  }

  /** Nothing is sent when nothing was edited. */
  lemma UneditedSendsNothing(loaded: map<string, string>)
    ensures ChangedKeys(loaded, loaded) == {}
  {
  }

  /** Sending only the changed keys leaves the settings as sending every edited key would. */
  lemma ChangedKeysSuffice(edited: map<string, string>, loaded: map<string, string>)
    ensures var changed := ChangedKeys(edited, loaded);
      loaded + (map k | k in changed :: edited[k]) == loaded + edited
  {
    var changed := ChangedKeys(edited, loaded);
    var sent := map k | k in changed :: edited[k];
    assert (loaded + sent).Keys == (loaded + edited).Keys;
  }
}
