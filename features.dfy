/**
  User-level feature aggregation: every user's cleaned events are cut at a
  label timestamp (the first cancellation for a churned user, the last event
  otherwise), restricted to a look-back window, gated on activity, and
  summarised into one feature row; the rows are ordered by label timestamp.

  Timestamps are integer milliseconds since the epoch.
 */
module Features {
  import opened Base

  /** The page that marks a cancelled subscription. */
  const CHURN_EVENT: string := "Cancellation Confirmation"

  /** One row of the cleaned event log. */
  datatype Event = Event(
    userId: string,
    ts: int,
    sessionId: int,
    itemInSession: int,
    page: string,
    level: Option<string>,
    gender: Option<string>,
    location: Option<string>,
    registration: Option<int>,
    artist: Option<string>,
    song: Option<string>,
    length: Option<real>)

  /** Feature-engineering settings, with the defaults the pipeline ships. */
  datatype FeatureConfig = FeatureConfig(
    lookbackDays: int,
    minEventsPerUser: int,
    minSessionsPerUser: int,
    includeGender: bool,
    includeLevel: bool,
    includeLocation: bool)

  const DEFAULT_FEATURE_CONFIG: FeatureConfig := FeatureConfig(30, 10, 1, true, true, false)

  /** Which of the columns that the cleaner passes through untouched the event table has. */
  datatype EventColumns = EventColumns(
    page: bool,
    level: bool,
    gender: bool,
    location: bool,
    registration: bool,
    artist: bool,
    song: bool,
    length: bool)

  /**
    One user's snapshot. The `Option` fields are the keys the aggregation adds
    only under a setting or when a column exists (`None` when the key is
    absent, or when the value is NaN: `avgItemsPerSession` of a window
    without sessions).
   */
  datatype FeatureRow = FeatureRow(
    userId: string,
    labelTs: int,
    churned: int,
    numEvents: nat,
    numSessions: nat,
    numSongs: nat,
    numErrors: nat,
    numAddFriend: nat,
    numAddPlaylist: nat,
    numRollAdvert: nat,
    numThumbUp: nat,
    numThumbDown: nat,
    avgItemsPerSession: Option<real>,
    totalListeningMinutes: real,
    eventRatePerHour: real,
    distinctArtists: nat,
    distinctSongs: nat,
    paidEventRatio: real,
    genderM: Option<int>,
    genderF: Option<int>,
    currentLevelPaid: Option<int>,
    numLocations: Option<nat>,
    accountAgeDays: Option<int>,
    activeDays: int)

  // Columns and row predicates, as named functions so that equal masks are equal terms.

  function TsOf(e: Event): int { e.ts }
  function UserIdOf(e: Event): string { e.userId }
  function SessionIdOf(e: Event): int { e.sessionId }
  function ItemOf(e: Event): int { e.itemInSession }
  function LevelOf(e: Event): Option<string> { e.level }
  function GenderOf(e: Event): Option<string> { e.gender }
  function LocationOf(e: Event): Option<string> { e.location }
  function RegistrationOf(e: Event): Option<int> { e.registration }
  function ArtistOf(e: Event): Option<string> { e.artist }
  function SongOf(e: Event): Option<string> { e.song }
  function LengthOrZero(e: Event): real { if e.length.Some? then e.length.value else 0.0 }
  function LabelTsOf(r: FeatureRow): int { r.labelTs }

  function IsUser(u: string): Event -> bool { (e: Event) => e.userId == u }
  function TsBelow(c: int): Event -> bool { (e: Event) => e.ts < c }
  function TsAtLeast(c: int): Event -> bool { (e: Event) => e.ts >= c }
  function PageIs(name: string): Event -> bool { (e: Event) => e.page == name }
  function InSession(sid: int): Event -> bool { (e: Event) => e.sessionId == sid }
  function LevelIs(name: string): Event -> bool { (e: Event) => e.level == Some(name) }

  /** `_safe_ratio`: the quotient, or 0 when the denominator is 0. */
  function SafeRatio(num: real, den: real): real {
    if den == 0.0 then 0.0 else num / den
  }

  /** The ratio undoes a multiplication by a non-zero denominator, and is 0 for a zero one. */
  lemma SafeRatioSpec(num: real, den: real)
    ensures den == 0.0 ==> SafeRatio(num, den) == 0.0
    ensures den != 0.0 ==> SafeRatio(num, den) * den == num
  {
  }

  /** A count over a total that is at least as large gives a ratio in `[0, 1]`. */
  lemma SafeRatioBounds(num: real, den: real)
    requires 0.0 <= num <= den
    ensures 0.0 <= SafeRatio(num, den) <= 1.0
  {
    if den != 0.0 {
      FractionBounds(num, den);
    }
  }

  function MaxTs(w: seq<Event>): int { MaxOf(Map(w, TsOf)) }
  function MinTs(w: seq<Event>): int { MinOf(Map(w, TsOf)) }

  lemma TsBounds(w: seq<Event>)
    ensures forall i :: 0 <= i < |w| ==> MinTs(w) <= w[i].ts <= MaxTs(w)
    ensures w != [] ==> exists i :: 0 <= i < |w| && w[i].ts == MaxTs(w)
    ensures w != [] ==> exists i :: 0 <= i < |w| && w[i].ts == MinTs(w)
  {
    var m := Map(w, TsOf);
    assert forall i :: 0 <= i < |w| ==> m[i] == w[i].ts;
    if w != [] {
      var j :| 0 <= j < |m| && m[j] == MaxTs(w);
      var k :| 0 <= k < |m| && m[k] == MinTs(w);
    }
  }

  /** A span of milliseconds in hours (3 600 000 ms each). */
  function SpanHours(ms: int): real {
    ms as real / 3_600_000.0
  }

  /** Whole days (86 400 000 ms each) in a span of milliseconds, rounded down as `Timedelta.days` is. */
  function WholeDays(ms: int): int {
    ms / 86_400_000
  }

  /** `count` events over `hours` hours, per hour; the plain count over a span that is not positive. */
  function PerHour(count: nat, hours: real): real {
    if hours <= 0.0 then count as real else count as real / hours
  }

  /** Multiplying the rate back by a positive span gives the count; a span that is not positive yields the count. */
  lemma PerHourSpec(count: nat, hours: real)
    ensures PerHour(count, hours) >= 0.0
    ensures hours <= 0.0 ==> PerHour(count, hours) == count as real
    ensures hours > 0.0 ==> PerHour(count, hours) * hours == count as real
  {
    if hours > 0.0 {
      DivMul(count as real, hours);
    }
  }

  /**
    `_event_rate`: events per hour over the span from the first to the last
    event; the plain count when that span is empty, 0 without events.
   */
  function EventRate(w: seq<Event>): real {
    if w == [] then 0.0 else PerHour(|w|, SpanHours(MaxTs(w) - MinTs(w)))
  }

  /**
    The rate is never negative, is 0 without events and is the number of
    events when they all share one timestamp; otherwise it is the per-hour
    quotient over the (positive) span between the first and the last event.
   */
  lemma EventRateSpec(w: seq<Event>)
    ensures EventRate(w) >= 0.0
    ensures w == [] ==> EventRate(w) == 0.0
    ensures w != [] && MaxTs(w) == MinTs(w) ==> EventRate(w) == |w| as real
    ensures w != [] && MaxTs(w) != MinTs(w) ==>
      MaxTs(w) > MinTs(w) && EventRate(w) == PerHour(|w|, SpanHours(MaxTs(w) - MinTs(w)))
  {
    if w != [] {
      TsBounds(w);
      PerHourSpec(|w|, SpanHours(MaxTs(w) - MinTs(w)));
    }
  }

  /** `sessionId.nunique()` as the list of distinct sessions, in order of first appearance. */
  function SessionIds(w: seq<Event>): seq<int> {
    Distinct(Map(w, SessionIdOf))
  }

  /** The highest `itemInSession` of a session: its item count. */
  function MaxItemIn(w: seq<Event>): int -> int {
    sid => MaxOf(Map(Filter(w, InSession(sid)), ItemOf))
  }

  /** The last gender of `dropna().unique()`: the one whose first appearance is latest. */
  function LastGender(w: seq<Event>): Option<string> {
    var genders := Distinct(Present(Map(w, GenderOf)));
    if genders == [] then None else Some(genders[|genders| - 1])
  }

  /** The level of the latest event that has one. */
  function LastLevel(w: seq<Event>): Option<string> {
    var levels := Present(Map(w, LevelOf));
    if levels == [] then None else Some(levels[|levels| - 1])
  }

  /** The registration of the earliest event that has one. */
  function FirstRegistration(w: seq<Event>): Option<int> {
    var regs := Present(Map(w, RegistrationOf));
    if regs == [] then None else Some(regs[0])
  }

  function Indicator(b: bool): int { if b then 1 else 0 }

  /** The feature row built from a user's window `w` (time-ordered) and label timestamp. */
  function Snapshot(u: string, cutoff: int, churned: bool, w: seq<Event>,
                    cfg: FeatureConfig, cols: EventColumns): FeatureRow
  {
    var sids := SessionIds(w);
    FeatureRow(
      userId := u,
      labelTs := cutoff,
      churned := Indicator(churned),
      numEvents := |w|,
      numSessions := |sids|,
      numSongs := CountWhere(w, PageIs("NextSong")),
      numErrors := CountWhere(w, PageIs("Error")),
      numAddFriend := CountWhere(w, PageIs("Add Friend")),
      numAddPlaylist := CountWhere(w, PageIs("Add to Playlist")),
      numRollAdvert := CountWhere(w, PageIs("Roll Advert")),
      numThumbUp := CountWhere(w, PageIs("Thumbs Up")),
      numThumbDown := CountWhere(w, PageIs("Thumbs Down")),
      avgItemsPerSession :=
        if sids == [] then None
        else Some(SumOf(Map(sids, MaxItemIn(w))) as real / |sids| as real),
      totalListeningMinutes := SumReal(Map(w, LengthOrZero)) / 60.0,
      eventRatePerHour := EventRate(w),
      distinctArtists := |Distinct(Present(Map(w, ArtistOf)))|,
      distinctSongs := |Distinct(Present(Map(w, SongOf)))|,
      paidEventRatio := SafeRatio(CountWhere(w, LevelIs("paid")) as real, |w| as real),
      genderM := if cfg.includeGender && cols.gender then Some(Indicator(LastGender(w) == Some("M"))) else None,
      genderF := if cfg.includeGender && cols.gender then Some(Indicator(LastGender(w) == Some("F"))) else None,
      currentLevelPaid := if cfg.includeLevel then Some(Indicator(LastLevel(w) == Some("paid"))) else None,
      numLocations :=
        if cfg.includeLocation && cols.location then Some(|Distinct(Present(Map(w, LocationOf)))|) else None,
      accountAgeDays :=
        if cols.registration && FirstRegistration(w).Some? then Some(WholeDays(cutoff - FirstRegistration(w).value))
        else None,
      activeDays := if w == [] then 0 else WholeDays(MaxTs(w) - MinTs(w)))
  }

  /** A user's events, ordered by time. */
  function Timeline(events: seq<Event>, u: string): seq<Event> {
    SortByKey(Filter(events, IsUser(u)), TsOf)
  }

  predicate HasChurnEvent(t: seq<Event>) {
    exists i :: 0 <= i < |t| && t[i].page == CHURN_EVENT
  }

  /** The timestamp of the first cancellation in `t`. */
  function FirstChurnTs(t: seq<Event>): (c: int)
    requires HasChurnEvent(t)
    ensures exists i :: 0 <= i < |t| && t[i].page == CHURN_EVENT && t[i].ts == c
  {
    if t[0].page == CHURN_EVENT then t[0].ts
    else
      assert HasChurnEvent(t[1..]) by {
        var i :| 0 <= i < |t| && t[i].page == CHURN_EVENT;
        assert t[1..][i - 1] == t[i];
      }
      FirstChurnTs(t[1..])
  }

  /** The label timestamp of a (non-empty, time-ordered) timeline. */
  function Cutoff(t: seq<Event>): int {
    if HasChurnEvent(t) then FirstChurnTs(t) else MaxTs(t)
  }

  /** The start of a look-back window of `lookbackDays` days (of 86 400 000 ms) ending at `cutoff`. */
  function WindowStart(cutoff: int, lookbackDays: int): int {
    cutoff - lookbackDays * 86_400_000
  }

  /** The events a user's features are computed from. */
  function Window(t: seq<Event>, cfg: FeatureConfig): seq<Event> {
    var c := Cutoff(t);
    var beforeCut := if HasChurnEvent(t) then Filter(t, TsBelow(c)) else t;
    if cfg.lookbackDays != 0 then Filter(beforeCut, TsAtLeast(WindowStart(c, cfg.lookbackDays))) else beforeCut
  }

  predicate PassesGate(w: seq<Event>, cfg: FeatureConfig) {
    |w| >= cfg.minEventsPerUser && |SessionIds(w)| >= cfg.minSessionsPerUser
  }

  /** The row produced for user `u`, or `None` when `u` has no events or fails the activity gate. */
  function UserRow(events: seq<Event>, u: string, cfg: FeatureConfig, cols: EventColumns): Option<FeatureRow> {
    var t := Timeline(events, u);
    if t == [] then None
    else
      var w := Window(t, cfg);
      if PassesGate(w, cfg) then Some(Snapshot(u, Cutoff(t), HasChurnEvent(t), w, cfg, cols)) else None
  }

  /** The users of the log, each once. */
  function UserIds(events: seq<Event>): seq<string> {
    Distinct(Map(events, UserIdOf))
  }

  /** The per-user row builder, as a value to collect over the users. */
  function RowOf(events: seq<Event>, cfg: FeatureConfig, cols: EventColumns): string -> Option<FeatureRow> {
    u => UserRow(events, u, cfg, cols)
  }

  function UserIdOfRow(r: FeatureRow): string { r.userId }

  /**
    The first column the snapshot reads, among those the event table may lack,
    that is missing (`length`, `artist`, `song`, then `level`).
   */
  function MissingColumn(cols: EventColumns): Option<string> {
    if !cols.length then Some("length")
    else if !cols.artist then Some("artist")
    else if !cols.song then Some("song")
    else if !cols.level then Some("level")
    else None
  }

  /** Rows ordered by label time, one per user kept, each that user's own row. */
  ghost predicate IsFeatureTable(table: seq<FeatureRow>, events: seq<Event>, cfg: FeatureConfig, cols: EventColumns) {
    && SortedByKey(table, LabelTsOf)
    && (forall i :: 0 <= i < |table| ==> UserRow(events, table[i].userId, cfg, cols) == Some(table[i]))
    && (forall u :: UserRow(events, u, cfg, cols).Some? ==> UserRow(events, u, cfg, cols).value in table)
    && (forall i, j :: 0 <= i < j < |table| ==> table[i].userId != table[j].userId)
  }

  /**
    The body of the per-user loop of `build_user_features`: the user's events
    sorted by time, cut before the first cancellation, narrowed to the
    look-back window, gated, and summarised.
   */
  method UserSnapshot(events: seq<Event>, userId: string, cfg: FeatureConfig, cols: EventColumns)
    returns (row: Option<FeatureRow>)
    requires userId in UserIds(events)
    ensures row == RowOf(events, cfg, cols)(userId)
  {
    UserHasEvents(events, userId);
    var userEvents := SortByKey(Filter(events, IsUser(userId)), TsOf);
    ghost var timeline := userEvents;
    var churned := HasChurnEvent(userEvents);
    var cutoffTs := MaxTs(userEvents);
    if churned {
      cutoffTs := FirstChurnTs(userEvents);
      userEvents := Filter(userEvents, TsBelow(cutoffTs));
    }
    if cfg.lookbackDays != 0 {
      var windowStart := WindowStart(cutoffTs, cfg.lookbackDays);
      userEvents := Filter(userEvents, TsAtLeast(windowStart));
    }
    if |userEvents| < cfg.minEventsPerUser {
      return None;
    }
    var sessions := |SessionIds(userEvents)|;
    if sessions < cfg.minSessionsPerUser {
      return None;
    }
    return Some(Snapshot(userId, cutoffTs, churned, userEvents, cfg, cols));
  }

  /**
    `build_user_features`: one snapshot per user that passes the activity gate,
    sorted by label timestamp. A missing column the aggregation reads fails
    the whole call with that column's name (pandas' KeyError): `page` as soon
    as there is a user at all, the others once some user passes the gate.
   */
  method BuildUserFeatures(events: seq<Event>, cfg: FeatureConfig, cols: EventColumns)
    returns (result: Result<seq<FeatureRow>, string>)
    ensures !cols.page && events != [] ==> result == Err("page")
    ensures cols.page || events == [] ==>
      (result.Err? <==> MissingColumn(cols).Some? && exists u :: UserRow(events, u, cfg, cols).Some?)
    ensures cols.page && result.Err? ==> Some(result.error) == MissingColumn(cols)
    ensures result.Ok? ==> IsFeatureTable(result.value, events, cfg, cols)
  {
    var users := UserIds(events);
    if !cols.page && users != [] {
      UsersOfNonEmptyLog(events);
      return Err("page");
    }
    var collected := CollectRows(events, users, cfg, cols);
    if collected.Err? {
      var k :| 0 <= k < |users| && RowOf(events, cfg, cols)(users[k]).Some?;
      assert UserRow(events, users[k], cfg, cols).Some?;
      return collected;
    }
    var rows := collected.value;
    if !cols.page {
      UsersOfNonEmptyLog(events);
    }
    CollectedTable(events, cfg, cols, rows);
    return Ok(SortByKey(rows, LabelTsOf));
  }

  /**
    The loop over users of `build_user_features`: the kept rows in user order,
    or the first missing column the aggregation reads once some user is kept.
   */
  method CollectRows(events: seq<Event>, users: seq<string>, cfg: FeatureConfig, cols: EventColumns)
    returns (result: Result<seq<FeatureRow>, string>)
    requires users == UserIds(events)
    ensures result.Ok? ==> result.value == Collect(users, RowOf(events, cfg, cols))
    ensures result.Ok? && MissingColumn(cols).Some? ==> result.value == []
    ensures result.Err? ==> Some(result.error) == MissingColumn(cols)
    ensures result.Err? ==> exists k :: 0 <= k < |users| && RowOf(events, cfg, cols)(users[k]).Some?
  {
    ghost var rowOf := RowOf(events, cfg, cols);
    var rows: seq<FeatureRow> := [];
    for i := 0 to |users|
      invariant rows == Collect(users[..i], rowOf)
      invariant MissingColumn(cols).Some? ==> rows == []
    {
      var row := UserSnapshot(events, users[i], cfg, cols);
      CollectStep(users, i, rowOf, row);
      if row.Some? {
        if MissingColumn(cols).Some? {
          assert rowOf(users[i]).Some?;
          return Err(MissingColumn(cols).value);
        }
        rows := rows + [row.value];
      }
    }
    assert users[..|users|] == users;
    return Ok(rows);
  }

  /**
    The rows collected over all users, sorted by label time, form the feature
    table; there are none exactly when no user is kept.
   */
  lemma CollectedTable(events: seq<Event>, cfg: FeatureConfig, cols: EventColumns, rows: seq<FeatureRow>)
    requires rows == Collect(UserIds(events), RowOf(events, cfg, cols))
    ensures IsFeatureTable(SortByKey(rows, LabelTsOf), events, cfg, cols)
    ensures rows == [] <==> forall u :: UserRow(events, u, cfg, cols).None?
  {
    var users := UserIds(events);
    RowCarriesUser(events, cfg, cols, users);
    CollectSpec(users, RowOf(events, cfg, cols), UserIdOfRow);
    KeptUsersCollected(events, cfg, cols, rows);
    var table := SortByKey(rows, LabelTsOf);
    DistinctRowsSorted(rows, table, events, cfg, cols);
  }

  lemma KeptUsersCollected(events: seq<Event>, cfg: FeatureConfig, cols: EventColumns, rows: seq<FeatureRow>)
    requires forall k :: 0 <= k < |UserIds(events)| && RowOf(events, cfg, cols)(UserIds(events)[k]).Some? ==>
      RowOf(events, cfg, cols)(UserIds(events)[k]).value in rows
    requires forall i :: 0 <= i < |rows| ==> UserRow(events, rows[i].userId, cfg, cols) == Some(rows[i])
    ensures forall u :: UserRow(events, u, cfg, cols).Some? ==> UserRow(events, u, cfg, cols).value in rows
    ensures rows == [] <==> forall u :: UserRow(events, u, cfg, cols).None?
  {
    EveryKeptUserListed(events, cfg, cols);
    forall u | UserRow(events, u, cfg, cols).Some? ensures UserRow(events, u, cfg, cols).value in rows {
      var users := UserIds(events);
      var k :| 0 <= k < |users| && users[k] == u;
      assert RowOf(events, cfg, cols)(users[k]) == UserRow(events, u, cfg, cols);
    }
    if rows != [] {
      assert UserRow(events, rows[0].userId, cfg, cols).Some?;
    }
  }

  /** Every listed user has at least one event. */
  lemma UserHasEvents(events: seq<Event>, u: string)
    requires u in UserIds(events)
    ensures Timeline(events, u) != []
  {
    var ids := Map(events, UserIdOf);
    var j :| 0 <= j < |ids| && ids[j] == u;
    FilterIn(events, IsUser(u), events[j]);
  }

  lemma UsersOfNonEmptyLog(events: seq<Event>)
    ensures events != [] ==> UserIds(events) != []
  {
    if events != [] {
      assert Map(events, UserIdOf)[0] in UserIds(events);
    }
  }

  /** A user who has a row is one of the listed users. */
  lemma EveryKeptUserListed(events: seq<Event>, cfg: FeatureConfig, cols: EventColumns)
    ensures forall u :: UserRow(events, u, cfg, cols).Some? ==> u in UserIds(events)
  {
    forall u | UserRow(events, u, cfg, cols).Some? ensures u in UserIds(events) {
      var f := Filter(events, IsUser(u));
      assert f != [];
      FilterIn(events, IsUser(u), f[0]);
      var j :| 0 <= j < |events| && events[j] == f[0];
      assert Map(events, UserIdOf)[j] == u;
      DistinctIn(Map(events, UserIdOf), u);
    }
  }

  /** The row built for a user names that user. */
  lemma RowCarriesUser(events: seq<Event>, cfg: FeatureConfig, cols: EventColumns, users: seq<string>)
    ensures forall i :: 0 <= i < |users| && RowOf(events, cfg, cols)(users[i]).Some? ==>
      UserIdOfRow(RowOf(events, cfg, cols)(users[i]).value) == users[i]
  {
  }

  /** Sorting the rows keeps every row and introduces no repeated user. */
  lemma DistinctRowsSorted(rows: seq<FeatureRow>, table: seq<FeatureRow>,
                           events: seq<Event>, cfg: FeatureConfig, cols: EventColumns)
    requires multiset(rows) == multiset(table)
    requires forall i :: 0 <= i < |rows| ==> UserRow(events, rows[i].userId, cfg, cols) == Some(rows[i])
    requires forall i, j :: 0 <= i < j < |rows| ==> rows[i].userId != rows[j].userId
    ensures forall i :: 0 <= i < |table| ==> UserRow(events, table[i].userId, cfg, cols) == Some(table[i])
    ensures forall x :: x in rows <==> x in table
    ensures forall i, j :: 0 <= i < j < |table| ==> table[i].userId != table[j].userId
  {
    assert forall x :: x in rows <==> x in multiset(rows);
    assert forall x :: x in table <==> x in multiset(table);
    NoDuplicatesPermutation(rows, table);
    forall i | 0 <= i < |table| ensures UserRow(events, table[i].userId, cfg, cols) == Some(table[i]) {
      assert table[i] in rows;
    }
  }
}
