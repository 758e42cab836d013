/**
  `clean_event_log`: drops the events without a usable user id and coerces
  the numeric fields of the rest, keeping their order. A raw cell is what
  the JSON-lines reader leaves in a column: nothing, a string, or a number.
 */
module DataLoader {
  import opened Base
  import opened Text

  /** A raw cell: missing (null / NaN), a string, or a JSON number. */
  datatype Raw = Missing | Str(text: string) | Number(value: real)

  /** A raw user id: missing, a string, or an integer. */
  datatype RawId = NoId | IdText(text: string) | IdNumber(number: int)

  /** A raw event: the cells `clean_event_log` reads or rewrites, and the other columns, which it carries through. */
  datatype RawEvent = RawEvent(
    userId: RawId, ts: Raw, registration: Raw, sessionId: Raw, itemInSession: Raw, length: Raw,
    others: seq<Raw>)

  /** A raw table: the names of its columns and its rows (a column the table lacks reads as `Missing`). */
  datatype RawLog = RawLog(columns: set<string>, rows: seq<RawEvent>)

  /**
    A cleaned event: timestamps in milliseconds (`None` is NaT), whole
    session and item numbers, and the length only when the table has that
    column.
   */
  datatype CleanEvent = CleanEvent(
    userId: string, ts: Option<int>, registration: Option<int>, sessionId: int, itemInSession: int,
    length: Option<real>, others: seq<Raw>)

  /**
    The batch fails on a column the cleaner reads but the table lacks, on a
    timestamp that is text but no number, or on one outside datetime64[ns].
   */
  datatype CleanError = MissingColumn(name: string) | UnparsableTimestamp(text: string) | OutOfBoundsTimestamp(ms: real)

  /** The rows that survive the three user-id masks: not null, not "", not "None". */
  predicate KeepRow(r: RawEvent) {
    r.userId != NoId && r.userId != IdText("") && r.userId != IdText("None")
  }

  /** `astype(str)` of a surviving user id. */
  function IdString(id: RawId): string {
    match id
    case NoId => "None"
    case IdText(s) => s
    case IdNumber(n) => IntToString(n)
  }

  /** `pd.to_numeric(..., errors="coerce")` of one cell: a number, or `None` where pandas gives NaN. */
  function ToNumeric(cell: Raw): Option<real> {
    match cell
    case Missing => None
    case Number(v) => Some(v)
    case Str(s) =>
      match ParseInt(s)
      case Some(n) => Some(n as real)
      case None => ParseDecimal(s)
  }

  /** `astype(int)`: truncation toward zero. */
  function Truncate(v: real): int {
    if v >= 0.0 then v.Floor else -((-v).Floor)
  }

  /** `to_numeric(...).fillna(default).astype(int)`. */
  function WholeOr(cell: Raw, default: int): int {
    match ToNumeric(cell)
    case None => default
    case Some(v) => Truncate(v)
  }

  /** The texts `to_datetime` reads as NaT instead of parsing them as numbers. */
  const NAT_TEXTS: set<string> := {"", "NaT", "nat", "NAT", "nan", "NaN", "NAN"}

  /** The largest nanosecond count datetime64[ns] holds, 2^63 - 1; its negation is the smallest. */
  const MAX_NS: int := 0x7FFF_FFFF_FFFF_FFFF

  /** A millisecond value whose nanosecond count datetime64[ns] can hold. */
  predicate InDatetimeRange(ms: real) {
    -(MAX_NS as real) <= ms * 1000000.0 <= MAX_NS as real
  }

  /** `pd.to_datetime(cell, unit="ms", errors="coerce")`: the millisecond, or NaT for text that is no number and for a value out of range. */
  function CoercedTime(cell: Raw): (t: Option<int>)
    ensures t.Some? <==> ToNumeric(cell).Some? && InDatetimeRange(ToNumeric(cell).value)
    ensures t.Some? ==> t.value == Truncate(ToNumeric(cell).value) && InDatetimeRange(t.value as real)
  {
    match ToNumeric(cell)
    case None => None
    case Some(v) =>
      TruncateWithin(v);
      if InDatetimeRange(v) then Some(Truncate(v)) else None
  }

  /** The conversion of one number of milliseconds, failing outside datetime64[ns]. */
  function MillisecondTime(v: real): Result<Option<int>, CleanError> {
    if InDatetimeRange(v) then Ok(Some(Truncate(v))) else Err(OutOfBoundsTimestamp(v))
  }

  /**
    `pd.to_datetime(cell, unit="ms")` without coercion: NaT for a missing
    cell, the empty text and the NaT spellings; an error for other text that
    is no number and for a value outside datetime64[ns]; otherwise the
    millisecond.
   */
  function StrictTime(cell: Raw): (r: Result<Option<int>, CleanError>)
    ensures r == Ok(None) <==> cell.Missing? || (cell.Str? && cell.text in NAT_TEXTS)
    ensures r.Err? <==>
      !cell.Missing? && !(cell.Str? && cell.text in NAT_TEXTS)
      && (ToNumeric(cell).None? || !InDatetimeRange(ToNumeric(cell).value))
    ensures r.Ok? && r.value.Some? ==>
      ToNumeric(cell).Some? && r.value.value == Truncate(ToNumeric(cell).value)
      && InDatetimeRange(r.value.value as real)
  {
    match cell
    case Missing => Ok(None)
    case Number(v) =>
      TruncateWithin(v);
      MillisecondTime(v)
    case Str(s) =>
      if s in NAT_TEXTS then Ok(None)
      else
        match ToNumeric(cell)
        case None => Err(UnparsableTimestamp(s))
        case Some(v) =>
          TruncateWithin(v);
          MillisecondTime(v)
  }

  /** Truncation moves a value toward zero, so it stays in any range about zero that holds the value. */
  lemma TruncateWithin(v: real)
    ensures InDatetimeRange(v) ==> InDatetimeRange(Truncate(v) as real)
  {
    var t := Truncate(v) as real;
    if v >= 0.0 {
      assert 0.0 <= t <= v;
    } else {
      assert v <= t <= 0.0;
    }
  }

  function IsStrictTimeError(r: RawEvent): bool {
    StrictTime(r.ts).Err?
  }

  /** One surviving row, once its timestamp is known to convert. */
  function CleanRow(r: RawEvent, hasLength: bool): CleanEvent
    requires StrictTime(r.ts).Ok?
  {
    CleanEvent(
      IdString(r.userId),
      StrictTime(r.ts).value,
      CoercedTime(r.registration),
      WholeOr(r.sessionId, -1),
      WholeOr(r.itemInSession, 0),
      if hasLength then Some(match ToNumeric(r.length) case None => 0.0 case Some(v) => v) else None,
      r.others)
  }

  function CleanRows(rows: seq<RawEvent>, hasLength: bool): (out: seq<CleanEvent>)
    requires forall i :: 0 <= i < |rows| ==> StrictTime(rows[i].ts).Ok?
    ensures |out| == |rows|
    ensures forall i :: 0 <= i < |rows| ==> out[i] == CleanRow(rows[i], hasLength)
  {
    if rows == [] then [] else [CleanRow(rows[0], hasLength)] + CleanRows(rows[1..], hasLength)
  }

  /** The first timestamp error among `rows`, if any. */
  function FirstTimeError(rows: seq<RawEvent>): (r: Option<CleanError>)
    ensures r.None? <==> forall i :: 0 <= i < |rows| ==> StrictTime(rows[i].ts).Ok?
    ensures r.Some? ==> exists i :: 0 <= i < |rows| && StrictTime(rows[i].ts) == Err(r.value)
  {
    if rows == [] then None
    else if StrictTime(rows[0].ts).Err? then Some(StrictTime(rows[0].ts).error)
    else
      var rest := FirstTimeError(rows[1..]);
      assert forall i :: 1 <= i < |rows| ==> rows[i] == rows[1..][i - 1];
      rest
  }

  /** The columns read without a fallback, in the order the cleaner reads them. */
  const REQUIRED_COLUMNS: seq<string> := ["userId", "ts", "registration", "sessionId", "itemInSession"]

  /**
    `clean_event_log`: the rows with a usable user id, in their order, each
    cleaned; an error for the whole batch when a required column is missing
    or a kept row's timestamp is text that is no number or lies outside
    datetime64[ns].
   */
  function CleanEventLog(log: RawLog): Result<seq<CleanEvent>, CleanError> {
    if "userId" !in log.columns then Err(MissingColumn("userId"))
    else
      var kept := Filter(log.rows, KeepRow);
      if "ts" !in log.columns then Err(MissingColumn("ts"))
      else if FirstTimeError(kept).Some? then Err(FirstTimeError(kept).value)
      else if "registration" !in log.columns then Err(MissingColumn("registration"))
      else if "sessionId" !in log.columns then Err(MissingColumn("sessionId"))
      else if "itemInSession" !in log.columns then Err(MissingColumn("itemInSession"))
      else Ok(CleanRows(kept, "length" in log.columns))
  }

  /**
    The cleaner fails exactly on a missing required column or an unparsable
    kept timestamp; otherwise it returns one cleaned row per kept row, in
    order, so the output is the input less the dropped rows.
   */
  lemma {:induction false} CleanEventLogSpec(log: RawLog)
    ensures CleanEventLog(log).Err? <==>
      (exists c :: c in REQUIRED_COLUMNS && c !in log.columns)
      || (exists r :: r in log.rows && KeepRow(r) && StrictTime(r.ts).Err?)
    ensures CleanEventLog(log).Ok? ==>
      var out := CleanEventLog(log).value;
      var kept := Filter(log.rows, KeepRow);
      && |out| == |log.rows| - CountWhere(log.rows, (r: RawEvent) => !KeepRow(r))
      && |out| == |kept|
      && forall i :: 0 <= i < |kept| ==> out[i] == CleanRow(kept[i], "length" in log.columns)
  {
    var kept := Filter(log.rows, KeepRow);
    forall r | r in log.rows && KeepRow(r) ensures r in kept {
      FilterIn(log.rows, KeepRow, r);
    }
    forall r | r in kept ensures r in log.rows && KeepRow(r) {
      FilterIn(log.rows, KeepRow, r);
    }
    FilterCount(log.rows, KeepRow);
    KeptAndDropped(log.rows);
  }

  /**
    Empty and NaT-spelled timestamps do not fail the batch: when every
    required column is present and each kept row's timestamp is missing or
    such a text, cleaning succeeds and every cleaned timestamp is NaT.
   */
  lemma NaTTimestampsKept(log: RawLog)
    requires forall c :: c in REQUIRED_COLUMNS ==> c in log.columns
    requires forall r :: r in log.rows && KeepRow(r) ==> r.ts.Missing? || (r.ts.Str? && r.ts.text in NAT_TEXTS)
    ensures CleanEventLog(log).Ok?
    ensures forall i :: 0 <= i < |CleanEventLog(log).value| ==> CleanEventLog(log).value[i].ts.None?
  {
    CleanEventLogSpec(log);
    var kept := Filter(log.rows, KeepRow);
    forall i | 0 <= i < |kept| ensures StrictTime(kept[i].ts) == Ok(None) {
      FilterIn(log.rows, KeepRow, kept[i]);
    }
  }

  lemma {:induction false} KeptAndDropped(rows: seq<RawEvent>)
    ensures CountWhere(rows, KeepRow) + CountWhere(rows, (r: RawEvent) => !KeepRow(r)) == |rows|
  {
    if rows != [] {
      KeptAndDropped(rows[1..]);
    }
  }

  /** A user id that is only whitespace is kept, unchanged. */
  lemma WhitespaceIdKept(r: RawEvent, s: string)
    requires r.userId == IdText(s) && s != [] && forall i :: 0 <= i < |s| ==> s[i] == ' '
    ensures KeepRow(r) && IdString(r.userId) == s
  {
    assert s[0] == ' ';
  }

  /** A cleaned user id is never "" nor "None": the masks remove exactly those. */
  lemma CleanIdsUsable(log: RawLog)
    ensures CleanEventLog(log).Ok? ==>
      forall i :: 0 <= i < |CleanEventLog(log).value| ==>
        CleanEventLog(log).value[i].userId != "" && CleanEventLog(log).value[i].userId != "None"
  {
    if CleanEventLog(log).Ok? {
      var kept := Filter(log.rows, KeepRow);
      CleanEventLogSpec(log);
      forall i | 0 <= i < |kept| ensures IdString(kept[i].userId) != "" && IdString(kept[i].userId) != "None" {
        FilterIn(log.rows, KeepRow, kept[i]);
        if kept[i].userId.IdNumber? {
          IntToStringNotNone(kept[i].userId.number);
        }
      }
    }
  }

  lemma IntToStringNotNone(n: int)
    ensures IntToString(n) != "None"
  {
    var s := IntToString(n);
    if n >= 0 {
      assert IsDigit(s[0]);
    } else {
      assert s[0] == '-';
    }
  }

  /** The column names the cleaner keeps in the output. */
  function OutputColumns(hasLength: bool): set<string> {
    {"userId", "ts", "registration", "sessionId", "itemInSession"} + (if hasLength then {"length"} else {})
  }

  /** A cleaned event written back as raw cells. */
  function ToRaw(e: CleanEvent): RawEvent {
    RawEvent(
      IdText(e.userId),
      if e.ts.Some? then Number(e.ts.value as real) else Missing,
      if e.registration.Some? then Number(e.registration.value as real) else Missing,
      Number(e.sessionId as real),
      Number(e.itemInSession as real),
      if e.length.Some? then Number(e.length.value) else Missing,
      e.others)
  }

  lemma TruncateInt(n: int)
    ensures Truncate(n as real) == n
  {
  }

  /**
    Cleaning is idempotent: a cleaned log, read back as a table with the
    output's columns, cleans to itself.
   */
  lemma CleanIdempotent(log: RawLog)
    requires CleanEventLog(log).Ok?
    ensures var out := CleanEventLog(log).value;
      CleanEventLog(RawLog(OutputColumns("length" in log.columns), Map(out, ToRaw))) == Ok(out)
  {
    var out := CleanEventLog(log).value;
    var hasLength := "length" in log.columns;
    var raw := Map(out, ToRaw);
    CleanIdsUsable(log);
    CleanEventLogSpec(log);
    forall i | 0 <= i < |raw| ensures KeepRow(raw[i]) && StrictTime(raw[i].ts).Ok? {
    }
    FilterAll(raw, KeepRow);
    RoundTripRows(out, hasLength, Filter(log.rows, KeepRow));
  }

  lemma RoundTripRows(out: seq<CleanEvent>, hasLength: bool, kept: seq<RawEvent>)
    requires |out| == |kept|
    requires forall i :: 0 <= i < |kept| ==> StrictTime(kept[i].ts).Ok? && out[i] == CleanRow(kept[i], hasLength)
    requires forall i :: 0 <= i < |out| ==> StrictTime(ToRaw(out[i]).ts).Ok?
    ensures CleanRows(Map(out, ToRaw), hasLength) == out
  {
    var raw := Map(out, ToRaw);
    forall i | 0 <= i < |out| ensures CleanRow(raw[i], hasLength) == out[i] {
      RoundTripRow(out[i], hasLength, kept[i]);
    }
  }

  lemma RoundTripRow(e: CleanEvent, hasLength: bool, r: RawEvent)
    requires StrictTime(r.ts).Ok? && e == CleanRow(r, hasLength)
    requires StrictTime(ToRaw(e).ts).Ok?
    ensures CleanRow(ToRaw(e), hasLength) == e
  {
    TruncateInt(e.sessionId);
    TruncateInt(e.itemInSession);
    if e.ts.Some? {
      TruncateInt(e.ts.value);
    }
    if e.registration.Some? {
      TruncateInt(e.registration.value);
    }
  }

  /** A session id written as decimal text is read back as that number. */
  lemma SessionIdText(n: int)
    ensures WholeOr(Str(IntToString(n)), -1) == n
  {
    IntToStringRoundTrip(n);
    TruncateInt(n);
  }
}
