/** The request-level logic of the Flask handlers: the `date` shortcut of GET /api/health-data,
    the validation and field merge of PATCH /api/health-data/<date_str>, and the required-fields
    check and weight normalisation of POST /dump. */
module App {

  import opened Wrappers
  import opened Calendar
  import opened Rounding
  import opened HealthDumpStore

  /** A JSON value as a field of a request body. */
  datatype Json = JNull | JBool(b: bool) | JNumber(x: real) | JString(s: string)

  /** A JSON object body. */
  type Body = map<string, Json>

  /** Python's `int()` and `float()` on text, left abstract: a value, or `None` for a `ValueError`. */
  datatype Parsers = Parsers(intOfText: string -> Option<int>, floatOfText: string -> Option<real>)

  /** `int(v)`: `None` where Python raises. Floats truncate toward zero; booleans are 0 and 1. */
  function IntOf(p: Parsers, v: Json): (i: Option<int>)
    ensures v.JNull? ==> i.None?
    ensures v.JNumber? ==> i.Some? && (v.x >= 0.0 ==> 0 <= i.value && i.value as real <= v.x < (i.value + 1) as real)
    ensures v.JNumber? ==> i.Some? && (v.x < 0.0 ==> i.value <= 0 && (i.value - 1) as real < v.x <= i.value as real)
    ensures v.JString? ==> i == p.intOfText(v.s)
  {
    match v
    case JNull => None
    case JBool(b) => Some(if b then 1 else 0)
    case JNumber(x) => Some(Trunc(x))
    case JString(s) => p.intOfText(s)
  }

  /** `float(v)`: `None` where Python raises. */
  function FloatOf(p: Parsers, v: Json): (f: Option<real>)
    ensures v.JNull? ==> f.None?
    ensures v.JNumber? ==> f == Some(v.x)
    ensures v.JString? ==> f == p.floatOfText(v.s)
  {
    match v
    case JNull => None
    case JBool(b) => Some(if b then 1.0 else 0.0)
    case JNumber(x) => Some(x)
    case JString(s) => p.floatOfText(s)
  }

  /** Python's truth value of a JSON value. */
  predicate Truthy(v: Json) {
    match v
    case JNull => false
    case JBool(b) => b
    case JNumber(x) => x != 0.0
    case JString(s) => s != ""
  }

  /** `not data` for a parsed JSON body: no body, or an empty object. */
  predicate BodyMissing(body: Option<Body>) {
    body.None? || body.value == map[]
  }

  // Weight normalisation

  /** `s.replace(",", ".")`. */
  function ReplaceCommas(s: string): (r: string)
    ensures |r| == |s|
    ensures ',' !in r
    ensures forall i :: 0 <= i < |s| ==> r[i] == if s[i] == ',' then '.' else s[i]
  {
    if s == [] then []
    else [if s[0] == ',' then '.' else s[0]] + ReplaceCommas(s[1..])
  }

  lemma ReplaceCommasIdempotent(s: string)
    ensures ReplaceCommas(ReplaceCommas(s)) == ReplaceCommas(s)
  {
    var r := ReplaceCommas(s);
    assert ReplaceCommas(r) == r by {
      assert |ReplaceCommas(r)| == |r|;
      forall i | 0 <= i < |r| ensures ReplaceCommas(r)[i] == r[i] {
        assert r[i] in r;
      }
    }
  }

  lemma ReplaceCommasKeepsCommaFree(s: string)
    requires ',' !in s
    ensures ReplaceCommas(s) == s
  {
    assert |ReplaceCommas(s)| == |s|;
    forall i | 0 <= i < |s| ensures ReplaceCommas(s)[i] == s[i] {
      assert s[i] in s;
    }
  }

  lemma DecimalCommaExample()
    ensures ReplaceCommas("72,5") == "72.5"
  {
  }

  // Errors and status codes

  datatype HttpError =
    | InvalidDateFormat       // 400 "Invalid date format, use YYYY-MM-DD"
    | NoRecordForDate         // 404 "No record for this date"
    | JsonBodyRequired        // 400 "JSON body required"
    | InvalidValue            // 400 "Invalid value: ..."
    | MissingRequiredFields   // 400 "Missing required fields: steps, kcals, km"
    | InternalError           // 500: an exception no handler catches

  function StatusCode(e: HttpError): (code: int)
    ensures code == 404 <==> e == NoRecordForDate
    ensures code == 500 <==> e == InternalError
    ensures code == 400 <==> e != NoRecordForDate && e != InternalError
  {
    match e
    case NoRecordForDate => 404
    case InternalError => 500
    case _ => 400
  }

  // GET /api/health-data

  /** The shortcut's keyword, matched after lower-casing. */
  function LowerAscii(c: char): char {
    if 'A' <= c <= 'Z' then (c as int + 32) as char else c
  }

  function Lower(s: string): (r: string)
    ensures |r| == |s| && forall i :: 0 <= i < |s| ==> r[i] == LowerAscii(s[i])
  {
    seq(|s|, i requires 0 <= i < |s| => LowerAscii(s[i]))
  }

  /** `date_param.lower() == "today"`. */
  predicate IsTodayKeyword(s: string) {
    Lower(s) == "today"
  }

  /** The keyword is "today" in any mix of upper and lower case, and nothing else. */
  lemma TodayKeywordIsCaseInsensitive(s: string)
    ensures IsTodayKeyword(s) <==> |s| == 5 && forall i :: 0 <= i < 5 ==> s[i] == "today"[i] || s[i] == "TODAY"[i]
  {
    if |s| == 5 && forall i :: 0 <= i < 5 ==> s[i] == "today"[i] || s[i] == "TODAY"[i] {
      assert Lower(s) == "today" by {
        forall i | 0 <= i < 5 ensures Lower(s)[i] == "today"[i] {
        }
      }
    }
    if IsTodayKeyword(s) {
      forall i | 0 <= i < 5 ensures s[i] == "today"[i] || s[i] == "TODAY"[i] {
        assert LowerAscii(s[i]) == "today"[i];
      }
    }
  }

  /** The bounds handed to the date-range query; `None` leaves a side open. */
  datatype DateRange = DateRange(start: Option<string>, end: Option<string>)

  /** `get_health_data`: a non-empty `date` parameter overrides both explicit bounds with one
      day, today's ISO date for the keyword "today". */
  method HealthDataRange(dateParam: Option<string>, dateStart: Option<string>, dateEnd: Option<string>, today: Date)
    returns (range: DateRange)
    requires Valid(today)
    ensures dateParam.Some? && dateParam.value != "" ==>
              range.start == range.end
              && range.start == Some(if IsTodayKeyword(dateParam.value) then Iso(today) else dateParam.value)
    ensures dateParam.None? || dateParam.value == "" ==> range == DateRange(dateStart, dateEnd)
  {
    var start, end := dateStart, dateEnd;
    if dateParam.Some? && dateParam.value != "" {
      if IsTodayKeyword(dateParam.value) {
        start := Some(Iso(today));
        end := start;
      } else {
        start := Some(dateParam.value);
        end := start;
      }
    }
    range := DateRange(start, end);
  }

  // PATCH /api/health-data/<date_str>

  /** `len(date_str) != 10 or date_str[4] != "-" or date_str[7] != "-"`, negated. */
  predicate IsDateShape(s: string)
    ensures IsoDecode(s).Some? ==> IsDateShape(s)
  {
    |s| == 10 && s[4] == '-' && s[7] == '-'
  }

  /** Every ISO date passes the shape check. */
  lemma IsoHasDateShape(d: Date)
    requires Valid(d)
    ensures IsDateShape(Iso(d))
  {
  }

  /** Only the length and the two dashes are checked: a string with no digits passes, and
      no date renders to it. */
  lemma ShapeCheckIgnoresDigits()
    ensures IsDateShape("abcd-ef-gh")
    ensures IsoDecode("abcd-ef-gh").None?
    ensures forall d :: Valid(d) ==> Iso(d) != "abcd-ef-gh"
    ensures !IsDateShape("2024-1-05") && !IsDateShape("2024/01/05")
  {
    assert !IsDigit("abcd-ef-gh"[0]);
    forall d | Valid(d) ensures Iso(d) != "abcd-ef-gh" {
      assert IsDigit(Iso(d)[0]);
    }
  }

  /** The outcome of one merged field: a value (possibly `None`), or a parse error. */
  datatype Parsed<T> = Parsed(value: Option<T>) | Invalid

  /** The nested `merge`: an absent key keeps the stored value, `null` clears it, anything
      else goes through the parser. */
  function Merge<T>(body: Body, key: string, current: Option<T>, parse: Json -> Parsed<T>): (r: Parsed<T>)
    ensures key !in body ==> r == Parsed(current)
    ensures key in body && body[key] == JNull ==> r == Parsed(None)
    ensures key in body && body[key] != JNull ==> r == parse(body[key])
  {
    if key !in body then Parsed(current)
    else if body[key] == JNull then Parsed(None)
    else parse(body[key])
  }

  /** The parser is consulted only for a key present with a non-null value. */
  lemma MergeParserUnused<T>(body: Body, key: string, current: Option<T>, p1: Json -> Parsed<T>, p2: Json -> Parsed<T>)
    requires key !in body || body[key] == JNull
    ensures Merge(body, key, current, p1) == Merge(body, key, current, p2)
    ensures Merge(body, key, current, p1).Parsed?
  {
  }

  /** Merging a body that does not mention the key is the identity on the stored value. */
  lemma MergeAbsentKeeps<T>(body: Body, key: string, current: Option<T>, parse: Json -> Parsed<T>, other: string, v: Json)
    requires key !in body && key != other
    ensures Merge(body[other := v], key, current, parse) == Parsed(current)
  {
  }

  /** `int` and `float` as the merge applies them. */
  function ParseInt(p: Parsers, v: Json): Parsed<int> {
    var i := IntOf(p, v);
    if i.Some? then Parsed(i) else Invalid
  }

  function ParseFloat(p: Parsers, v: Json): Parsed<real> {
    var f := FloatOf(p, v);
    if f.Some? then Parsed(f) else Invalid
  }

  /** The weight parser of PATCH: an empty string clears; a string is read with ',' as the
      decimal separator; `float(str(x))` of a number is the number; "True"/"False" do not parse. */
  function ParseWeight(p: Parsers, v: Json): (r: Parsed<real>)
    ensures v == JString("") ==> r == Parsed(None)
    ensures v.JString? && v.s != "" ==> (r.Invalid? <==> p.floatOfText(ReplaceCommas(v.s)).None?)
    ensures v.JString? && v.s != "" && r.Parsed? ==> r.value == p.floatOfText(ReplaceCommas(v.s))
    ensures v.JBool? ==> r.Invalid?
  {
    match v
    case JNull => Parsed(None)
    case JString(s) =>
      if s == "" then Parsed(None)
      else var f := p.floatOfText(ReplaceCommas(s)); if f.Some? then Parsed(f) else Invalid
    case JNumber(x) => Parsed(Some(x))
    case JBool(_) => Invalid
  }

  /** The five merged fields of a PATCH, in the order Python evaluates them. */
  datatype Merged = Merged(
    steps: Parsed<int>,
    kcals: Parsed<real>,
    km: Parsed<real>,
    flightsClimbed: Parsed<int>,
    weight: Parsed<real>)

  function MergeFields(body: Body, row: HealthRecord, p: Parsers): (m: Merged)
    ensures body == map[] ==> m == Merged(Parsed(Some(row.steps)), Parsed(Some(row.kcals)), Parsed(Some(row.km)),
                                          Parsed(row.flightsClimbed), Parsed(row.weight))
    ensures "steps" in body && body["steps"].JString? ==>
              m.steps == if p.intOfText(body["steps"].s).Some? then Parsed(p.intOfText(body["steps"].s)) else Invalid
  {
    Merged(
      Merge(body, "steps", Some(row.steps), v => ParseInt(p, v)),
      Merge(body, "kcals", Some(row.kcals), v => ParseFloat(p, v)),
      Merge(body, "km", Some(row.km), v => ParseFloat(p, v)),
      Merge(body, "flights_climbed", row.flightsClimbed, v => ParseInt(p, v)),
      Merge(body, "weight", row.weight, v => ParseWeight(p, v)))
  }

  predicate AllParsed(m: Merged) {
    m.steps.Parsed? && m.kcals.Parsed? && m.km.Parsed? && m.flightsClimbed.Parsed? && m.weight.Parsed?
  }

  /** The validation of `update_health_data` up to the dump it would upsert; `existing` is what
      the date-range query returned for `date_str`. */
  function PatchDump(dateStr: string, existing: seq<HealthRecord>, body: Option<Body>, now: Timestamp, p: Parsers)
    : (r: Result<HealthDump, HttpError>)
    ensures r.Success? ==> IsDateShape(dateStr) && existing != [] && !BodyMissing(body)
    ensures r.Success? ==> r.value.date == dateStr && r.value.recordedAt == now
    ensures r.Failure? ==> r.error != MissingRequiredFields && r.error != InternalError
  {
    if !IsDateShape(dateStr) then Failure(InvalidDateFormat)
    else if existing == [] then Failure(NoRecordForDate)
    else if BodyMissing(body) then Failure(JsonBodyRequired)
    else
      var m := MergeFields(body.value, existing[0], p);
      if !AllParsed(m) then Failure(InvalidValue)
      else Success(HealthDump(dateStr, m.steps.value, m.kcals.value, m.km.value,
                              m.flightsClimbed.value, m.weight.value, now))
  }

  /** The error outcomes of a PATCH, each exactly when its check is the first to fail. */
  lemma PatchErrors(dateStr: string, existing: seq<HealthRecord>, body: Option<Body>, now: Timestamp, p: Parsers)
    ensures PatchDump(dateStr, existing, body, now, p) == Failure(InvalidDateFormat) <==> !IsDateShape(dateStr)
    ensures PatchDump(dateStr, existing, body, now, p) == Failure(NoRecordForDate)
            <==> IsDateShape(dateStr) && existing == []
    ensures PatchDump(dateStr, existing, body, now, p) == Failure(JsonBodyRequired)
            <==> IsDateShape(dateStr) && existing != [] && BodyMissing(body)
    ensures PatchDump(dateStr, existing, body, now, p) == Failure(InvalidValue)
            <==> IsDateShape(dateStr) && existing != [] && !BodyMissing(body)
                 && !AllParsed(MergeFields(body.value, existing[0], p))
  {
  }

  /** A successful PATCH rewrites the requested date with the merged values, stamped `now`;
      fields the body leaves out keep the stored row's values. */
  lemma PatchMerges(dateStr: string, existing: seq<HealthRecord>, body: Option<Body>, now: Timestamp, p: Parsers)
    requires PatchDump(dateStr, existing, body, now, p).Success?
    ensures var dump := PatchDump(dateStr, existing, body, now, p).value;
      && existing != [] && body.Some?
      && dump.date == dateStr && dump.recordedAt == now
      && ("steps" !in body.value ==> dump.steps == Some(existing[0].steps))
      && ("kcals" !in body.value ==> dump.kcals == Some(existing[0].kcals))
      && ("km" !in body.value ==> dump.km == Some(existing[0].km))
      && ("flights_climbed" !in body.value ==> dump.flightsClimbed == existing[0].flightsClimbed)
      && ("weight" !in body.value ==> dump.weight == existing[0].weight)
      && ("steps" in body.value && body.value["steps"] == JNull ==> dump.steps.None?)
      && ("weight" in body.value && body.value["weight"] == JString("") ==> dump.weight.None?)
      && ("weight" in body.value && body.value["weight"].JString? && body.value["weight"].s != "" ==>
            dump.weight == p.floatOfText(ReplaceCommas(body.value["weight"].s)))
  {
  }

  /** `update_health_data`: validate, merge, then upsert the dump stamped `now`. An uncaught
      `RuntimeError` from the upsert answers 500. */
  method UpdateHealthData(table: HealthDumpTable, dateStr: string, existing: seq<HealthRecord>,
                          body: Option<Body>, now: Timestamp, p: Parsers)
    returns (response: Result<HealthDump, HttpError>)
    modifies table
    ensures var planned := PatchDump(dateStr, existing, body, now, p);
      && (planned.Failure? ==> response == planned && table.rows == old(table.rows))
      && (planned.Success? && UpsertResult(old(table.rows), planned.value).UpsertFailed? ==>
            response == Failure(InternalError) && table.rows == old(table.rows))
      && (planned.Success? && UpsertResult(old(table.rows), planned.value).RowCount? ==>
            response == planned && table.rows == Upserted(old(table.rows), planned.value))
  {
    var planned := PatchDump(dateStr, existing, body, now, p);
    if planned.Failure? {
      return planned;
    }
    var outcome := table.Upsert(planned.value);
    if outcome.UpsertFailed? {
      return Failure(InternalError);
    }
    response := planned;
  }

  // POST /dump

  /** The dump `dump` builds from an iOS body at time `now`; every exception past the
      required-fields check is a 500. */
  function DumpFromBody(body: Option<Body>, now: Timestamp, p: Parsers): (r: Result<HealthDump, HttpError>)
    requires ValidTimestamp(now)
    ensures r.Success? ==> r.value.date == Iso(now.date) && r.value.recordedAt == now
    ensures r.Failure? ==> r.error == MissingRequiredFields || r.error == InternalError
  {
    if BodyMissing(body) || !("steps" in body.value && "kcals" in body.value && "km" in body.value)
    then Failure(MissingRequiredFields)
    else
      var data := body.value;
      var weight: Option<Option<real>> :=
        if "weight" in data && Truthy(data["weight"]) then
          (if data["weight"].JString? then
             var f := p.floatOfText(ReplaceCommas(data["weight"].s));
             if f.Some? then Some(f) else None
           else None)  // `.replace` of a non-string raises AttributeError
        else Some(None);
      var steps := IntOf(p, data["steps"]);
      var kcals := FloatOf(p, data["kcals"]);
      var km := FloatOf(p, data["km"]);
      var flights: Option<Option<int>> :=
        if "flights_climbed" in data && data["flights_climbed"] != JNull then
          var f := IntOf(p, data["flights_climbed"]); if f.Some? then Some(f) else None
        else Some(None);
      if weight.None? || steps.None? || kcals.None? || km.None? || flights.None? then Failure(InternalError)
      else Success(HealthDump(Iso(now.date), steps, kcals, km, flights.value, weight.value, now))
  }

  /** POST /dump is rejected with 400 exactly when the body lacks one of steps, kcals and km. */
  lemma DumpRequiresFields(body: Option<Body>, now: Timestamp, p: Parsers)
    requires ValidTimestamp(now)
    ensures DumpFromBody(body, now, p) == Failure(MissingRequiredFields)
            <==> body.None? || !("steps" in body.value && "kcals" in body.value && "km" in body.value)
  {
  }

  /** A dump built from an iOS body is dated today, is complete for the table, and carries the
      weight read with ',' as the decimal separator. */
  lemma DumpContents(body: Option<Body>, now: Timestamp, p: Parsers)
    requires ValidTimestamp(now) && DumpFromBody(body, now, p).Success?
    ensures var dump := DumpFromBody(body, now, p).value;
      && dump.date == Iso(now.date) && IsDateShape(dump.date) && dump.recordedAt == now
      && dump.steps.Some? && dump.kcals.Some? && dump.km.Some?
      && dump.steps == IntOf(p, body.value["steps"])
      && dump.kcals == FloatOf(p, body.value["kcals"])
      && dump.km == FloatOf(p, body.value["km"])
      && (("weight" !in body.value || !Truthy(body.value["weight"])) ==> dump.weight.None?)
      && ("weight" in body.value && Truthy(body.value["weight"]) ==>
            body.value["weight"].JString? && dump.weight == p.floatOfText(ReplaceCommas(body.value["weight"].s)))
      && (("flights_climbed" !in body.value || body.value["flights_climbed"] == JNull) ==> dump.flightsClimbed.None?)
  {
  }

  /** `dump`: build the dump, upsert it and answer with it and the row count. */
  method Dump(table: HealthDumpTable, body: Option<Body>, now: Timestamp, p: Parsers)
    returns (response: Result<(HealthDump, nat), HttpError>)
    requires ValidTimestamp(now)
    modifies table
    ensures var planned := DumpFromBody(body, now, p);
      && (planned.Failure? ==> response == Failure(planned.error) && table.rows == old(table.rows))
      && (planned.Success? && UpsertResult(old(table.rows), planned.value).UpsertFailed? ==>
            response == Failure(InternalError) && table.rows == old(table.rows))
      && (planned.Success? && UpsertResult(old(table.rows), planned.value).RowCount? ==>
            && table.rows == Upserted(old(table.rows), planned.value)
            && response == Success((planned.value, |table.rows|)))
  {
    var planned := DumpFromBody(body, now, p);
    if planned.Failure? {
      return Failure(planned.error);
    }
    var outcome := table.Upsert(planned.value);
    if outcome.UpsertFailed? {
      return Failure(InternalError);
    }
    response := Success((planned.value, outcome.count));
  }
}
