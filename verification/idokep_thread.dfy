/** The upload worker `IDOKEPThread`: the record-to-URL transformation, the
    masked copy of the URL for the debug log, the judgement of the server's
    reply, and the dry-run switch of `process_record`. */
module IdokepThread {
  import opened Wrappers
  import opened Strings
  import opened QueryString

  /** An archive record: measurement name to value. A key that maps to
      `None` is present but holds Python's `None`. */
  type Record<V> = map<string, Option<V>>

  /** What the worker takes from the host without seeing its code; `V` is
      the type of a record's values. */
  datatype Host<!V> = Host(
    // RESTThread.get_record: the host's own pre-processing of the record
    getRecord: Record<V> -> Record<V>,
    // weewx.units.to_METRICWX: conversion to the METRICWX unit system
    toMetricWX: Record<V> -> Record<V>,
    // time.strftime(directive, time.localtime(t))
    localTimeField: (string, V) -> string,
    // the clock reading that time.localtime(None) falls back to
    now: V,
    // printf-style rendering, `spec % value`
    printf: (string, V) -> string,
    // str(value)
    str: V -> string)

  /** The settings a thread keeps from its constructor. */
  datatype Thread = Thread(
    username: string,
    password: string,
    stationType: string,
    serverUrl: string,
    skipUpload: bool)

  /** The Python exception that replaces a result. */
  datatype Error = KeyError(key: string)

  /** The thread's default `server_url`. */
  const ServerUrl := "https://pro.idokep.hu/sendws.php"

  /** The thread's default `station_type`. */
  const DefaultStationType := "WS23XX"

  /** `_FORMATS`: the printf spec of each field that has one. */
  const Formats: map<string, string> := map[
    "barometer" := "%.1f",
    "outTemp" := "%.1f",
    "outHumidity" := "%.0f",
    "windSpeed" := "%.1f",
    "windDir" := "%.0f",
    "hourRain" := "%.2f",
    "dayRain" := "%.2f"]

  /** `_format`: a field's text in the query. */
  function Format<V>(h: Host<V>, record: Record<V>, field: string): string
  {
    if field in record && record[field].Some? then
      if field in Formats then h.printf(Formats[field], record[field].value)
      else h.str(record[field].value)
    else ""
  }

  /** Where the value of a query parameter comes from. */
  datatype Source =
    | User
    | Pass
    | Clock(directive: string)
    | Measurement(field: string)
    | Station

  datatype Param = Param(key: string, source: Source)

  /** The query the uploader sends, parameter by parameter, in order: the
      reference the URL assembly is checked against. */
  const Schema: seq<Param> := [
    Param("user", User),
    Param("pass", Pass),
    Param("ev", Clock("%Y")),
    Param("ho", Clock("%m")),
    Param("nap", Clock("%d")),
    Param("ora", Clock("%H")),
    Param("perc", Clock("%M")),
    Param("mp", Clock("%S")),
    Param("hom", Measurement("outTemp")),
    Param("rh", Measurement("outHumidity")),
    Param("szelirany", Measurement("windDir")),
    Param("szelero", Measurement("windSpeed")),
    Param("szellokes", Measurement("windGust")),
    Param("p", Measurement("barometer")),
    Param("csap", Measurement("rain24")),
    Param("csap1h", Measurement("hourRain")),
    Param("tipus", Station)]

  /** The record's timestamp; Python's `time.localtime(None)` reads the clock. */
  function Timestamp<V>(h: Host<V>, record: Record<V>): V
    requires "dateTime" in record
  {
    record["dateTime"].GetOr(h.now)
  }

  /** The value a parameter takes for a converted record with timestamp `ts`. */
  function Resolve<V>(t: Thread, h: Host<V>, record: Record<V>, ts: V, src: Source): string
  {
    match src
    case User => t.username
    case Pass => t.password
    case Clock(d) => h.localTimeField(d, ts)
    case Measurement(field) => Format(h, record, field)
    case Station => t.stationType
  }

  /** The query that `Schema` prescribes. */
  function Expected<V>(t: Thread, h: Host<V>, record: Record<V>, ts: V): seq<Pair>
  {
    seq(|Schema|, i requires 0 <= i < |Schema| => Pair(Schema[i].key, Resolve(t, h, record, ts, Schema[i].source)))
  }

  /** The `values` list of `format_url`, built as the source builds it. */
  function Assignments<V>(t: Thread, h: Host<V>, record: Record<V>, ts: V): seq<string>
  {
    [ Assign("user", t.username),
      Assign("pass", t.password),
      Assign("ev", h.localTimeField("%Y", ts)),
      Assign("ho", h.localTimeField("%m", ts)),
      Assign("nap", h.localTimeField("%d", ts)),
      Assign("ora", h.localTimeField("%H", ts)),
      Assign("perc", h.localTimeField("%M", ts)),
      Assign("mp", h.localTimeField("%S", ts)),
      Assign("hom", Format(h, record, "outTemp")),
      Assign("rh", Format(h, record, "outHumidity")),
      Assign("szelirany", Format(h, record, "windDir")),
      Assign("szelero", Format(h, record, "windSpeed")),
      Assign("szellokes", Format(h, record, "windGust")),
      Assign("p", Format(h, record, "barometer")),
      Assign("csap", Format(h, record, "rain24")),
      Assign("csap1h", Format(h, record, "hourRain")),
      Assign("tipus", t.stationType) ]
  }

  /** `format_url`: the request URL of one record, or the `KeyError` raised
      when the converted record has no `dateTime`. */
  function FormatUrl<V>(t: Thread, h: Host<V>, inRecord: Record<V>): (r: Result<string, Error>)
    ensures r.Failure? <==> "dateTime" !in h.toMetricWX(inRecord)
    ensures r.Failure? ==> r.error == KeyError("dateTime")
  {
    var record := h.toMetricWX(inRecord);
    if "dateTime" !in record then Failure(KeyError("dateTime"))
    else Success(t.serverUrl + "?" + Join("&", Assignments(t, h, record, Timestamp(h, record))))
  }

  /** `windGust` and `rain24` have no table entry; `dayRain` has one but
      no parameter asks for it. */
  lemma FormatTableCoverage()
    ensures "windGust" !in Formats && "rain24" !in Formats && "dayRain" in Formats
    ensures forall i :: 0 <= i < |Schema| ==> Schema[i].source != Measurement("dayRain")
  {
  }

  /** The source's straight-line list is the schema's query, in order. */
  lemma AssignmentsFollowSchema<V>(t: Thread, h: Host<V>, record: Record<V>, ts: V)
    ensures Assignments(t, h, record, ts)
      == seq(|Schema|, i requires 0 <= i < |Schema| => Assign(Expected(t, h, record, ts)[i].key, Expected(t, h, record, ts)[i].value))
  {
  }

  /** The query's keys in the order the uploader sends them. */
  const QueryKeys: seq<string> := [
    "user", "pass", "ev", "ho", "nap", "ora", "perc", "mp", "hom", "rh",
    "szelirany", "szelero", "szellokes", "p", "csap", "csap1h", "tipus"]

  lemma SchemaKeyOrder()
    ensures |Schema| == |QueryKeys|
    ensures forall i :: 0 <= i < |Schema| ==> Schema[i].key == QueryKeys[i]
  {
  }

  /** No query key holds `&` or `=`. */
  lemma KeyIsPlain(k: string)
    requires k in QueryKeys
    ensures '=' !in k && '&' !in k
  {
  }

  /** No schema key holds `&` or `=`. */
  lemma SchemaKeysArePlain()
    ensures forall i :: 0 <= i < |Schema| ==> '=' !in Schema[i].key && '&' !in Schema[i].key
  {
    SchemaKeyOrder();
    forall i | 0 <= i < |Schema| ensures '=' !in Schema[i].key && '&' !in Schema[i].key {
      KeyIsPlain(QueryKeys[i]);
    }
  }

  /** Read back, the URL is `server_url?` followed by the 17 parameters in
      the fixed order with the schema's values, so long as no value
      holds `&` (nothing is URL-encoded). */
  lemma FormatUrlParses<V>(t: Thread, h: Host<V>, inRecord: Record<V>)
    requires "dateTime" in h.toMetricWX(inRecord)
    requires var record := h.toMetricWX(inRecord);
      forall i :: 0 <= i < |Schema| ==> '&' !in Resolve(t, h, record, Timestamp(h, record), Schema[i].source)
    ensures var record := h.toMetricWX(inRecord);
      Parse(t.serverUrl, FormatUrl(t, h, inRecord).value) == Some(Expected(t, h, record, Timestamp(h, record)))
    ensures var q := Parse(t.serverUrl, FormatUrl(t, h, inRecord).value).value;
      |q| == |QueryKeys| && forall i :: 0 <= i < |q| ==> q[i].key == QueryKeys[i]
  {
    var record := h.toMetricWX(inRecord);
    var ts := Timestamp(h, record);
    var pairs := Expected(t, h, record, ts);
    var parts := seq(|pairs|, i requires 0 <= i < |pairs| => Assign(pairs[i].key, pairs[i].value));
    SchemaKeysArePlain();
    SchemaKeyOrder();
    AssignmentsFollowSchema(t, h, record, ts);
    assert FormatUrl(t, h, inRecord).value == t.serverUrl + "?" + Join("&", parts);
    ParseJoin(t.serverUrl, pairs);
  }

  /** `_format` as the server reads it back: a measurement parameter's
      value is empty for an absent or `None` field, the `_FORMATS`
      rendering for a tabled field, and `str` of the value otherwise. */
  lemma FormatUrlMeasurementValue<V>(t: Thread, h: Host<V>, inRecord: Record<V>, i: int)
    requires "dateTime" in h.toMetricWX(inRecord)
    requires var record := h.toMetricWX(inRecord);
      forall j :: 0 <= j < |Schema| ==> '&' !in Resolve(t, h, record, Timestamp(h, record), Schema[j].source)
    requires 0 <= i < |Schema| && Schema[i].source.Measurement?
    ensures var q := Parse(t.serverUrl, FormatUrl(t, h, inRecord).value);
      q.Some? && |q.value| == |Schema|
    ensures var record, field := h.toMetricWX(inRecord), Schema[i].source.field;
      field !in record || record[field].None? ==>
        Parse(t.serverUrl, FormatUrl(t, h, inRecord).value).value[i] == Pair(Schema[i].key, "")
    ensures var record, field := h.toMetricWX(inRecord), Schema[i].source.field;
      field in record && record[field].Some? && field in Formats ==>
        Parse(t.serverUrl, FormatUrl(t, h, inRecord).value).value[i]
          == Pair(Schema[i].key, h.printf(Formats[field], record[field].value))
    ensures var record, field := h.toMetricWX(inRecord), Schema[i].source.field;
      field in record && record[field].Some? && field !in Formats ==>
        Parse(t.serverUrl, FormatUrl(t, h, inRecord).value).value[i]
          == Pair(Schema[i].key, h.str(record[field].value))
  {
    var record := h.toMetricWX(inRecord);
    FormatUrlParses(t, h, inRecord);
    assert Expected(t, h, record, Timestamp(h, record))[i]
      == Pair(Schema[i].key, Format(h, record, Schema[i].source.field));
  }

  /** `user` and `pass` carry the configured strings verbatim, first in
      the query. */
  lemma FormatUrlStartsWithCredentials<V>(t: Thread, h: Host<V>, inRecord: Record<V>)
    requires "dateTime" in h.toMetricWX(inRecord)
    ensures StartsWith(FormatUrl(t, h, inRecord).value,
      t.serverUrl + "?" + Assign("user", t.username) + "&" + Assign("pass", t.password) + "&")
  {
    var record := h.toMetricWX(inRecord);
    var parts := Assignments(t, h, record, Timestamp(h, record));
    var base := t.serverUrl + "?";
    var query := Join("&", parts);
    assert FormatUrl(t, h, inRecord).value == base + query;
    var two := parts[0] + "&" + parts[1] + "&";
    JoinStartsWithFirstTwo("&", parts);
    AffixConcat(base, query, two);
    assert base + two == t.serverUrl + "?" + Assign("user", t.username) + "&" + Assign("pass", t.password) + "&";
  }

  /** `tipus` carries the station type verbatim, last in the query. */
  lemma FormatUrlEndsWithStation<V>(t: Thread, h: Host<V>, inRecord: Record<V>)
    requires "dateTime" in h.toMetricWX(inRecord)
    ensures EndsWith(FormatUrl(t, h, inRecord).value, "&tipus=" + t.stationType)
  {
    var record := h.toMetricWX(inRecord);
    var parts := Assignments(t, h, record, Timestamp(h, record));
    var base := t.serverUrl + "?";
    var query := Join("&", parts);
    assert FormatUrl(t, h, inRecord).value == base + query;
    var last := "&" + parts[|parts| - 1];
    assert last == "&tipus=" + t.stationType;
    JoinEndsWithLast("&", parts);
    AffixConcat(base, query, last);
  }

  /** An absent or `None` measurement neither drops nor moves its key: the
      URL holds `&key=&` at the key's place. */
  lemma MissingFieldKeepsItsKey<V>(t: Thread, h: Host<V>, inRecord: Record<V>, i: int)
    requires "dateTime" in h.toMetricWX(inRecord)
    requires 0 <= i < |Schema| && Schema[i].source.Measurement?
    requires var field := Schema[i].source.field;
      field !in h.toMetricWX(inRecord) || h.toMetricWX(inRecord)[field].None?
    ensures Contains(FormatUrl(t, h, inRecord).value, "&" + Schema[i].key + "=&")
  {
    var record := h.toMetricWX(inRecord);
    var ts := Timestamp(h, record);
    var parts := Assignments(t, h, record, ts);
    var query := Join("&", parts);
    assert FormatUrl(t, h, inRecord).value == (t.serverUrl + "?") + query;
    AssignmentsFollowSchema(t, h, record, ts);
    assert parts[i] == Schema[i].key + "=" + "";
    JoinSurroundsInner("&", parts, i);
    assert "&" + parts[i] + "&" == "&" + Schema[i].key + "=&";
    ContainsAfterPrefix(t.serverUrl + "?", query, "&" + Schema[i].key + "=&");
  }

  /** Two converted records that agree on a field. */
  ghost predicate AgreeOn<V>(a: Record<V>, b: Record<V>, field: string) {
    (field in a <==> field in b) && (field in a ==> a[field] == b[field])
  }

  /** `format_url` is a function of the settings and of the fields it reads
      (`dateTime` and the eight measurements); in particular `dayRain` and
      every other field are ignored. */
  lemma FormatUrlReadsOnlyItsFields<V>(t: Thread, h: Host<V>, r1: Record<V>, r2: Record<V>)
    requires forall field :: field in {"dateTime", "outTemp", "outHumidity", "windDir", "windSpeed",
                                       "windGust", "barometer", "rain24", "hourRain"}
               ==> AgreeOn(h.toMetricWX(r1), h.toMetricWX(r2), field)
    ensures FormatUrl(t, h, r1) == FormatUrl(t, h, r2)
  {
    var a, b := h.toMetricWX(r1), h.toMetricWX(r2);
    assert AgreeOn(a, b, "dateTime");
    if "dateTime" in a {
      var ts := Timestamp(h, a);
      assert ts == Timestamp(h, b);
      FormatAgrees(h, a, b, "outTemp");
      FormatAgrees(h, a, b, "outHumidity");
      FormatAgrees(h, a, b, "windDir");
      FormatAgrees(h, a, b, "windSpeed");
      FormatAgrees(h, a, b, "windGust");
      FormatAgrees(h, a, b, "barometer");
      FormatAgrees(h, a, b, "rain24");
      FormatAgrees(h, a, b, "hourRain");
      assert Assignments(t, h, a, ts) == Assignments(t, h, b, ts);
    }
  }

  /** A field's text depends on that field alone. */
  lemma FormatAgrees<V>(h: Host<V>, a: Record<V>, b: Record<V>, field: string)
    requires AgreeOn(a, b, field)
    ensures Format(h, a, field) == Format(h, b, field)
  {
  }

  /** With a timestamp present the clock is never read, so the URL is
      the same whenever it is formed. */
  lemma FormatUrlIgnoresClock<V>(t: Thread, h: Host<V>, inRecord: Record<V>, later: V)
    requires "dateTime" in h.toMetricWX(inRecord) && h.toMetricWX(inRecord)["dateTime"].Some?
    ensures FormatUrl(t, h, inRecord) == FormatUrl(t, h.(now := later), inRecord)
  {
  }

  /** The placeholder that stands for the password in the debug log. */
  const Mask := "XXX"

  /** The copy of the URL written to the debug log: `url.replace(password, 'XXX')`. */
  function DebugUrl(t: Thread, url: string): string
  {
    Replace(url, t.password, Mask)
  }

  /** A non-empty password without `X` never survives into the debug URL. */
  lemma DebugUrlHidesPassword(t: Thread, url: string)
    requires |t.password| > 0 && 'X' !in t.password
    ensures !Contains(DebugUrl(t, url), t.password)
  {
    assert Disjoint(Mask, t.password) by {
      forall i, j | 0 <= i < |Mask| && 0 <= j < |t.password|
        ensures Mask[i] != t.password[j]
      {
        assert Mask[i] == 'X';
        assert t.password[j] in t.password;
      }
    }
    ReplaceLeavesNoOccurrence(url, t.password, Mask);
  }

  /** A URL in which the password does not occur is logged unchanged. */
  lemma DebugUrlWithoutPassword(t: Thread, url: string)
    requires |t.password| > 0 && !Contains(url, t.password)
    ensures DebugUrl(t, url) == url
  {
    ReplaceAbsent(url, t.password, Mask);
  }

  /** An empty password masks nothing: Python puts `XXX` around every
      character instead. */
  lemma DebugUrlEmptyPassword(t: Thread, url: string)
    requires t.password == ""
    ensures |DebugUrl(t, url)| == |url| + 3 * (|url| + 1)
  {
    InsertEverywhereLength(url, Mask);
  }

  /** A password made of `X` survives masking, since the mask contains it:
      why `DebugUrlHidesPassword` excludes `X`. */
  lemma DebugUrlKeepsXPassword(t: Thread)
    requires t.password == "X"
    ensures DebugUrl(t, "pass=X") == "pass=XXX"
    ensures Contains(DebugUrl(t, "pass=X"), t.password)
  {
    assert OccursAt("pass=XXX", "X", 5);
  }

  /** The marker whose position `check_response` tests. */
  const Marker := "sz!"

  /** How `check_response` judged a reply; a rejected reply is logged. */
  datatype Verdict = Accepted | Rejected(logged: string)

  /** The `error` flag after the loop of `check_response` has seen `lines`,
      starting from `error`: `line.find('sz!')` is falsy only at index 0. */
  function ErrorFlag(lines: seq<string>, error: bool): (e: bool)
    ensures e <==> error && forall i :: 0 <= i < |lines| ==> StartsWith(lines[i], Marker)
  {
    if |lines| == 0 then error
    else
      FindIsZeroIffPrefix(lines[0], Marker);
      ErrorFlag(lines[1..], if Find(lines[0], Marker) != 0 then false else error)
  }

  /** `check_response` as written: the reply is rejected exactly when every
      line starts with `sz!`, which includes the empty reply. */
  function CheckResponse(response: seq<string>): (v: Verdict)
    ensures v.Rejected? <==> forall i :: 0 <= i < |response| ==> StartsWith(response[i], Marker)
    ensures |response| == 0 ==> v.Rejected?
  {
    if ErrorFlag(response, true) then Rejected("Server returned '" + Join(", ", response) + "'")
    else Accepted
  }

  /** The replies that show the inverted test: an error text is accepted
      and a bare marker is rejected. */
  lemma CheckResponseInverted()
    ensures CheckResponse(["error: bad user"]) == Accepted
    ensures CheckResponse(["OK sz!thanks"]) == Accepted
    ensures CheckResponse(["sz!"]).Rejected?
    ensures CheckResponse([]).Rejected?
  {
    assert "error: bad user"[..3][0] == 'e';
    assert !StartsWith("error: bad user", Marker);
    assert "OK sz!thanks"[..3][0] == 'O';
    assert !StartsWith("OK sz!thanks", Marker);
    assert StartsWith("sz!", Marker);
  }

  /** Some line of `lines` contains the marker anywhere. */
  function MarkerSeen(lines: seq<string>): (b: bool)
    ensures b <==> exists i :: 0 <= i < |lines| && Contains(lines[i], Marker)
  {
    if |lines| == 0 then false
    else Find(lines[0], Marker) != -1 || MarkerSeen(lines[1..])
  }

  /** `check_response` as intended: the reply is rejected exactly when no
      line contains the marker. */
  function CheckResponseIntended(response: seq<string>): (v: Verdict)
    ensures v.Rejected? <==> forall i :: 0 <= i < |response| ==> !Contains(response[i], Marker)
  {
    if MarkerSeen(response) then Accepted
    else Rejected("Server returned '" + Join(", ", response) + "'")
  }

  /** A marker-free text cannot contain the marker. */
  lemma NoMarkerCharacter(s: string)
    requires 'z' !in s
    ensures !Contains(s, Marker)
  {
    forall i | 0 <= i <= |s| - |Marker| ensures !OccursAt(s, Marker, i) {
      assert s[i + 1] in s;
      assert s[i..i + |Marker|][1] == s[i + 1] != 'z' == Marker[1];
    }
  }

  /** The intended check gets the same replies right. */
  lemma CheckResponseIntendedReads()
    ensures CheckResponseIntended(["error: bad user"]).Rejected?
    ensures CheckResponseIntended(["OK sz!thanks"]) == Accepted
    ensures CheckResponseIntended(["sz!"]) == Accepted
    ensures CheckResponseIntended([]).Rejected?
  {
    NoMarkerCharacter("error: bad user");
    assert OccursAt("OK sz!thanks", Marker, 3);
    assert OccursAt("sz!", Marker, 0);
  }

  /** The request handed to `post_with_retries`. */
  datatype Request = Request(url: string)

  /** What `process_record` did with a record it could format. */
  datatype Dispatch = Skipped(url: string) | Sent(request: Request)

  /** `process_record`: get the record, form its URL, and unless
      `skip_upload` is set hand a request for it to the host. */
  function ProcessRecord<V>(t: Thread, h: Host<V>, record: Record<V>): (r: Result<Dispatch, Error>)
    ensures r.Failure? <==> FormatUrl(t, h, h.getRecord(record)).Failure?
    ensures r.Success? ==> (r.value.Sent? <==> !t.skipUpload)
    ensures r.Success? && r.value.Sent? ==> r.value.request.url == FormatUrl(t, h, h.getRecord(record)).value
  {
    match FormatUrl(t, h, h.getRecord(record))
    case Failure(e) => Failure(e)
    case Success(url) => Success(if t.skipUpload then Skipped(url) else Sent(Request(url)))
  }

  /** `process_record` over records in arrival order, one outcome each. */
  function ProcessAll<V>(t: Thread, h: Host<V>, records: seq<Record<V>>): (outs: seq<Result<Dispatch, Error>>)
    ensures |outs| == |records|
    ensures forall i :: 0 <= i < |records| ==> outs[i] == ProcessRecord(t, h, records[i])
  {
    if |records| == 0 then []
    else [ProcessRecord(t, h, records[0])] + ProcessAll(t, h, records[1..])
  }

  /** The requests among some outcomes, in order. */
  function Requests(outs: seq<Result<Dispatch, Error>>): seq<Request>
  {
    if |outs| == 0 then []
    else if outs[0].Success? && outs[0].value.Sent? then [outs[0].value.request] + Requests(outs[1..])
    else Requests(outs[1..])
  }

  /** With `skip_upload` set, no record ever produces a request. */
  lemma {:induction false} SkipUploadSendsNothing<V>(t: Thread, h: Host<V>, records: seq<Record<V>>)
    requires t.skipUpload
    ensures Requests(ProcessAll(t, h, records)) == []
    decreases |records|
  {
    if |records| > 0 {
      SkipUploadSendsNothing(t, h, records[1..]);
      assert ProcessAll(t, h, records)[1..] == ProcessAll(t, h, records[1..]);
    }
  }

  /** Without `skip_upload`, every record that formats yields exactly one
      request, for its own URL, in arrival order. */
  lemma {:induction false} OneRequestPerRecord<V>(t: Thread, h: Host<V>, records: seq<Record<V>>)
    requires !t.skipUpload
    requires forall i :: 0 <= i < |records| ==> FormatUrl(t, h, h.getRecord(records[i])).Success?
    ensures |Requests(ProcessAll(t, h, records))| == |records|
    ensures forall i :: 0 <= i < |records| ==>
      Requests(ProcessAll(t, h, records))[i].url == FormatUrl(t, h, h.getRecord(records[i])).value
    decreases |records|
  {
    if |records| > 0 {
      OneRequestPerRecord(t, h, records[1..]);
      var outs := ProcessAll(t, h, records);
      assert outs[1..] == ProcessAll(t, h, records[1..]);
      var rest := Requests(ProcessAll(t, h, records[1..]));
      assert Requests(outs) == [outs[0].value.request] + rest;
      forall i | 0 <= i < |records|
        ensures Requests(outs)[i].url == FormatUrl(t, h, h.getRecord(records[i])).value
      {
        if i > 0 {
          assert records[1..][i - 1] == records[i];
        }
      }
    }
  }
}
