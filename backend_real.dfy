/** BackendReal.jsx: the demo request driver. Two endpoints, one request at
    a time, a newest-first console log and the last response shown with its
    latency. The network call is an input: what the browser's `fetch` and
    `res.json()` produced, with the two `performance.now()` readings as
    integer milliseconds. */
module BackendDemo {
  import opened Options

  // =====================================================================
  // Endpoints

  /** An entry of the `endpoints` table (display-only fields left out). */
  datatype Endpoint = Endpoint(id: string, name: string, url: string)

  const Native: Endpoint := Endpoint("native", "Astro Native", "/api/native")
  const Hono: Endpoint := Endpoint("hono", "Hono Framework", "/api/hono/data")
  const Endpoints: seq<Endpoint> := [Native, Hono]

  /** The two endpoints have different ids, names and urls. */
  lemma EndpointsDistinct()
    ensures |Endpoints| == 2
    ensures forall i, j :: 0 <= i < j < |Endpoints| ==>
      Endpoints[i].id != Endpoints[j].id && Endpoints[i].name != Endpoints[j].name &&
      Endpoints[i].url != Endpoints[j].url
  {
    assert |Native.id| == 6 && |Hono.id| == 4;
    assert |Native.name| == 12 && |Hono.name| == 14;
    assert |Native.url| == 11 && |Hono.url| == 14;
  }

  // =====================================================================
  // Response bodies

  /** A field value of a decoded JSON body. */
  datatype JsonValue = JString(s: string) | JNumber(n: int) | JBool(b: bool) | JNull

  /** A decoded JSON object: field name to value. */
  type Record = map<string, JsonValue>

  /** What the awaited `fetch(url)` and `res.json()` produced: a decoded body
      with the HTTP status and the clock before and after, or the message of
      the error thrown by either (a body that is no JSON throws too). */
  datatype Outcome =
    | Received(status: int, body: Record, startMs: int, endMs: int)
    | Failed(message: string)

  /** `{ ...json, latency: Math.round(end - start) }`. */
  function WithLatency(body: Record, latency: int): (r: Record)
    ensures "latency" in r && r["latency"] == JNumber(latency)
    ensures r.Keys == body.Keys + {"latency"}
    ensures forall k :: k in body && k != "latency" ==> r[k] == body[k]
  {
    body["latency" := JNumber(latency)]
  }

  /** The record the native endpoint returns; the time stamp is an input. */
  function NativePayload(timestamp: string): Record {
    map["message" := JString("Data fetched from Astro Native Endpoint"),
        "timestamp" := JString(timestamp),
        "framework" := JString("Astro Native"),
        "status" := JNumber(200)]
  }

  // =====================================================================
  // Decimal numbers, as a template literal prints an integer

  predicate IsDigit(c: char) {
    '0' <= c <= '9'
  }

  predicate Digits(s: string) {
    forall k :: 0 <= k < |s| ==> IsDigit(s[k])
  }

  function DigitChar(d: nat): (c: char)
    requires d < 10
    ensures IsDigit(c) && c as int - '0' as int == d
  {
    ('0' as int + d) as char
  }

  /** The decimal digits of `n`, most significant first, no leading zero. */
  function NatDecimal(n: nat): (s: string)
    ensures |s| >= 1 && Digits(s)
    ensures |s| > 1 ==> s[0] != '0'
    decreases n
  {
    if n < 10 then [DigitChar(n)] else NatDecimal(n / 10) + [DigitChar(n % 10)]
  }

  /** `${n}` for an integer `n`. */
  function Decimal(i: int): (s: string)
    ensures |s| >= 1
    ensures i < 0 <==> s[0] == '-'
    ensures i >= 0 ==> Digits(s)
    ensures i < 0 ==> Digits(s[1..])
  {
    if i < 0 then "-" + NatDecimal(-i) else NatDecimal(i)
  }

  /** The value of a string of digits. */
  function DigitsValue(s: string): nat
    requires Digits(s)
  {
    if s == [] then 0
    else DigitsValue(s[..|s| - 1]) * 10 + (s[|s| - 1] as int - '0' as int)
  }

  /** Reads back an integer printed by `Decimal`. */
  function ParseDecimal(s: string): Option<int> {
    if |s| >= 2 && s[0] == '-' && Digits(s[1..]) then Some(-(DigitsValue(s[1..]) as int))
    else if |s| >= 1 && Digits(s) then Some(DigitsValue(s))
    else None
  }

  lemma {:induction false} NatDecimalValue(n: nat)
    ensures DigitsValue(NatDecimal(n)) == n
    decreases n
  {
    if n >= 10 {
      NatDecimalValue(n / 10);
      var s := NatDecimal(n);
      assert s[..|s| - 1] == NatDecimal(n / 10);
    }
  }

  /** Printing an integer loses nothing: it reads back as itself. */
  lemma DecimalRoundTrip(i: int)
    ensures ParseDecimal(Decimal(i)) == Some(i)
  {
    if i < 0 {
      var d := NatDecimal(-i);
      var s := "-" + d;
      assert s[1..] == d;
      NatDecimalValue(-i);
      assert ParseDecimal(s) == Some(-(DigitsValue(d) as int));
    } else {
      var d := NatDecimal(i);
      assert IsDigit(d[0]);
      NatDecimalValue(i);
      assert ParseDecimal(d) == Some(DigitsValue(d));
    }
  }

  /** Different numbers print differently. */
  lemma DecimalInjective(i: int, j: int)
    ensures Decimal(i) == Decimal(j) ==> i == j
  {
    DecimalRoundTrip(i);
    DecimalRoundTrip(j);
  }

  // =====================================================================
  // Console lines

  function RequestLine(ep: Endpoint): string {
    "[" + ep.name + "] Request sent to " + ep.url + "..."
  }

  function ResponsePrefix(ep: Endpoint): string {
    "[" + ep.name + "] Response received in "
  }

  function ResponseLine(ep: Endpoint, latency: int): string {
    ResponsePrefix(ep) + Decimal(latency) + "ms"
  }

  function ErrorLine(message: string): string {
    "[ERROR] Failed to fetch: " + message
  }

  /** The latency a "Response received in Nms" line of `ep` reports. */
  function LoggedLatency(ep: Endpoint, line: string): Option<int> {
    var p := ResponsePrefix(ep);
    if |line| >= |p| + 2 && line[..|p|] == p && line[|line| - 2..] == "ms"
    then ParseDecimal(line[|p|..|line| - 2])
    else None
  }

  /** The response line reports exactly the latency it was written with. */
  lemma ResponseLineRoundTrip(ep: Endpoint, latency: int)
    ensures LoggedLatency(ep, ResponseLine(ep, latency)) == Some(latency)
  {
    var p := ResponsePrefix(ep);
    var d := Decimal(latency);
    var line := ResponseLine(ep, latency);
    assert line == p + d + "ms";
    assert line[..|p|] == p;
    assert line[|line| - 2..] == "ms";
    assert line[|p|..|line| - 2] == d;
    DecimalRoundTrip(latency);
  }

  // =====================================================================
  // The component's state and its transitions

  /** The four state cells of the component. */
  datatype DemoState = DemoState(activeTab: Option<string>, loading: bool, data: Option<Record>, logs: seq<string>)

  /** `useState(null)`, `useState(false)`, `useState(null)`, `useState([])`. */
  const Initial: DemoState := DemoState(None, false, None, [])

  /** `fetchData(endpoint)` up to its first `await`: a call while loading
      returns at once; otherwise the request is announced. */
  function Begin(st: DemoState, ep: Endpoint): DemoState {
    if st.loading then st
    else DemoState(Some(ep.id), true, None, [RequestLine(ep)] + st.logs)
  }

  /** The rest of `fetchData`: the try block or its catch, then `loading`
      goes back to false. `activeTab` is left as it is. */
  function Complete(st: DemoState, ep: Endpoint, outcome: Outcome): DemoState {
    match outcome
    case Received(_, body, startMs, endMs) =>
      var latency := endMs - startMs;
      DemoState(st.activeTab, false, Some(WithLatency(body, latency)), [ResponseLine(ep, latency)] + st.logs)
    case Failed(message) =>
      DemoState(st.activeTab, false, st.data, [ErrorLine(message)] + st.logs)
  }

  /** One whole call of `fetchData`, its request answered by `outcome`. */
  function Fetch(st: DemoState, ep: Endpoint, outcome: Outcome): DemoState {
    if st.loading then st else Complete(Begin(st, ep), ep, outcome)
  }

  /** A click on `ep`'s button while a request runs changes nothing. */
  lemma BusyCallIgnored(st: DemoState, ep: Endpoint, outcome: Outcome)
    requires st.loading
    ensures Begin(st, ep) == st && Fetch(st, ep, outcome) == st
  {
  }

  /** Only one request is ever in flight: once a call is accepted, any
      further click before it completes is ignored. */
  lemma OneRequestInFlight(st: DemoState, ep: Endpoint, other: Endpoint)
    ensures Begin(st, ep).loading
    ensures Begin(Begin(st, ep), other) == Begin(st, ep)
  {
  }

  /** An accepted call marks the tab, clears the old response and logs the
      request before anything is awaited. */
  lemma AcceptedCallAnnounced(st: DemoState, ep: Endpoint)
    requires !st.loading
    ensures var b := Begin(st, ep);
      b.loading && b.activeTab == Some(ep.id) && b.data.None? &&
      |b.logs| == |st.logs| + 1 && b.logs[0] == RequestLine(ep) && b.logs[1..] == st.logs
  {
  }

  /** A success shows the body plus the latency, and the console line
      reports that same latency. */
  lemma SuccessShowsLatency(st: DemoState, ep: Endpoint, status: int, body: Record, startMs: int, endMs: int)
    requires !st.loading
    ensures var r := Fetch(st, ep, Received(status, body, startMs, endMs));
      r.data.Some? && r.data.value.Keys == body.Keys + {"latency"} &&
      r.data.value["latency"] == JNumber(endMs - startMs) &&
      (forall k :: k in body && k != "latency" ==> r.data.value[k] == body[k]) &&
      |r.logs| >= 1 && LoggedLatency(ep, r.logs[0]) == Some(endMs - startMs)
  {
    ResponseLineRoundTrip(ep, endMs - startMs);
  }

  /** `performance.now()` never runs backwards, so the latency shown and
      logged is a whole number of milliseconds no less than zero. */
  lemma LatencyNonNegative(st: DemoState, ep: Endpoint, status: int, body: Record, startMs: int, endMs: int)
    requires !st.loading && startMs <= endMs
    ensures var r := Fetch(st, ep, Received(status, body, startMs, endMs));
      r.data.Some? && "latency" in r.data.value && r.data.value["latency"].JNumber? &&
      r.data.value["latency"].n >= 0 &&
      |r.logs| >= 1 && LoggedLatency(ep, r.logs[0]).Some? && LoggedLatency(ep, r.logs[0]).value >= 0
  {
    SuccessShowsLatency(st, ep, status, body, startMs, endMs);
  }

  /** The status is never looked at: an error status with a JSON body takes
      the success path just like 200. */
  lemma StatusIgnored(st: DemoState, ep: Endpoint, s1: int, s2: int, body: Record, startMs: int, endMs: int)
    ensures Fetch(st, ep, Received(s1, body, startMs, endMs)) == Fetch(st, ep, Received(s2, body, startMs, endMs))
  {
  }

  /** A failure logs one error line over the request line and leaves no
      response to show. */
  lemma FailureLogged(st: DemoState, ep: Endpoint, message: string)
    requires !st.loading
    ensures var r := Fetch(st, ep, Failed(message));
      r.data.None? && !r.loading && r.activeTab == Some(ep.id) &&
      r.logs == [ErrorLine(message), RequestLine(ep)] + st.logs
  {
  }

  /** Every accepted call ends not loading, with exactly two new lines on
      top, the older lines kept in their order behind them. */
  lemma AcceptedCallLogs(st: DemoState, ep: Endpoint, outcome: Outcome)
    requires !st.loading
    ensures var r := Fetch(st, ep, outcome);
      !r.loading && r.activeTab == Some(ep.id) &&
      |r.logs| == |st.logs| + 2 && r.logs[1] == RequestLine(ep) && r.logs[2..] == st.logs
  {
  }

  /** The console never loses or reorders a line: the lines before a call
      are a suffix of the lines after it. */
  lemma LogsOnlyGrow(st: DemoState, ep: Endpoint, outcome: Outcome)
    ensures var r := Fetch(st, ep, outcome);
      |r.logs| >= |st.logs| && r.logs[|r.logs| - |st.logs|..] == st.logs
  {
  }

  /** The native endpoint's record, fetched from the initial state: the
      Source card reads "Astro Native" and the latency card `end - start`. */
  lemma NativeSampleShown(timestamp: string, startMs: int, endMs: int)
    ensures var r := Fetch(Initial, Native, Received(200, NativePayload(timestamp), startMs, endMs));
      r.data.Some? && r.data.value["framework"] == JString("Astro Native") &&
      r.data.value["latency"] == JNumber(endMs - startMs) && r.data.value["status"] == JNumber(200) &&
      r.logs == [ResponseLine(Native, endMs - startMs), RequestLine(Native)]
  {
    assert |"framework"| != |"latency"| && |"status"| != |"latency"|;
  }

  // =====================================================================
  // What the view shows

  /** Line 91: the "Waiting for request..." placeholder. */
  predicate ShowsPlaceholder(st: DemoState) {
    |st.logs| == 0
  }

  /** Lines 111-115: the "200 OK" badge, and the response card of line 121. */
  predicate ShowsBadge(st: DemoState) {
    st.data.Some?
  }

  /** Line 65: the button of `ep` is highlighted. */
  predicate Highlighted(st: DemoState, ep: Endpoint) {
    st.activeTab == Some(ep.id)
  }

  /** Line 73: the spinner on the button of `ep`. */
  predicate Spinning(st: DemoState, ep: Endpoint) {
    Highlighted(st, ep) && st.loading
  }

  /** The page starts with the placeholder, no badge and no highlight. */
  lemma InitialView()
    ensures ShowsPlaceholder(Initial) && !ShowsBadge(Initial)
    ensures forall k :: 0 <= k < |Endpoints| ==> !Highlighted(Initial, Endpoints[k])
  {
  }

  /** After an accepted call: the placeholder is gone, the badge is shown
      exactly when the request succeeded, and exactly the clicked endpoint's
      button is highlighted, its spinner stopped. */
  lemma ViewAfterCall(st: DemoState, ep: Endpoint, outcome: Outcome)
    requires !st.loading && ep in Endpoints
    ensures var r := Fetch(st, ep, outcome);
      !ShowsPlaceholder(r) && (ShowsBadge(r) <==> outcome.Received?) &&
      (forall k :: 0 <= k < |Endpoints| ==> (Highlighted(r, Endpoints[k]) <==> Endpoints[k] == ep)) &&
      !Spinning(r, ep)
  {
    EndpointsDistinct();
  }

  /** While the request is awaited the clicked button spins and no old
      response is shown. */
  lemma ViewWhileLoading(st: DemoState, ep: Endpoint)
    requires !st.loading
    ensures Spinning(Begin(st, ep), ep) && !ShowsBadge(Begin(st, ep)) && !ShowsPlaceholder(Begin(st, ep))
  {
  }

  // =====================================================================
  // The component

  class DemoDriver {
    var activeTab: Option<string>
    var loading: bool
    var data: Option<Record>
    var logs: seq<string>

    function State(): DemoState
      reads this
    {
      DemoState(activeTab, loading, data, logs)
    }

    constructor ()
      ensures State() == Initial
    {
      activeTab := None;
      loading := false;
      data := None;
      logs := [];
    }

    /** `fetchData(endpoint)` up to `await fetch(...)`; `accepted` is false
        for the early return. */
    method Click(ep: Endpoint) returns (accepted: bool)
      modifies this
      ensures accepted <==> !old(loading)
      ensures State() == Begin(old(State()), ep)
    {
      if loading {
        return false;
      }
      loading := true;
      activeTab := Some(ep.id);
      data := None;
      logs := [RequestLine(ep)] + logs;
      return true;
    }

    /** The continuation after the awaits: the try block or the catch, then
        `setLoading(false)`. */
    method Resolve(ep: Endpoint, outcome: Outcome)
      modifies this
      ensures State() == Complete(old(State()), ep, outcome)
    {
      match outcome {
        case Received(_, body, startMs, endMs) =>
          var latency := endMs - startMs;
          data := Some(WithLatency(body, latency));
          logs := [ResponseLine(ep, latency)] + logs;
        case Failed(message) =>
          logs := [ErrorLine(message)] + logs;
      }
      loading := false;
    }

    /** A whole call of `fetchData`, served by `outcome` without another
        event in between. */
    method FetchData(ep: Endpoint, outcome: Outcome)
      modifies this
      ensures State() == Fetch(old(State()), ep, outcome)
    {
      var accepted := Click(ep);
      if accepted {
        Resolve(ep, outcome);
      }
    }
  }
}
