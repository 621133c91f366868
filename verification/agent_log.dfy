/**
 * Model of `buildAgentLog` (backend/utils/misc.ts:51-77).
 *
 * The HTTP request and the result of the user-agent parser are external
 * collaborators and arrive here as plain records. What is modelled is how
 * the log record is assembled from them: JavaScript truthiness in the `||`
 * chain for `ip`, template-literal formatting for `agent` and `device`, and
 * the `if (vendor)` guard on `device`.
 */
module AgentLog {
  import opened Options

  /** A Node header value: `string | string[]`. */
  datatype HeaderValue = Single(text: string) | Multiple(texts: seq<string>)

  /** The part of the request that is read: the header map (names in lower
      case, as Node stores them) and `req.ip`. */
  datatype Request = Request(headers: map<string, HeaderValue>, ip: Option<string>)

  /** A `{ name, version }` pair from the parser; a field the parser could not
      determine is `undefined`. */
  datatype NameVersion = NameVersion(name: Option<string>, version: Option<string>)

  /** The parser's `device` object. */
  datatype Device = Device(vendor: Option<string>, model: Option<string>, deviceType: Option<string>)

  /** The parts of a parser result that are read. */
  datatype UserAgent = UserAgent(os: NameVersion, browser: NameVersion, device: Device)

  /** The `AgentLog` interface; `device` is an optional property. */
  datatype Log = Log(ip: HeaderValue, agent: string, device: Option<string>)

  const CfConnectingIp: string := "cf-connecting-ip"
  const XForwardedFor: string := "x-forwarded-for"
  const FallbackIp: string := "255.255.255.255"

  /** `req.headers[name]`: `undefined` when the header is absent. */
  function Header(req: Request, name: string): Option<HeaderValue> {
    if name in req.headers then Some(req.headers[name]) else None
  }

  /** JavaScript truthiness of a header value: `undefined` and the empty string
      are falsy; every array, even an empty one, is truthy. */
  predicate Truthy(v: Option<HeaderValue>) {
    match v
    case None => false
    case Some(Single(text)) => text != ""
    case Some(Multiple(_)) => true
  }

  /** `req.ip` as a candidate of the same kind as the headers. */
  function RemoteAddress(req: Request): Option<HeaderValue> {
    match req.ip
    case None => None
    case Some(text) => Some(Single(text))
  }

  /** The value of `c0 || c1 || ... || fallback`: the first truthy candidate,
      or the last operand when none is. Whatever it is, it is either the
      fallback or a truthy candidate, so a truthy fallback makes it truthy. */
  function FirstTruthy(candidates: seq<Option<HeaderValue>>, fallback: HeaderValue): (r: HeaderValue)
    ensures (forall j :: 0 <= j < |candidates| ==> !Truthy(candidates[j])) ==> r == fallback
    ensures forall k :: (0 <= k < |candidates| && Truthy(candidates[k]) &&
                         (forall j :: 0 <= j < k ==> !Truthy(candidates[j])))
                        ==> r == candidates[k].value
    ensures r == fallback ||
            exists k :: 0 <= k < |candidates| && Truthy(candidates[k]) && r == candidates[k].value
    ensures Truthy(Some(fallback)) ==> Truthy(Some(r))
    decreases |candidates|
  {
    if |candidates| == 0 then fallback
    else if Truthy(candidates[0]) then candidates[0].value
    else
      assert forall j :: 1 <= j < |candidates| ==> candidates[1..][j - 1] == candidates[j];
      FirstTruthy(candidates[1..], fallback)
  }

  /** `${value}` in a template literal: a string as it is, `undefined` as the
      text "undefined". */
  function Interpolate(v: Option<string>): string {
    match v
    case None => "undefined"
    case Some(s) => s
  }

  /** Parts joined by single spaces, as in `${a} ${b} ${c}`. */
  function JoinSpaces(parts: seq<string>): string
    decreases |parts|
  {
    if |parts| == 0 then ""
    else if |parts| == 1 then parts[0]
    else parts[0] + " " + JoinSpaces(parts[1..])
  }

  /** `text.split(" ")`: the pieces between single spaces, in order. */
  function SplitSpaces(text: string): (parts: seq<string>)
    ensures |parts| >= 1
    decreases |text|
  {
    if |text| == 0 then [""]
    else
      var rest := SplitSpaces(text[1..]);
      if text[0] == ' ' then [""] + rest else [[text[0]] + rest[0]] + rest[1..]
  }

  predicate SpaceFree(text: string) {
    forall i :: 0 <= i < |text| ==> text[i] != ' '
  }

  /** The four interpolated OS and browser fields, in order. */
  function AgentFields(ua: UserAgent): seq<string> {
    [Interpolate(ua.os.name), Interpolate(ua.os.version),
     Interpolate(ua.browser.name), Interpolate(ua.browser.version)]
  }

  /** The three interpolated device fields, in order. */
  function DeviceFields(ua: UserAgent): seq<string> {
    [Interpolate(ua.device.vendor), Interpolate(ua.device.model), Interpolate(ua.device.deviceType)]
  }

  /** `buildAgentLog(req)` with the parser's result for the request's
      `user-agent` header passed in as `ua`. */
  function BuildAgentLog(req: Request, ua: UserAgent): (log: Log)
    ensures Truthy(Header(req, CfConnectingIp)) ==>
      log.ip == req.headers[CfConnectingIp]
    ensures !Truthy(Header(req, CfConnectingIp)) && Truthy(Header(req, XForwardedFor)) ==>
      log.ip == req.headers[XForwardedFor]
    ensures (!Truthy(Header(req, CfConnectingIp)) && !Truthy(Header(req, XForwardedFor)) &&
             req.ip.Some? && req.ip.value != "")
            ==> log.ip == Single(req.ip.value)
    ensures (!Truthy(Header(req, CfConnectingIp)) && !Truthy(Header(req, XForwardedFor)) &&
             (req.ip.None? || req.ip.value == ""))
            ==> log.ip == Single(FallbackIp)
    ensures log.agent == JoinSpaces(AgentFields(ua))
    ensures log.device.Some? <==> ua.device.vendor.Some? && ua.device.vendor.value != ""
    ensures log.device.Some? ==> log.device.value == JoinSpaces(DeviceFields(ua))
  {
    var candidates := [Header(req, CfConnectingIp), Header(req, XForwardedFor), RemoteAddress(req)];
    var ip := FirstTruthy(candidates, Single(FallbackIp));
    assert candidates[1..] == candidates[1..2] + [candidates[2]];
    assert !Truthy(candidates[0]) && Truthy(candidates[1]) ==> ip == candidates[1].value;
    assert !Truthy(candidates[0]) && !Truthy(candidates[1]) && Truthy(candidates[2]) ==> ip == candidates[2].value;
    var agent := Interpolate(ua.os.name) + " " + Interpolate(ua.os.version) + " "
      + Interpolate(ua.browser.name) + " " + Interpolate(ua.browser.version);
    JoinSpacesOfFour(AgentFields(ua));
    JoinSpacesOfThree(DeviceFields(ua));
    var vendor := ua.device.vendor;
    if vendor.Some? && vendor.value != "" then
      Log(ip, agent, Some(vendor.value + " " + Interpolate(ua.device.model) + " "
        + Interpolate(ua.device.deviceType)))
    else
      Log(ip, agent, None)
  }

  lemma JoinSpacesOfThree(parts: seq<string>)
    requires |parts| == 3
    ensures JoinSpaces(parts) == parts[0] + " " + parts[1] + " " + parts[2]
  {
    var rest := parts[1..];
    assert rest[1..] == [parts[2]];
    assert JoinSpaces(rest) == parts[1] + " " + parts[2];
    assert JoinSpaces(parts) == parts[0] + " " + (parts[1] + " " + parts[2]);
  }

  lemma JoinSpacesOfFour(parts: seq<string>)
    requires |parts| == 4
    ensures JoinSpaces(parts) == parts[0] + " " + parts[1] + " " + parts[2] + " " + parts[3]
  {
    JoinSpacesOfThree(parts[1..]);
  }

  /** Splitting text that starts with a space-free `p` glues `p` to the first piece. */
  lemma {:induction false} SplitSpaceFreePrefix(p: string, t: string)
    requires SpaceFree(p)
    ensures SplitSpaces(p + t) == [p + SplitSpaces(t)[0]] + SplitSpaces(t)[1..]
    decreases |p|
  {
    if |p| == 0 {
      assert p + t == t;
      assert p + SplitSpaces(t)[0] == SplitSpaces(t)[0];
    } else {
      assert (p + t)[0] == p[0];
      assert (p + t)[1..] == p[1..] + t;
      SplitSpaceFreePrefix(p[1..], t);
      assert [p[0]] + (p[1..] + SplitSpaces(t)[0]) == p + SplitSpaces(t)[0];
    }
  }

  /** Joining space-free parts with single spaces and splitting again gives
      the parts back. */
  lemma {:induction false} SplitJoinSpaces(parts: seq<string>)
    requires |parts| >= 1
    requires forall k :: 0 <= k < |parts| ==> SpaceFree(parts[k])
    ensures SplitSpaces(JoinSpaces(parts)) == parts
    decreases |parts|
  {
    if |parts| == 1 {
      SplitSpaceFreePrefix(parts[0], "");
      assert parts[0] + "" == parts[0];
    } else {
      var rest := parts[1..];
      assert forall k :: 0 <= k < |rest| ==> rest[k] == parts[k + 1];
      SplitJoinSpaces(rest);
      var tail := " " + JoinSpaces(rest);
      assert JoinSpaces(parts) == parts[0] + tail;
      SplitSpaceFreePrefix(parts[0], tail);
      assert tail[0] == ' ' && tail[1..] == JoinSpaces(rest);
      assert SplitSpaces(tail) == [""] + rest;
      assert parts[0] + "" == parts[0];
      assert parts == [parts[0]] + rest;
    }
  }

  /** The `agent` text carries its four fields recoverably: when none of them
      contains a space, splitting it at spaces gives them back in order. */
  lemma AgentFieldsRecoverable(req: Request, ua: UserAgent)
    requires forall k :: 0 <= k < 4 ==> SpaceFree(AgentFields(ua)[k])
    ensures SplitSpaces(BuildAgentLog(req, ua).agent) == AgentFields(ua)
  {
    SplitJoinSpaces(AgentFields(ua));
  }

  /** Without the space-free condition the fields are not recoverable: an OS
      named `x y` at version `v` and one named `x` at version `y v` log the
      same `agent` text ("Mac OS" 14 and "Mac" "OS 14", say). */
  lemma AgentAmbiguousWithSpaces(req: Request, x: string, y: string, v: string,
                                 browser: NameVersion, device: Device)
    ensures var a := UserAgent(NameVersion(Some(x + " " + y), Some(v)), browser, device);
            var b := UserAgent(NameVersion(Some(x), Some(y + " " + v)), browser, device);
            a != b && BuildAgentLog(req, a).agent == BuildAgentLog(req, b).agent
  {
    assert (x + " " + y) + " " + v == x + " " + (y + " " + v);
  }

  /** The logged `ip` is never falsy: not `undefined` and not the empty
      string. It is the broadcast fallback or the value of a truthy candidate,
      so the fallback appears only when every candidate is falsy or a truthy
      one carries that very text. */
  lemma IpProvenance(req: Request, ua: UserAgent)
    ensures Truthy(Some(BuildAgentLog(req, ua).ip))
    ensures BuildAgentLog(req, ua).ip == Single(FallbackIp)
         || (Truthy(Header(req, CfConnectingIp)) && BuildAgentLog(req, ua).ip == req.headers[CfConnectingIp])
         || (Truthy(Header(req, XForwardedFor)) && BuildAgentLog(req, ua).ip == req.headers[XForwardedFor])
         || (Truthy(RemoteAddress(req)) && BuildAgentLog(req, ua).ip == Single(req.ip.value))
    ensures BuildAgentLog(req, ua).ip == Single(FallbackIp) ==>
            (!Truthy(Header(req, CfConnectingIp)) && !Truthy(Header(req, XForwardedFor))
             && !Truthy(RemoteAddress(req)))
            || Header(req, CfConnectingIp) == Some(Single(FallbackIp))
            || Header(req, XForwardedFor) == Some(Single(FallbackIp))
            || req.ip == Some(FallbackIp)
  {
  }

  /** Worked examples, and the JavaScript corner cases: an
      empty string falls through, an empty array does not. */
  lemma IpExamples(ua: UserAgent)
    ensures BuildAgentLog(Request(map[XForwardedFor := Single("1.2.3.4")], None), ua).ip
      == Single("1.2.3.4")
    ensures BuildAgentLog(Request(map[], None), ua).ip == Single(FallbackIp)
    ensures BuildAgentLog(Request(map[CfConnectingIp := Single("")], Some("10.0.0.1")), ua).ip
      == Single("10.0.0.1")
    ensures BuildAgentLog(Request(map[CfConnectingIp := Multiple([])], Some("10.0.0.1")), ua).ip
      == Multiple([])
  {
  }
}
