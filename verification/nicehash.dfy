/** `Nicehash.request`: from the credentials, the call's arguments, two
    clock readings and a nonce, build the signing slots, the `X-Auth`
    header and the URL, and hand the assembled request to the transport.
    The clock, the nonce generator, `JSON.stringify` and the HMAC are
    parameters; `query` is the output of `qs.stringify`. */
module Nicehash {
  import opened Wrappers
  import opened Signing
  import Utf8
  import Hex
  import Decimal
  import Ascii

  /** ECMAScript time values stay within 8.64e15 ms either side of the
      epoch (ECMA-262, section 21.4.1.1, "Time Values and Time Range"). */
  const MaxTimeValue: int := 8_640_000_000_000_000

  /** A reading of `Date.now()`. */
  type TimeValue = t: int | -MaxTimeValue <= t <= MaxTimeValue

  /** Fixed for the lifetime of a client (constructor, lines 8-11). */
  datatype Credentials = Credentials(apiKey: string, apiSecret: string, organizationId: string)

  /** The JavaScript value a caller passes as `body`. */
  datatype Body =
    | Undefined
    | Null
    | Boolean(b: bool)
    | Number(value: real)
    | Infinite(negative: bool)
    | NotANumber
    | Text(s: string)
    | Array(items: seq<Body>)
    | Object(members: seq<(string, Body)>)

  /** JavaScript truthiness, which decides whether the body is signed. */
  predicate Truthy(body: Body) {
    match body
    case Undefined => false
    case Null => false
    case Boolean(b) => b
    case Number(v) => v != 0.0
    case Infinite(_) => true
    case NotANumber => false
    case Text(s) => s != ""
    case Array(_) => true
    case Object(_) => true
  }

  /** The falsy values of JavaScript, listed: every other body is signed. */
  lemma FalsyValues(body: Body)
    ensures !Truthy(body) <==> body in [Undefined, Null, Boolean(false), Number(0.0), NotANumber, Text("")]
  {
  }

  /** The two `Date.now()` readings of lines 32 and 33: one for
      `X-Request-Id`, one for `X-Time`. They may differ. */
  datatype Clock = Clock(requestId: TimeValue, time: TimeValue)

  /** The arguments of one `request` call; `query` is already serialised. */
  datatype Call = Call(verb: string, path: string, query: string, body: Body)

  datatype Headers = Headers(requestId: int, time: TimeValue, nonce: string, auth: string)

  /** What `request` hands to the throttled HTTP client. */
  datatype Outgoing = Outgoing(url: string, body: Body, verb: string, headers: Headers)

  /** The signing input of lines 39-53: nine slots, `null` at positions 3
      and 5, and the body's JSON as a tenth slot when the body is truthy. */
  function SigningInput(c: Credentials, call: Call, time: TimeValue, nonce: string,
                        stringify: Body -> string): (input: seq<Option<string>>)
    ensures |input| == if Truthy(call.body) then 10 else 9
    ensures forall i :: 0 <= i < |input| ==> (input[i] == None <==> i == 3 || i == 5)
    ensures input[0] == Some(c.apiKey) && input[2] == Some(nonce)
    ensures input[1] == Some(Decimal.NumberToString(time))
    ensures input[1].Some? && Decimal.ParseInteger(input[1].value) == Some(time)
    ensures input[4] == Some(c.organizationId)
    ensures input[6] == Some(Ascii.ToUpper(call.verb))
    ensures input[6].Some? && |input[6].value| == |call.verb|
    ensures forall i :: 0 <= i < |input[6].value| ==> !Ascii.IsLower(input[6].value[i])
    ensures input[7] == Some(call.path) && input[8] == Some(call.query)
    ensures Truthy(call.body) ==> input[9] == Some(stringify(call.body))
  {
    Decimal.ParseNumberToString(time);
    var base := [Some(c.apiKey), Some(Decimal.NumberToString(time)), Some(nonce),
                 None, Some(c.organizationId), None,
                 Some(Ascii.ToUpper(call.verb)), Some(call.path), Some(call.query)];
    if Truthy(call.body) then base + [Some(stringify(call.body))] else base
  }

  /** The request URL of line 58. */
  function Url(path: string, query: string): (url: string)
    ensures query == "" ==> url == path
    ensures query != "" ==> url == path + "?" + query
  {
    path + (if query != "" then "?" else "") + query
  }

  /** The `X-Auth` header value of line 55. */
  function XAuth(apiKey: string, digest: string): (auth: string)
    ensures |auth| == |apiKey| + 1 + |digest|
    ensures auth[..|apiKey|] == apiKey && auth[|apiKey|] == ':' && auth[|apiKey| + 1..] == digest
  {
    apiKey + ":" + digest
  }

  /** `request` (lines 30-63), up to the call into the HTTP client. */
  function Request(c: Credentials, call: Call, clock: Clock, nonce: string,
                   stringify: Body -> string, hmac: (seq<byte>, seq<byte>) -> Digest): (r: Outgoing)
    ensures r.verb == call.verb && r.body == call.body
    ensures r.headers.requestId == clock.requestId && r.headers.time == clock.time
    ensures r.headers.nonce == nonce
    ensures |r.headers.auth| == |c.apiKey| + 65
    ensures r.headers.auth[..|c.apiKey| + 1] == c.apiKey + ":"
    ensures Hex.Unhex(r.headers.auth[|c.apiKey| + 1..])
            == Some(hmac(Utf8.Encode(c.apiSecret),
                         Message(Encoded(SigningInput(c, call, clock.time, nonce, stringify)))))
    ensures r.url == Url(call.path, call.query)
    ensures '?' !in call.path ==> SplitUrl(r.url) == (call.path, call.query)
  {
    var mac := hmac(Utf8.Encode(c.apiSecret), Message(Encoded(SigningInput(c, call, clock.time, nonce, stringify))));
    var digest := Hex.Hex(mac);
    Hex.UnhexHex(mac);
    var auth := XAuth(c.apiKey, digest);
    assert auth[|c.apiKey| + 1..] == digest;
    assert '?' !in call.path ==> SplitUrl(Url(call.path, call.query)) == (call.path, call.query) by {
      if '?' !in call.path {
        SplitUrlOfUrl(call.path, call.query);
      }
    }
    Outgoing(Url(call.path, call.query), call.body, call.verb,
             Headers(clock.requestId, clock.time, nonce, auth))
  }

  /** The position of the first `x` in `s`, or `|s|` when there is none. */
  function IndexOf(s: string, x: char): (i: nat)
    ensures i <= |s|
    ensures i < |s| ==> s[i] == x
    ensures forall j :: 0 <= j < i ==> s[j] != x
  {
    if |s| == 0 then 0 else if s[0] == x then 0 else 1 + IndexOf(s[1..], x)
  }

  /** The position of the last `x` in `s`, or `|s|` when there is none. */
  function LastIndexOf(s: string, x: char): (i: nat)
    ensures i <= |s|
    ensures i < |s| ==> s[i] == x
    ensures i < |s| ==> forall j :: i < j < |s| ==> s[j] != x
    ensures i == |s| ==> x !in s
  {
    if |s| == 0 then 0
    else if s[|s| - 1] == x then |s| - 1
    else
      var k := LastIndexOf(s[..|s| - 1], x);
      if k == |s| - 1 then |s| else k
  }

  /** The server's view of a URL: the path up to the first `?`, and the
      query after it. */
  function SplitUrl(url: string): (string, string) {
    var i := IndexOf(url, '?');
    if i == |url| then (url, "") else (url[..i], url[i + 1..])
  }

  /** The server's view of `X-Auth`: the key before the last `:` and the
      digest after it. The digest holds no `:`, so any key splits back. */
  function SplitAuth(auth: string): Option<(string, string)> {
    var i := LastIndexOf(auth, ':');
    if i == |auth| then None else Some((auth[..i], auth[i + 1..]))
  }

  /** A URL built from a path without `?` splits back into path and query,
      and carries a `?` exactly when the query is non-empty. */
  lemma SplitUrlOfUrl(path: string, query: string)
    requires '?' !in path
    ensures SplitUrl(Url(path, query)) == (path, query)
    ensures '?' in Url(path, query) <==> query != ""
  {
    var url := Url(path, query);
    if query == "" {
      assert IndexOf(url, '?') == |url|;
    } else {
      assert url[|path|] == '?';
      assert IndexOf(url, '?') == |path|;
      assert url[..|path|] == path && url[|path| + 1..] == query;
    }
  }

  /** The header splits back into the key and the digest, whatever the key. */
  lemma SplitAuthOfXAuth(apiKey: string, digest: string)
    requires ':' !in digest
    ensures SplitAuth(XAuth(apiKey, digest)) == Some((apiKey, digest))
  {
    var auth := XAuth(apiKey, digest);
    assert auth[|apiKey|] == ':';
    assert forall j :: |apiKey| < j < |auth| ==> auth[j] == digest[j - |apiKey| - 1];
    var i := LastIndexOf(auth, ':');
    assert auth[..i] == apiKey && auth[i + 1..] == digest;
  }

  /** The `X-Auth` header of a request splits into the API key and the
      hex digest of the HMAC over the signed bytes. */
  lemma RequestAuthSplits(c: Credentials, call: Call, clock: Clock, nonce: string,
                          stringify: Body -> string, hmac: (seq<byte>, seq<byte>) -> Digest)
    ensures var r := Request(c, call, clock, nonce, stringify, hmac);
            var input := SigningInput(c, call, clock.time, nonce, stringify);
            && SplitAuth(r.headers.auth).Some?
            && SplitAuth(r.headers.auth).value.0 == c.apiKey
            && Hex.Unhex(SplitAuth(r.headers.auth).value.1)
               == Some(hmac(Utf8.Encode(c.apiSecret), Message(Encoded(input))))
  {
    var digest := Hex.Hex(hmac(Utf8.Encode(c.apiSecret),
                               Message(Encoded(SigningInput(c, call, clock.time, nonce, stringify)))));
    assert forall i :: 0 <= i < |digest| ==> digest[i] != ':';
    SplitAuthOfXAuth(c.apiKey, digest);
  }

  /** Only the `X-Time` reading is signed: the `X-Request-Id` reading does
      not affect `X-Auth`. */
  lemma AuthIgnoresRequestId(c: Credentials, call: Call, id1: TimeValue, id2: TimeValue,
                             time: TimeValue, nonce: string,
                             stringify: Body -> string, hmac: (seq<byte>, seq<byte>) -> Digest)
    ensures Request(c, call, Clock(id1, time), nonce, stringify, hmac).headers.auth
         == Request(c, call, Clock(id2, time), nonce, stringify, hmac).headers.auth
  {
  }

  /** The exact bytes under the HMAC: nine slots joined by zero bytes, with
      two adjacent separators around each `null` slot, then the body's JSON
      after one more separator when the body is truthy. */
  lemma SignedBytesLayout(c: Credentials, call: Call, time: TimeValue, nonce: string,
                          stringify: Body -> string)
    ensures Message(Encoded(SigningInput(c, call, time, nonce, stringify)))
         == Utf8.Encode(c.apiKey) + [0] + Utf8.Encode(Decimal.NumberToString(time)) + [0]
            + Utf8.Encode(nonce) + [0] + [0] + Utf8.Encode(c.organizationId) + [0] + [0]
            + Utf8.Encode(Ascii.ToUpper(call.verb)) + [0] + Utf8.Encode(call.path) + [0]
            + Utf8.Encode(call.query)
            + (if Truthy(call.body) then [0] + Utf8.Encode(stringify(call.body)) else [])
  {
    var m := BaseLayout(c, call, time, nonce, stringify);
    BodyExtendsMessage(c, call, time, nonce, stringify);
    AppendIf(Message(Encoded(SigningInput(c, call, time, nonce, stringify))), m,
             Truthy(call.body), Utf8.Encode(stringify(call.body)));
  }

  lemma AppendIf(whole: seq<byte>, m: seq<byte>, b: bool, j: seq<byte>)
    requires b ==> whole == m + [0] + j
    requires !b ==> whole == m
    ensures whole == m + (if b then [0] + j else [])
  {
    if b {
      assert m + [0] + j == m + ([0] + j);
    } else {
      assert m + [] == m;
    }
  }

  /** The body-less signing bytes, slot by slot. */
  lemma BaseLayout(c: Credentials, call: Call, time: TimeValue, nonce: string, stringify: Body -> string)
    returns (m: seq<byte>)
    ensures m == Message(Encoded(SigningInput(c, call.(body := Undefined), time, nonce, stringify)))
    ensures m == Utf8.Encode(c.apiKey) + [0] + Utf8.Encode(Decimal.NumberToString(time)) + [0]
                 + Utf8.Encode(nonce) + [0] + [0] + Utf8.Encode(c.organizationId) + [0] + [0]
                 + Utf8.Encode(Ascii.ToUpper(call.verb)) + [0] + Utf8.Encode(call.path) + [0]
                 + Utf8.Encode(call.query)
  {
    var input := SigningInput(c, call.(body := Undefined), time, nonce, stringify);
    var segs := Encoded(input);
    assert segs[..9] == segs;
    assert input[1] == Some(Decimal.NumberToString(time));
    assert input[6] == Some(Ascii.ToUpper(call.verb));
    m := SlotLayout(segs, Utf8.Encode(c.apiKey), Utf8.Encode(Decimal.NumberToString(time)),
                    Utf8.Encode(nonce), Utf8.Encode(c.organizationId),
                    Utf8.Encode(Ascii.ToUpper(call.verb)), Utf8.Encode(call.path),
                    Utf8.Encode(call.query));
  }

  /** A truthy body adds one separator and the body's JSON after the nine
      fixed slots, which are unchanged: the body-less message is a strict
      prefix. A falsy body is not signed at all. */
  lemma BodyExtendsMessage(c: Credentials, call: Call, time: TimeValue, nonce: string,
                           stringify: Body -> string)
    ensures var withBody := Message(Encoded(SigningInput(c, call, time, nonce, stringify)));
            var without := Message(Encoded(SigningInput(c, call.(body := Undefined), time, nonce, stringify)));
            && (Truthy(call.body) ==> withBody == without + [0] + Utf8.Encode(stringify(call.body)))
            && (Truthy(call.body) ==> |without| < |withBody| && withBody[..|without|] == without)
            && (!Truthy(call.body) ==> withBody == without)
  {
    var segs := Encoded(SigningInput(c, call, time, nonce, stringify));
    var base := Encoded(SigningInput(c, call.(body := Undefined), time, nonce, stringify));
    if Truthy(call.body) {
      MessageSnoc(base, segs[9]);
      assert segs == base + [segs[9]];
    } else {
      assert segs == base;
    }
  }

  /** Nine slots with `null` at positions 3 and 5, as bytes. */
  lemma SlotLayout(s: seq<Segment>, key: seq<byte>, time: seq<byte>, nonce: seq<byte>, org: seq<byte>,
                   verb: seq<byte>, path: seq<byte>, query: seq<byte>) returns (m: seq<byte>)
    requires |s| >= 9 && s[3] == Absent && s[5] == Absent
    requires s[0] == Present(key) && s[1] == Present(time) && s[2] == Present(nonce)
    requires s[4] == Present(org) && s[6] == Present(verb) && s[7] == Present(path)
    requires s[8] == Present(query)
    ensures m == Message(s[..9])
    ensures m == key + [0] + time + [0] + nonce + [0] + [0] + org + [0] + [0] + verb + [0] + path + [0]
                 + query
  {
    assert s[..1] == [s[0]];
    var m1 := Message(s[..1]);
    var m2 := PrefixStep(s, 1, m1);
    var m3 := PrefixStep(s, 2, m2);
    var m4 := PrefixStep(s, 3, m3);
    assert m4 == m3 + [0] + [];
    m4 := m3 + [0];
    var m5 := PrefixStep(s, 4, m4);
    var m6 := PrefixStep(s, 5, m5);
    assert m6 == m5 + [0] + [];
    m6 := m5 + [0];
    var m7 := PrefixStep(s, 6, m6);
    var m8 := PrefixStep(s, 7, m7);
    m := PrefixStep(s, 8, m8);
  }

  /** How a verifier reads the signed timestamp back: the second
      zero-separated field, decoded and parsed. */
  function SignedTime(m: seq<byte>): Option<int> {
    var fields := Fields(m);
    if |fields| < 2 then None
    else
      var text := Utf8.Decode(fields[1]);
      if text.None? then None else Decimal.ParseInteger(text.value)
  }

  /** The `X-Time` value is recoverable from the signed bytes whenever the
      API key has no NUL: the timestamp slot sits between the first two
      separators. */
  lemma SignedTimeRecovered(c: Credentials, call: Call, time: TimeValue, nonce: string,
                            stringify: Body -> string)
    requires '\0' !in c.apiKey
    ensures SignedTime(Message(Encoded(SigningInput(c, call, time, nonce, stringify)))) == Some(time)
  {
    var input := SigningInput(c, call, time, nonce, stringify);
    var segs := Encoded(input);
    var text := Decimal.NumberToString(time);
    var k, t := Utf8.Encode(c.apiKey), Utf8.Encode(text);
    assert input[1] == Some(text);
    assert segs[0] == Present(k) && segs[1] == Present(t);
    assert segs[1..][0] == segs[1] && segs[1..][1..] == segs[2..];
    assert Message(segs) == k + [0] + Message(segs[1..]);
    assert Message(segs[1..]) == t + [0] + Message(segs[2..]);
    Utf8.EncodeHasZero(c.apiKey);
    assert '\0' !in text by {
      assert forall i :: 0 <= i < |text| ==> text[i] != '\0';
    }
    Utf8.EncodeHasZero(text);
    FieldsAfterSeparator(k, Message(segs[1..]));
    FieldsAfterSeparator(t, Message(segs[2..]));
    Utf8.DecodeEncode(text);
    Decimal.ParseNumberToString(time);
  }
}
