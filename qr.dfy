/**
 * The attendance QR payload: a session id, the generation time in
 * milliseconds and an HMAC-SHA256 of `"<sessionId>:<timestamp>"` under a
 * fixed key. The clock (`Date.now()`), the HMAC and the JSON codec are
 * parameters; everything the helpers decide on top of them is modelled.
 */
module Qr {
  import opened Wrappers
  import Helpers

  /** The signing key, hard-coded in the client. */
  const SECRET_KEY: string := "attendify-secret-key"

  /** How long a code stays valid: 24 hours in milliseconds. */
  const VALIDITY_MS: int := 24 * 60 * 60 * 1000

  /** `HmacSHA256(data, key).toString()`: any function from message and key to a digest. */
  type Hmac = (string, string) -> string

  datatype QrData = QrData(sessionId: string, timestamp: int, hash: string)

  /** The signed message: the template `${sessionId}:${timestamp}`. */
  function SignedMessage(sessionId: string, timestamp: int): string
  {
    sessionId + ":" + Helpers.IntToString(timestamp)
  }

  /** The digest the helpers compute for a session id and a timestamp. */
  function Sign(sessionId: string, timestamp: int, hmac: Hmac): string
  {
    hmac(SignedMessage(sessionId, timestamp), SECRET_KEY)
  }

  /** `generateQrData(sessionId)` at clock reading `now`. */
  function GenerateQrData(sessionId: string, now: int, hmac: Hmac): (q: QrData)
    ensures q.sessionId == sessionId && q.timestamp == now
    ensures q.hash == Sign(sessionId, now, hmac)
  {
    QrData(sessionId, now, Sign(sessionId, now, hmac))
  }

  /** `validateQrData(qrData)` at clock reading `now`. */
  predicate ValidateQrData(q: QrData, now: int, hmac: Hmac)
  {
    q.hash == Sign(q.sessionId, q.timestamp, hmac) && now - q.timestamp < VALIDITY_MS
  }

  /** A freshly generated code validates exactly while less than 24 hours have passed. */
  lemma GeneratedValidUntilExpiry(sessionId: string, t: int, now: int, hmac: Hmac)
    ensures ValidateQrData(GenerateQrData(sessionId, t, hmac), now, hmac) <==> now - t < VALIDITY_MS
  {
  }

  /** A code at least 24 hours old is rejected whatever its hash. */
  lemma ExpiredRejected(q: QrData, now: int, hmac: Hmac)
    requires now - q.timestamp >= VALIDITY_MS
    ensures !ValidateQrData(q, now, hmac)
  {
  }

  /** A code whose hash is not the digest of its own session id and timestamp is rejected. */
  lemma ForgedHashRejected(q: QrData, now: int, hmac: Hmac)
    requires q.hash != Sign(q.sessionId, q.timestamp, hmac)
    ensures !ValidateQrData(q, now, hmac)
  {
  }

  /** The freshness test has no lower bound: a correctly signed code from the future is accepted. */
  lemma FutureTimestampAccepted(q: QrData, now: int, hmac: Hmac)
    requires q.hash == Sign(q.sessionId, q.timestamp, hmac) && q.timestamp > now
    ensures ValidateQrData(q, now, hmac)
  {
  }

  /**
   * The signed message determines the session id and the timestamp: the
   * timestamp's digits hold no ':', so the last ':' separates the two.
   */
  lemma SignedMessageInjective(a: string, t: int, b: string, u: int)
    requires SignedMessage(a, t) == SignedMessage(b, u)
    ensures a == b && t == u
  {
    var x, y := SignedMessage(a, t), SignedMessage(b, u);
    var st, su := Helpers.IntToString(t), Helpers.IntToString(u);
    // Each side puts its only ':' after the identifier at the same place from the end.
    assert x[|x| - |st| - 1] == ':' && y[|y| - |su| - 1] == ':';
    assert forall i :: |a| + 1 <= i < |x| ==> x[i] == st[i - |a| - 1];
    assert forall i :: |b| + 1 <= i < |y| ==> y[i] == su[i - |b| - 1];
    assert |st| == |su|;
    assert |a| == |b|;
    assert a == x[..|a|] == y[..|b|] == b;
    assert st == x[|a| + 1..] == y[|b| + 1..] == su;
    Helpers.IntToStringInjective(t, u);
  }

  /**
   * Moving a valid signature onto another session or another time needs an
   * HMAC collision: two different messages with the same digest.
   */
  lemma TransplantNeedsCollision(q: QrData, sessionId: string, t: int, now: int, hmac: Hmac)
    requires q == GenerateQrData(q.sessionId, q.timestamp, hmac)
    requires (sessionId, t) != (q.sessionId, q.timestamp)
    requires ValidateQrData(QrData(sessionId, t, q.hash), now, hmac)
    ensures SignedMessage(sessionId, t) != SignedMessage(q.sessionId, q.timestamp)
    ensures hmac(SignedMessage(sessionId, t), SECRET_KEY) == hmac(SignedMessage(q.sessionId, q.timestamp), SECRET_KEY)
  {
    if SignedMessage(sessionId, t) == SignedMessage(q.sessionId, q.timestamp) {
      SignedMessageInjective(sessionId, t, q.sessionId, q.timestamp);
    }
  }

  // ---------------------------------------------------------------------
  // The JSON form
  // ---------------------------------------------------------------------

  /** JSON values, numbers restricted to integers. */
  datatype Json =
    | JNull
    | JBool(b: bool)
    | JNumber(n: int)
    | JString(s: string)
    | JArray(items: seq<Json>)
    | JObject(fields: map<string, Json>)

  /** JavaScript truthiness of a parsed JSON value. */
  predicate Truthy(j: Json)
  {
    match j
    case JNull => false
    case JBool(b) => b
    case JNumber(n) => n != 0
    case JString(s) => s != ""
    case _ => true
  }

  /** `parsed.<name>` is truthy: a missing property (`undefined`) and a non-object value read as falsy. */
  predicate FieldTruthy(j: Json, name: string)
  {
    j.JObject? && name in j.fields && Truthy(j.fields[name])
  }

  /** The guard of `parseQrData`: all three properties truthy. */
  predicate HasQrFields(j: Json)
  {
    FieldTruthy(j, "sessionId") && FieldTruthy(j, "timestamp") && FieldTruthy(j, "hash")
  }

  /** `JSON.parse`: `None` when it throws. */
  type JsonParse = string -> Option<Json>

  /** `JSON.stringify`. */
  type JsonStringify = Json -> string

  /**
   * `parseQrData(qrString)`: the parsed value itself when the guard holds,
   * otherwise `null`. The cast to `QrData` checks nothing beyond truthiness.
   */
  function ParseQrData(qrString: string, parse: JsonParse): Option<Json>
  {
    match parse(qrString)
    case None => None
    case Some(j) => if HasQrFields(j) then Some(j) else None
  }

  /** The object `stringifyQrData` serializes. */
  function ToJson(q: QrData): Json
  {
    JObject(map["sessionId" := JString(q.sessionId), "timestamp" := JNumber(q.timestamp), "hash" := JString(q.hash)])
  }

  /** `stringifyQrData(qrData)`. */
  function StringifyQrData(q: QrData, stringify: JsonStringify): string
  {
    stringify(ToJson(q))
  }

  /** Reads a parsed object back as `QrData` when its three properties have the intended types. */
  function FromJson(j: Json): Option<QrData>
  {
    if j.JObject? && "sessionId" in j.fields && "timestamp" in j.fields && "hash" in j.fields
       && j.fields["sessionId"].JString? && j.fields["timestamp"].JNumber? && j.fields["hash"].JString?
    then Some(QrData(j.fields["sessionId"].s, j.fields["timestamp"].n, j.fields["hash"].s))
    else None
  }

  /** `parseQrData` returns a value exactly when JSON parsing succeeds and the guard holds, and then the parsed value unchanged. */
  lemma ParseQrDataAccepts(qrString: string, parse: JsonParse)
    ensures ParseQrData(qrString, parse).Some? <==> parse(qrString).Some? && HasQrFields(parse(qrString).value)
    ensures ParseQrData(qrString, parse).Some? ==> ParseQrData(qrString, parse) == parse(qrString)
  {
  }

  /**
   * The guard rejects codes that the generator can emit: an empty session
   * id or a zero timestamp (the epoch itself) is falsy.
   */
  lemma FalsyFieldsRejected(q: QrData, parse: JsonParse, stringify: JsonStringify)
    requires parse(StringifyQrData(q, stringify)) == Some(ToJson(q))
    requires q.sessionId == "" || q.timestamp == 0 || q.hash == ""
    ensures ParseQrData(StringifyQrData(q, stringify), parse) == None
  {
  }

  /**
   * Round trip: with a JSON codec that reads back what it writes, a payload
   * with a non-empty id and hash and a non-zero timestamp survives
   * `stringifyQrData` then `parseQrData` and reads back as itself.
   */
  lemma StringifyParseRoundTrip(q: QrData, parse: JsonParse, stringify: JsonStringify)
    requires parse(StringifyQrData(q, stringify)) == Some(ToJson(q))
    requires q.sessionId != "" && q.timestamp != 0 && q.hash != ""
    ensures ParseQrData(StringifyQrData(q, stringify), parse) == Some(ToJson(q))
    ensures FromJson(ToJson(q)) == Some(q)
  {
  }

  /**
   * End to end, as the scanner does it: a code generated at `t` and scanned
   * at `now` is accepted exactly while less than 24 hours have passed,
   * provided the id and digest are non-empty and `t` is not the epoch.
   */
  lemma ScanGeneratedCode(sessionId: string, t: int, now: int, hmac: Hmac, parse: JsonParse, stringify: JsonStringify)
    requires sessionId != "" && t != 0 && Sign(sessionId, t, hmac) != ""
    requires parse(StringifyQrData(GenerateQrData(sessionId, t, hmac), stringify)) == Some(ToJson(GenerateQrData(sessionId, t, hmac)))
    ensures var scanned := ParseQrData(StringifyQrData(GenerateQrData(sessionId, t, hmac), stringify), parse);
            scanned.Some? && FromJson(scanned.value).Some?
            && (ValidateQrData(FromJson(scanned.value).value, now, hmac) <==> now - t < VALIDITY_MS)
  {
    StringifyParseRoundTrip(GenerateQrData(sessionId, t, hmac), parse, stringify);
  }
}
