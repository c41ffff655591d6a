/** Paddle webhook signature check (app/utils/signature.py). The header has
    the form "ts=<unix seconds>;h1=<hex digest>"; the digest is an HMAC-SHA256
    (RFC 2104 over the SHA-256 of FIPS 180-4) keyed by the webhook secret
    over "<ts>:<body>". The HMAC, the byte decoding of the body and the wall
    clock are parameters of the model. */
module Signature {
  import opened Python
  import opened PyStr

  /** `hmac.new(key, msg, sha256).hexdigest()` on the UTF-8 encodings. */
  type HexHmac = (string, string) -> string

  /** `body.decode('utf-8', errors='ignore')`. */
  type Decoder = seq<bv8> -> string

  predicate Lacks(s: string, c: char) {
    forall k :: 0 <= k < |s| ==> s[k] != c
  }

  /** `part.split('=')[1]`: the text between the first and the second '='. */
  function SecondField(part: string): (r: Result<string>)
    ensures r.Err? <==> !Contains(part, "=")
    ensures r.Err? ==> r.error == IndexError
    ensures r.Ok? ==> !Contains(r.value, "=")
  {
    var pieces := SplitOn(part, "=");
    if |pieces| < 2 then
      SplitOnLength(part, "=");
      Err(IndexError)
    else
      SplitOnLength(part, "=");
      Ok(pieces[1])
  }

  /** A split has a second piece exactly when the separator occurs. */
  lemma SplitOnLength(s: string, sep: string)
    requires sep != []
    ensures |SplitOn(s, sep)| >= 2 <==> Contains(s, sep)
  {
    if Find(s, sep) >= 0 {
      SplitOnStep(s, sep);
    }
  }

  /** `ts` and `h1` as lines 23-26 take them: the second '='-field of the
      first and of the second ';'-part of the header. A header without a
      second part, or a part without '=', raises IndexError. */
  function SignatureFields(header: string): (r: Result<(string, string)>)
    ensures r.Ok? <==> (|SplitOn(header, ";")| >= 2
      && Contains(SplitOn(header, ";")[0], "=") && Contains(SplitOn(header, ";")[1], "="))
    ensures r.Ok? ==> r.value == (SecondField(SplitOn(header, ";")[0]).value,
                                  SecondField(SplitOn(header, ";")[1]).value)
    ensures r.Err? ==> r.error == IndexError
    ensures r.Ok? ==> !Contains(r.value.0, "=") && !Contains(r.value.1, "=")
    ensures !Contains(header, ";") ==> r.Err?
  {
    var x := SplitOn(header, ";");
    var ts := SecondField(x[0]);
    if ts.Err? then Err(ts.error)
    else if |x| < 2 then
      SplitOnLength(header, ";");
      Err(IndexError)
    else
      var h1 := SecondField(x[1]);
      if h1.Err? then Err(h1.error)
      else Ok((ts.value, h1.value))
  }

  /** `abs(time.time() - int(ts)) > 5`. */
  predicate Stale(now: real, ts: int) {
    now - ts as real > 5.0 || ts as real - now > 5.0
  }

  /** `verify_paddle_signature(headers, body)` with the header value, the
      `WEBHOOK_SECRET` environment value and the clock as parameters. */
  function VerifyPaddleSignature(signatureHeader: Option<string>, webhookSecret: Option<string>,
                                 body: seq<bv8>, now: real, decode: Decoder, hexHmac: HexHmac): (r: Result<bool>)
    ensures signatureHeader.None? || signatureHeader == Some([]) ==> r == Ok(false)
    ensures webhookSecret.None? || webhookSecret == Some([]) ==> r == Ok(false)
    ensures r.Err? ==> r.error == IndexError || r.error == ValueError
  {
    if signatureHeader.None? || signatureHeader.value == [] then Ok(false)
    else if webhookSecret.None? || webhookSecret.value == [] then Ok(false)
    else
      var fields := SignatureFields(signatureHeader.value);
      if fields.Err? then Err(fields.error)
      else
        var (ts, h1) := fields.value;
        var t := ParseInt(ts);
        if t.None? then Err(ValueError)
        else if Stale(now, t.value) then Ok(false)
        else
          var signedPayload := ts + ":" + decode(body);
          Ok(h1 == hexHmac(webhookSecret.value, signedPayload))
  }

  /** Accepted means: both values present, the header well formed, the
      timestamp within five seconds of now, and h1 equal to the digest of
      "<ts>:<body>" under the secret. */
  lemma AcceptedOnlyWithMatchingDigest(signatureHeader: Option<string>, webhookSecret: Option<string>,
                                      body: seq<bv8>, now: real, decode: Decoder, hexHmac: HexHmac)
    requires VerifyPaddleSignature(signatureHeader, webhookSecret, body, now, decode, hexHmac) == Ok(true)
    ensures signatureHeader.Some? && signatureHeader.value != []
    ensures webhookSecret.Some? && webhookSecret.value != []
    ensures var fields := SignatureFields(signatureHeader.value);
      fields.Ok? && ParseInt(fields.value.0).Some?
      && !Stale(now, ParseInt(fields.value.0).value)
      && fields.value.1 == hexHmac(webhookSecret.value, fields.value.0 + ":" + decode(body))
  {
  }

  /** A stale timestamp is refused before any digest is computed: the
      answer is False whatever h1 is and whatever the HMAC would give. */
  lemma StaleIsRefused(signatureHeader: string, webhookSecret: string, body: seq<bv8>, now: real,
                       decode: Decoder, hmacA: HexHmac, hmacB: HexHmac)
    requires signatureHeader != [] && webhookSecret != []
    requires SignatureFields(signatureHeader).Ok?
    requires var ts := ParseInt(SignatureFields(signatureHeader).value.0); ts.Some? && Stale(now, ts.value)
    ensures VerifyPaddleSignature(Some(signatureHeader), Some(webhookSecret), body, now, decode, hmacA) == Ok(false)
    ensures VerifyPaddleSignature(Some(signatureHeader), Some(webhookSecret), body, now, decode, hmacA)
         == VerifyPaddleSignature(Some(signatureHeader), Some(webhookSecret), body, now, decode, hmacB)
  {
  }

  /** Cutting at the first occurrence of a character that the prefix lacks. */
  lemma SplitAtChar(a: string, c: char, b: string)
    requires Lacks(a, c)
    ensures SplitOn(a + [c] + b, [c]) == [a] + SplitOn(b, [c])
  {
    FindAfterPrefix(a, [c], b);
    var s := a + [c] + b;
    SplitOnStep(s, [c]);
    assert s[..|a|] == a;
    assert s[|a| + 1..] == b;
  }

  /** A string without the character splits into itself. */
  lemma SplitWithoutChar(s: string, c: char)
    requires Lacks(s, c)
    ensures SplitOn(s, [c]) == [s]
  {
    FindMissingChar(s, [c], 0);
    SplitOnAbsent(s, [c]);
  }

  /** "key=value" with neither part holding '=' yields value. */
  lemma SecondFieldOf(key: string, value: string)
    requires Lacks(key, '=') && Lacks(value, '=')
    ensures SecondField(key + "=" + value) == Ok(value)
  {
    SplitAtChar(key, '=', value);
    SplitWithoutChar(value, '=');
  }

  /** Concatenation keeps a character out. */
  lemma LacksConcat(a: string, b: string, c: char)
    requires Lacks(a, c) && Lacks(b, c)
    ensures Lacks(a + b, c)
  {
  }

  /** A header "k1=ts;k2=h1" whose parts hold neither ';' nor '=' parses
      back into (ts, h1); the key names are not looked at. */
  lemma SignatureFieldsOf(k1: string, ts: string, k2: string, h1: string)
    requires Lacks(k1, '=') && Lacks(ts, '=') && Lacks(k2, '=') && Lacks(h1, '=')
    requires Lacks(k1, ';') && Lacks(ts, ';') && Lacks(k2, ';') && Lacks(h1, ';')
    ensures SignatureFields(k1 + "=" + ts + ";" + k2 + "=" + h1) == Ok((ts, h1))
  {
    var first := k1 + "=" + ts;
    var second := k2 + "=" + h1;
    assert k1 + "=" + ts + ";" + k2 + "=" + h1 == first + [';'] + second;
    LacksConcat(k1 + "=", ts, ';');
    SplitAtChar(first, ';', second);
    LacksConcat(k2 + "=", h1, ';');
    SplitWithoutChar(second, ';');
    SecondFieldOf(k1, ts);
    SecondFieldOf(k2, h1);
  }

  /** The header Paddle sends: "ts=<seconds>;h1=<digest>". */
  function PaddleHeader(ts: nat, h1: string): string {
    "ts" + "=" + Decimal(ts) + ";" + "h1" + "=" + h1
  }

  /** A well-formed header with a fresh timestamp leads to the digest
      comparison. */
  lemma FreshFieldsCompareDigest(signatureHeader: string, webhookSecret: string, body: seq<bv8>, now: real,
                                 decode: Decoder, hexHmac: HexHmac, ts: string, h1: string, t: int)
    requires signatureHeader != [] && webhookSecret != []
    requires SignatureFields(signatureHeader) == Ok((ts, h1))
    requires ParseInt(ts) == Some(t) && !Stale(now, t)
    ensures VerifyPaddleSignature(Some(signatureHeader), Some(webhookSecret), body, now, decode, hexHmac)
         == Ok(h1 == hexHmac(webhookSecret, ts + ":" + decode(body)))
  {
  }

  /** A header built from a timestamp and a digest within five seconds of
      now is accepted exactly when the digest is the HMAC of "<ts>:<body>",
      boundary included: a difference of exactly five seconds passes. */
  lemma FreshHeaderChecksDigest(ts: nat, h1: string, webhookSecret: string, body: seq<bv8>, now: real,
                                decode: Decoder, hexHmac: HexHmac)
    requires Lacks(h1, '=') && Lacks(h1, ';') && webhookSecret != []
    requires ts as real - 5.0 <= now <= ts as real + 5.0
    ensures VerifyPaddleSignature(Some(PaddleHeader(ts, h1)), Some(webhookSecret), body, now, decode, hexHmac)
         == Ok(h1 == hexHmac(webhookSecret, Decimal(ts) + ":" + decode(body)))
  {
    SignatureFieldsOf("ts", Decimal(ts), "h1", h1);
    ParseIntOfDecimal(ts);
    FreshFieldsCompareDigest(PaddleHeader(ts, h1), webhookSecret, body, now, decode, hexHmac, Decimal(ts), h1, ts);
  }

  /** So a sender who signs with the shared secret is accepted. */
  lemma GenuineSignatureAccepted(ts: nat, webhookSecret: string, body: seq<bv8>, now: real,
                                 decode: Decoder, hexHmac: HexHmac)
    requires webhookSecret != []
    requires var h1 := hexHmac(webhookSecret, Decimal(ts) + ":" + decode(body)); Lacks(h1, '=') && Lacks(h1, ';')
    requires ts as real - 5.0 <= now <= ts as real + 5.0
    ensures var h1 := hexHmac(webhookSecret, Decimal(ts) + ":" + decode(body));
      VerifyPaddleSignature(Some(PaddleHeader(ts, h1)), Some(webhookSecret), body, now, decode, hexHmac) == Ok(true)
  {
    var h1 := hexHmac(webhookSecret, Decimal(ts) + ":" + decode(body));
    FreshHeaderChecksDigest(ts, h1, webhookSecret, body, now, decode, hexHmac);
  }

  /** A header with no ';' raises IndexError instead of returning False. */
  lemma HeaderWithoutSemicolonRaises(signatureHeader: string, webhookSecret: string, body: seq<bv8>,
                                     now: real, decode: Decoder, hexHmac: HexHmac)
    requires signatureHeader != [] && webhookSecret != [] && !Contains(signatureHeader, ";")
    ensures VerifyPaddleSignature(Some(signatureHeader), Some(webhookSecret), body, now, decode, hexHmac) == Err(IndexError)
  {
  }

  /** Given both values, IndexError is raised exactly for a malformed
      header: fewer than two ';'-parts, or a first or second part without
      '='. A well-formed header never raises it. */
  lemma IndexErrorIffMalformedHeader(signatureHeader: string, webhookSecret: string, body: seq<bv8>,
                                     now: real, decode: Decoder, hexHmac: HexHmac)
    requires signatureHeader != [] && webhookSecret != []
    ensures var parts := SplitOn(signatureHeader, ";");
      VerifyPaddleSignature(Some(signatureHeader), Some(webhookSecret), body, now, decode, hexHmac) == Err(IndexError)
      <==> !(|parts| >= 2 && Contains(parts[0], "=") && Contains(parts[1], "="))
  {
  }

  /** A timestamp that is not an integer literal raises ValueError. */
  lemma MalformedTimestampRaises(k1: string, ts: string, k2: string, h1: string, webhookSecret: string,
                                 body: seq<bv8>, now: real, decode: Decoder, hexHmac: HexHmac)
    requires Lacks(k1, '=') && Lacks(ts, '=') && Lacks(k2, '=') && Lacks(h1, '=')
    requires Lacks(k1, ';') && Lacks(ts, ';') && Lacks(k2, ';') && Lacks(h1, ';')
    requires webhookSecret != [] && ParseInt(ts).None?
    ensures VerifyPaddleSignature(Some(k1 + "=" + ts + ";" + k2 + "=" + h1), Some(webhookSecret), body, now, decode, hexHmac)
         == Err(ValueError)
  {
    SignatureFieldsOf(k1, ts, k2, h1);
  }
}
