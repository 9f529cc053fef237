/** Compact tokens (section 7.1 of RFC 7515) and the two decoders of their payload
(auth/jwt.go, util/jwt.go).

JSON, HMAC and the fixed JOSE header are parameters: all that is assumed of them is that decoding an
encoded payload gives it back and that the header decodes.
 */
module Jwt {
  import opened Records
  import opened Base64Url

  datatype Payload = Payload(name: string, perm: string, extra: string)

  datatype Codec = Codec(
    header: seq<Byte>,                          // the JSON of {"alg":"HS256","typ":"JWT"}
    headerOk: seq<Byte> -> bool,                // does json.Unmarshal take it for a JOSE header?
    encode: Payload -> seq<Byte>,               // json.Marshal
    decode: seq<Byte> -> Option<Payload>,       // json.Unmarshal, None for an error
    mac: (string, string) -> seq<Byte>)         // HMAC-SHA256 of a signing input under a secret
  {
    ghost predicate Valid() { headerOk(header) && forall p :: decode(encode(p)) == Some(p) }
  }

  // ---------- splitting at dots ----------

  // strings.Split(s, ".")
  function Split(s: string): (parts: seq<string>)
    ensures |parts| >= 1
  {
    if s == "" then [""]
    else
      var rest := Split(s[1..]);
      if s[0] == '.' then [""] + rest else [[s[0]] + rest[0]] + rest[1..]
  }

  lemma {:induction false} SplitDotFree(a: string)
    requires '.' !in a
    ensures Split(a) == [a]
  {
    if a != "" {
      SplitDotFree(a[1..]);
      assert a == [a[0]] + a[1..];
    }
  }

  lemma {:induction false} SplitFirst(a: string, rest: string)
    requires '.' !in a
    ensures Split(a + "." + rest) == [a] + Split(rest)
  {
    var s := a + "." + rest;
    if a == "" {
      assert s[1..] == rest;
    } else {
      SplitFirst(a[1..], rest);
      assert s[1..] == a[1..] + "." + rest;
      assert a == [a[0]] + a[1..];
    }
  }

  // ---------- signing and verifying ----------

  function SigningInput(c: Codec, p: Payload): string { Encode(c.header) + "." + Encode(c.encode(p)) }

  // jwt.Sign(pl, jwt.NewHS256(secret))
  function Sign(c: Codec, p: Payload, secret: string): string
  {
    SigningInput(c, p) + "." + Encode(c.mac(SigningInput(c, p), secret))
  }

  // The checks of jwt.Verify: three parts, the first one a JOSE header, the last one the MAC of the
  // first two.
  predicate SignatureHolds(c: Codec, token: string, secret: string)
  {
    var parts := Split(token);
    && |parts| == 3
    && DecodeToBytes(parts[0]).Some? && c.headerOk(DecodeToBytes(parts[0]).value)
    && DecodeToBytes(parts[2]) == Some(c.mac(parts[0] + "." + parts[1], secret))
  }

  // ---------- the two decoders ----------

  // DecodeToken, and the name JwtUserFromToken takes from it
  function DecodeToken(c: Codec, token: string): Option<Payload>
  {
    var parts := Split(token);
    if |parts| < 2 then None
    else
      var dec := DecodeToBytes(parts[1]);
      if dec.None? then None else c.decode(dec.value)
  }

  datatype MapResult = Panic | Error | Fields(payload: Payload)

  // util.JWTPayloadMap indexes the second part without counting the parts.
  function JWTPayloadMap(c: Codec, token: string): MapResult
  {
    var parts := Split(token);
    if |parts| < 2 then Panic
    else
      var dec := DecodeToBytes(parts[1]);
      if dec.None? then Error
      else
        var fields := c.decode(dec.value);
        if fields.None? then Error else Fields(fields.value)
  }

  lemma SignParts(c: Codec, p: Payload, secret: string)
    ensures Split(Sign(c, p, secret)) ==
            [Encode(c.header), Encode(c.encode(p)), Encode(c.mac(SigningInput(c, p), secret))]
  {
    var h, b, m := Encode(c.header), Encode(c.encode(p)), Encode(c.mac(SigningInput(c, p), secret));
    EncodedText(c.header);
    EncodedText(c.encode(p));
    EncodedText(c.mac(SigningInput(c, p), secret));
    hide Encode;
    assert Sign(c, p, secret) == h + "." + (b + "." + m);
    SplitFirst(h, b + "." + m);
    SplitFirst(b, m);
    SplitDotFree(m);
  }

  // A signed token decodes, in both decoders, to the payload it was signed from, and its signature
  // holds under the secret it was signed with.
  lemma SignDecodes(c: Codec, p: Payload, secret: string)
    requires c.Valid()
    ensures DecodeToken(c, Sign(c, p, secret)) == Some(p)
    ensures JWTPayloadMap(c, Sign(c, p, secret)) == Fields(p)
    ensures SignatureHolds(c, Sign(c, p, secret), secret)
  {
    SignParts(c, p, secret);
    DecodeEncode(c.header);
    DecodeEncode(c.encode(p));
    DecodeEncode(c.mac(SigningInput(c, p), secret));
  }

  // On any text: the decoders agree, except that the second one panics where the first reports an
  // error, exactly when the text has no dot.
  lemma DecodersAgree(c: Codec, token: string)
    ensures JWTPayloadMap(c, token).Panic? <==> '.' !in token
    ensures '.' !in token ==> DecodeToken(c, token).None?
    ensures forall p :: JWTPayloadMap(c, token) == Fields(p) <==> DecodeToken(c, token) == Some(p)
  {
    PartsCountDots(token);
  }

  lemma {:induction false} PartsCountDots(s: string)
    ensures |Split(s)| == 1 <==> '.' !in s
  {
    if s != "" { PartsCountDots(s[1..]); }
  }

  // ---------- what makes up a token ----------

  function Join(parts: seq<string>): string
    requires |parts| >= 1
  {
    if |parts| == 1 then parts[0] else parts[0] + "." + Join(parts[1..])
  }

  // Splitting cuts at every dot and nowhere else.
  lemma {:induction false} SplitJoins(s: string)
    ensures Join(Split(s)) == s && forall part | part in Split(s) :: '.' !in part
  {
    if s != "" {
      SplitJoins(s[1..]);
      var rest := Split(s[1..]);
      if s[0] == '.' {
        assert ([""] + rest)[1..] == rest;
        assert Join([""] + rest) == "" + "." + s[1..] == s;
      } else {
        var parts := [[s[0]] + rest[0]] + rest[1..];
        assert parts[1..] == rest[1..];
        assert Join(parts) == [s[0]] + Join(rest);
      }
    }
  }

  // The second part is decoded, whatever stands around it.
  lemma DecodesSecondPart(c: Codec, h: string, b: string, rest: string)
    requires '.' !in h && '.' !in b
    ensures var bytes := DecodeToBytes(b);
      var payload := if bytes.None? then None else c.decode(bytes.value);
      DecodeToken(c, h + "." + b) == payload && DecodeToken(c, h + "." + b + "." + rest) == payload
  {
    SplitFirst(h, b);
    SplitDotFree(b);
    assert h + "." + b + "." + rest == h + "." + (b + "." + rest);
    SplitFirst(h, b + "." + rest);
    SplitFirst(b, rest);
    hide DecodeToBytes;
  }

  // A text has a valid signature exactly when it is made of a header, a payload and the code of those
  // two under the secret; nothing else about it counts.
  lemma SignatureExact(c: Codec, h: string, b: string, m: string, secret: string)
    requires '.' !in h && '.' !in b && '.' !in m
    ensures SignatureHolds(c, h + "." + b + "." + m, secret) <==>
      && DecodeToBytes(h).Some? && c.headerOk(DecodeToBytes(h).value)
      && DecodeToBytes(m) == Some(c.mac(h + "." + b, secret))
  {
    assert h + "." + b + "." + m == h + "." + (b + "." + m);
    SplitFirst(h, b + "." + m);
    SplitFirst(b, m);
    SplitDotFree(m);
    hide DecodeToBytes;
  }

  lemma SignatureParts(c: Codec, token: string, secret: string) returns (h: string, b: string, m: string)
    requires SignatureHolds(c, token, secret)
    ensures token == h + "." + b + "." + m && '.' !in h && '.' !in b && '.' !in m
  {
    SplitJoins(token);
    var parts := Split(token);
    h, b, m := parts[0], parts[1], parts[2];
    assert parts[1..][1..] == [m] && parts[1..] == [b, m];
    assert Join([b, m]) == b + "." + Join([m]) by { assert [b, m][1..] == [m]; }
  }

  // A token verifies under another secret only if that gives the same code.
  lemma OtherSecret(c: Codec, p: Payload, secret: string, other: string)
    requires c.Valid()
    ensures SignatureHolds(c, Sign(c, p, secret), other) <==>
            c.mac(SigningInput(c, p), other) == c.mac(SigningInput(c, p), secret)
  {
    SignParts(c, p, secret);
    DecodeEncode(c.header);
    DecodeEncode(c.mac(SigningInput(c, p), secret));
    hide DecodeToBytes, Encode;
  }
}
