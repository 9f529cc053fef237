/** Unpadded base64url (section 5 of RFC 4648), as encoding/base64 reads it, and DecodeToBytes
(auth/jwt.go, util/jwt.go).

The decoder skips carriage returns and line feeds, and DecodeToBytes returns a buffer sized before
decoding, so skipped characters leave zero bytes at its end.
 */
module Base64Url {
  import opened Records

  type Byte = b: int | 0 <= b < 256
  type Sextet = x: int | 0 <= x < 64

  function EncodeChar(x: Sextet): char
  {
    if x < 26 then 'A' + x as char
    else if x < 52 then 'a' + (x - 26) as char
    else if x < 62 then '0' + (x - 52) as char
    else if x == 62 then '-' else '_'
  }

  function DecodeChar(c: char): Option<Sextet>
  {
    if 'A' <= c <= 'Z' then Some(c as int - 'A' as int)
    else if 'a' <= c <= 'z' then Some(26 + c as int - 'a' as int)
    else if '0' <= c <= '9' then Some(52 + c as int - '0' as int)
    else if c == '-' then Some(62)
    else if c == '_' then Some(63)
    else None
  }

  predicate Skipped(c: char) { c == '\r' || c == '\n' }

  lemma CharRoundTrip(x: Sextet)
    ensures DecodeChar(EncodeChar(x)) == Some(x) && !Skipped(EncodeChar(x)) && EncodeChar(x) != '.'
  {
  }

  // ---------- encoding ----------

  // The four sextets of three bytes, and the three bytes of four sextets.
  function S1(a: Byte): Sextet { a / 4 }
  function S2(a: Byte, b: Byte): Sextet { a % 4 * 16 + b / 16 }
  function S3(b: Byte, c: Byte): Sextet { b % 16 * 4 + c / 64 }
  function S4(c: Byte): Sextet { c % 64 }
  function B1(w: Sextet, x: Sextet): Byte { w * 4 + x / 16 }
  function B2(x: Sextet, y: Sextet): Byte { x % 16 * 16 + y / 4 }
  function B3(y: Sextet, z: Sextet): Byte { y % 4 * 64 + z }

  lemma QuantumRoundTrip(a: Byte, b: Byte, c: Byte)
    ensures B1(S1(a), S2(a, b)) == a && B2(S2(a, b), S3(b, c)) == b && B3(S3(b, c), S4(c)) == c
  {
  }

  function Encode(b: seq<Byte>): string
  {
    if |b| == 0 then ""
    else if |b| == 1 then [EncodeChar(S1(b[0])), EncodeChar(S2(b[0], 0))]
    else if |b| == 2 then [EncodeChar(S1(b[0])), EncodeChar(S2(b[0], b[1])), EncodeChar(S3(b[1], 0))]
    else
      [EncodeChar(S1(b[0])), EncodeChar(S2(b[0], b[1])), EncodeChar(S3(b[1], b[2])), EncodeChar(S4(b[2]))]
      + Encode(b[3..])
  }

  // ---------- decoding ----------

  function Strip(s: string): string
  {
    if s == [] then "" else if Skipped(s[0]) then Strip(s[1..]) else [s[0]] + Strip(s[1..])
  }

  // Whole quanta of four characters, then a rest of two or three; one left over is an error.
  function Quanta(s: string): Option<seq<Byte>>
  {
    if |s| == 0 then Some([])
    else if |s| == 1 then None
    else
      var w, x := DecodeChar(s[0]), DecodeChar(s[1]);
      if w.None? || x.None? then None
      else
        var first := B1(w.value, x.value);
        if |s| == 2 then Some([first])
        else
          var y := DecodeChar(s[2]);
          if y.None? then None
          else
            var second := B2(x.value, y.value);
            if |s| == 3 then Some([first, second])
            else
              var z := DecodeChar(s[3]);
              if z.None? then None
              else
                var third := B3(y.value, z.value);
                var rest := Quanta(s[4..]);
                if rest.None? then None else Some([first, second, third] + rest.value)
  }

  function DecodedLen(n: nat): nat { n * 6 / 8 }

  function Zeros(n: nat): seq<Byte> { seq(n, _ => 0) }

  // The buffer has DecodedLen(|enc|) bytes; what decoding does not fill stays zero.
  function DecodeToBytes(enc: string): Option<seq<Byte>>
  {
    StripShorter(enc);
    var dec := Quanta(Strip(enc));
    if dec.None? then None
    else
      QuantaLength(Strip(enc));
      Some(dec.value + Zeros(DecodedLen(|enc|) - |dec.value|))
  }

  lemma {:induction false} StripShorter(s: string)
    ensures |Strip(s)| <= |s| && DecodedLen(|Strip(s)|) <= DecodedLen(|s|)
    ensures |Strip(s)| == |s| ==> Strip(s) == s
  {
    if s != [] { StripShorter(s[1..]); }
  }

  lemma {:induction false} QuantaLength(s: string)
    ensures Quanta(s).Some? ==> |Quanta(s).value| == DecodedLen(|s|)
  {
    if |s| >= 4 { QuantaLength(s[4..]); }
  }

  // ---------- the round trip ----------

  lemma {:induction false} EncodedText(b: seq<Byte>)
    ensures forall c | c in Encode(b) :: !Skipped(c) && c != '.'
    ensures DecodedLen(|Encode(b)|) == |b|
  {
    hide EncodeChar, DecodeChar, S1, S2, S3, S4;
    forall x: Sextet ensures DecodeChar(EncodeChar(x)) == Some(x) && !Skipped(EncodeChar(x)) && EncodeChar(x) != '.' {
      CharRoundTrip(x);
    }
    if |b| >= 3 { EncodedText(b[3..]); }
  }

  lemma {:induction false} NothingToStrip(s: string)
    requires forall c | c in s :: !Skipped(c)
    ensures Strip(s) == s
  {
    if s != [] { NothingToStrip(s[1..]); }
  }

  lemma {:induction false} QuantaRoundTrip(b: seq<Byte>)
    ensures Quanta(Encode(b)) == Some(b)
  {
    hide EncodeChar, DecodeChar, S1, S2, S3, S4, B1, B2, B3;
    forall x: Sextet ensures DecodeChar(EncodeChar(x)) == Some(x) { CharRoundTrip(x); }
    if |b| == 1 {
      QuantumRoundTrip(b[0], 0, 0);
      assert b == [b[0]];
    } else if |b| == 2 {
      QuantumRoundTrip(b[0], b[1], 0);
      assert b == [b[0], b[1]];
    } else if |b| >= 3 {
      QuantumRoundTrip(b[0], b[1], b[2]);
      QuantaRoundTrip(b[3..]);
      assert Encode(b)[4..] == Encode(b[3..]);
      assert b == [b[0], b[1], b[2]] + b[3..];
    }
  }

  // Decoding an encoded byte string gives it back, with no byte added.
  lemma DecodeEncode(b: seq<Byte>)
    ensures DecodeToBytes(Encode(b)) == Some(b)
  {
    EncodedText(b);
    NothingToStrip(Encode(b));
    QuantaRoundTrip(b);
    hide Encode, Quanta, Strip;
    assert b + Zeros(0) == b;
  }

  // In general a decodable text comes back without trailing zeros exactly when the characters it
  // skipped do not change the size of the buffer.
  lemma TrailingZeros(enc: string)
    requires Quanta(Strip(enc)).Some?
    ensures DecodeToBytes(enc).Some? && |DecodeToBytes(enc).value| == DecodedLen(|enc|)
    ensures DecodeToBytes(enc) == Quanta(Strip(enc)) <==> DecodedLen(|enc|) == DecodedLen(|Strip(enc)|)
  {
    StripShorter(enc);
    QuantaLength(Strip(enc));
    var dec := Quanta(Strip(enc)).value;
    var extra: nat := DecodedLen(|enc|) - |dec|;
    assert |dec + Zeros(extra)| == |dec| + extra;
    assert extra == 0 ==> dec + Zeros(extra) == dec;
  }

  // Two line feeds behind any encoded text are accepted, and the result is too long.
  lemma LineFeedsLeaveZeros(b: seq<Byte>)
    ensures var dec := DecodeToBytes(Encode(b) + "\n\n");
      dec.Some? && |dec.value| > |b| && dec.value[..|b|] == b
  {
    var s := Encode(b);
    EncodedText(b);
    QuantaRoundTrip(b);
    StripLineFeeds(s);
    TrailingZeros(s + "\n\n");
    hide Quanta, Encode, Strip;
    assert |s + "\n\n"| == |s| + 2;
    Longer(|s|);
  }

  lemma Longer(n: nat)
    ensures DecodedLen(n + 2) > DecodedLen(n)
  {
  }

  lemma StripLineFeeds(s: string)
    requires forall c | c in s :: !Skipped(c)
    ensures Strip(s + "\n\n") == s
  {
    NothingToStrip(s);
    StripAppend(s, "\n\n");
    assert "\n\n"[1..] == "\n" && "\n"[1..] == "";
    assert Strip("\n") == "" && Strip("\n\n") == "";
  }

  lemma {:induction false} StripAppend(a: string, b: string)
    ensures Strip(a + b) == Strip(a) + Strip(b)
  {
    if a == "" {
      assert a + b == b;
    } else {
      StripAppend(a[1..], b);
      assert (a + b)[1..] == a[1..] + b;
    }
  }

  // ---------- the coding of section 5 of RFC 4648 ----------

  const UPPER := "ABCDEFGHIJKLMNOPQRSTUVWXYZ"
  const LOWER := "abcdefghijklmnopqrstuvwxyz"
  const DIGITS := "0123456789"
  const ALPHABET := UPPER + LOWER + DIGITS + "-_"

  lemma Letters(x: int)
    requires 0 <= x < 26
    ensures |UPPER| == |LOWER| == 26 && UPPER[x] == 'A' + x as char && LOWER[x] == 'a' + x as char
  {
    assert
      || x == 0 || x == 1 || x == 2 || x == 3 || x == 4 || x == 5 || x == 6 || x == 7 || x == 8
      || x == 9 || x == 10 || x == 11 || x == 12 || x == 13 || x == 14 || x == 15 || x == 16 || x == 17
      || x == 18 || x == 19 || x == 20 || x == 21 || x == 22 || x == 23 || x == 24 || x == 25;
  }

  lemma Digits(x: int)
    requires 0 <= x < 10
    ensures |DIGITS| == 10 && DIGITS[x] == '0' + x as char
  {
    assert
      || x == 0 || x == 1 || x == 2 || x == 3 || x == 4 || x == 5 || x == 6 || x == 7 || x == 8
      || x == 9;
  }

  lemma Joined(u: string, l: string, d: string, e: string, x: Sextet)
    requires |u| == |l| == 26 && |d| == 10 && |e| == 2
    ensures |u + l + d + e| == 64
    ensures (u + l + d + e)[x] ==
            if x < 26 then u[x] else if x < 52 then l[x - 26] else if x < 62 then d[x - 52] else e[x - 62]
  {
  }

  lemma DecodesOwnChar(x: Sextet, c: char)
    ensures DecodeChar(c) == Some(x) <==> c == EncodeChar(x)
  {
  }

  // The character of each of the 64 values.
  lemma Alphabet(x: Sextet, c: char)
    ensures |ALPHABET| == 64 && EncodeChar(x) == ALPHABET[x]
    ensures DecodeChar(c) == Some(x) <==> c == ALPHABET[x]
  {
    DecodesOwnChar(x, c);
    Letters(if x < 26 then x else if x < 52 then x - 26 else 0);
    Digits(if 52 <= x < 62 then x - 52 else 0);
    hide DecodeChar, UPPER, LOWER, DIGITS;
    Joined(UPPER, LOWER, DIGITS, "-_", x);
  }

  // Four characters carry the 24 bits of three bytes, the first byte in front.
  lemma BigEndian(a: Byte, b: Byte, c: Byte)
    ensures S1(a) * 262144 + S2(a, b) * 4096 + S3(b, c) * 64 + S4(c) == a * 65536 + b * 256 + c
  {
  }

  // The first bytes of a text, as the number that its first characters spell in base 64.
  function Group(b: seq<Byte>): int
    requires |b| > 0
  {
    b[0] as int * 65536 + (if |b| > 1 then b[1] as int * 256 else 0) + if |b| > 2 then b[2] as int else 0
  }

  lemma GroupDigits(b: seq<Byte>)
    requires |b| > 0
    ensures 0 <= Group(b) / 262144 < 64
    ensures var x, y := if |b| > 1 then b[1] else 0, if |b| > 2 then b[2] else 0;
      && S1(b[0]) == Group(b) / 262144 && S2(b[0], x) == Group(b) / 4096 % 64
      && S3(x, y) == Group(b) / 64 % 64 && S4(y) == Group(b) % 64
  {
    var x: Byte, y: Byte := if |b| > 1 then b[1] else 0, if |b| > 2 then b[2] else 0;
    BigEndian(b[0], x, y);
    hide S1, S2, S3, S4;
    DigitsOf(S1(b[0]), S2(b[0], x), S3(x, y), S4(y));
  }

  lemma DigitsOf(w: Sextet, x: Sextet, y: Sextet, z: Sextet)
    ensures var n := w * 262144 + x * 4096 + y * 64 + z;
      n / 262144 == w && n / 4096 % 64 == x && n / 64 % 64 == y && n % 64 == z
  {
    var n := w * 262144 + x * 4096 + y * 64 + z;
    assert n == 64 * (w * 4096 + x * 64 + y) + z;
    assert n / 64 == w * 4096 + x * 64 + y;
    assert n == 4096 * (w * 64 + x) + (y * 64 + z);
    assert n / 4096 == w * 64 + x;
  }

  // Encoding goes group by group; what is missing of the last one counts as zero and is not spelled.
  lemma EncodeSpells(b: seq<Byte>)
    requires |b| > 0
    ensures 0 <= Group(b) / 262144 < 64
    ensures var n, s := Group(b), Encode(b);
      && |s| >= 2 && s[0] == ALPHABET[n / 262144] && s[1] == ALPHABET[n / 4096 % 64]
      && (|b| == 1 ==> |s| == 2) && (|b| == 2 ==> |s| == 3)
      && (|b| >= 2 ==> |s| >= 3 && s[2] == ALPHABET[n / 64 % 64])
      && (|b| >= 3 ==> |s| >= 4 && s[3] == ALPHABET[n % 64] && s[4..] == Encode(b[3..]))
  {
    GroupDigits(b);
    hide Group, S1, S2, S3, S4, EncodeChar, DecodeChar, ALPHABET;
    forall x: Sextet ensures EncodeChar(x) == ALPHABET[x] && |ALPHABET| == 64 { Alphabet(x, 'A'); }
  }

  lemma BigEndianBack(w: Sextet, x: Sextet, y: Sextet, z: Sextet)
    ensures B1(w, x) * 65536 + B2(x, y) * 256 + B3(y, z) == w * 262144 + x * 4096 + y * 64 + z
  {
  }

  // A text is decodable exactly when, line breaks aside, all its characters are of the alphabet and
  // there is not a single one left over after the quanta.
  lemma {:induction false} QuantaAccepts(s: string)
    ensures Quanta(s).Some? <==> (forall c | c in s :: DecodeChar(c).Some?) && |s| % 4 != 1
  {
    hide DecodeChar, B1, B2, B3;
    if |s| >= 4 {
      QuantaAccepts(s[4..]);
      assert s == [s[0], s[1], s[2], s[3]] + s[4..];
    } else if |s| == 3 {
      assert s == [s[0], s[1], s[2]];
    } else if |s| == 2 {
      assert s == [s[0], s[1]];
    }
  }

  lemma DecodeAccepts(enc: string)
    requires '\r' !in enc && '\n' !in enc
    ensures DecodeToBytes(enc).Some? <==> (forall c | c in enc :: c in ALPHABET) && |enc| % 4 != 1
  {
    NothingToStrip(enc);
    QuantaAccepts(enc);
    forall c ensures c in ALPHABET <==> DecodeChar(c).Some? {
      if DecodeChar(c).Some? { Alphabet(DecodeChar(c).value, c); }
      if c in ALPHABET {
        var i :| 0 <= i < |ALPHABET| && ALPHABET[i] == c;
        Alphabet(0, 'A');
        Alphabet(i, c);
      }
    }
    hide Strip, Quanta, DecodeChar;
  }

  // A line break anywhere is passed over.
  lemma LineBreaksSkipped(a: string, b: string)
    ensures Strip(a + "\n" + b) == Strip(a + b) && Strip(a + "\r" + b) == Strip(a + b)
    ensures DecodeToBytes(a + "\n" + b).Some? <==> DecodeToBytes(a + b).Some?
    ensures DecodeToBytes(a + "\r" + b).Some? <==> DecodeToBytes(a + b).Some?
  {
    StripAppend(a, b);
    StripAppend(a, "\n");
    StripAppend(a, "\r");
    StripAppend(a + "\n", b);
    StripAppend(a + "\r", b);
    assert "\n"[1..] == "" && "\r"[1..] == "";
    assert Strip("\n") == "" && Strip("\r") == "";
    hide Strip, Quanta;
  }
}
