/** HTTP Basic credentials (src/httpcontrol.cc): base64 decoding and the user:password split. */
module Base64 {
  import opened Bytes
  import opened Wrappers

  // --- the code of section 5.2 of RFC 1521 ---

  function EncodeSextet(n: nat): (c: char)
    requires n < 64
    ensures Xlate(c) == n && c != '\0' && c != ' '
  {
    if n < 26 then 'A' + n as char
    else if n < 52 then 'a' + (n - 26) as char
    else if n < 62 then '0' + (n - 52) as char
    else if n == 62 then '+'
    else '/'
  }

  /** Three bytes as four sextets. */
  function EncodeTriple(b0: nat, b1: nat, b2: nat): (r: string)
    requires b0 < 256 && b1 < 256 && b2 < 256
    ensures |r| == 4
  {
    [EncodeSextet(b0 / 4), EncodeSextet(b0 % 4 * 16 + b1 / 16), EncodeSextet(b1 % 16 * 4 + b2 / 64), EncodeSextet(b2 % 64)]
  }

  function Encoded(s: string): string
    requires IsBytes(s)
  {
    if s == "" then ""
    else if |s| == 1 then
      var q := EncodeTriple(s[0] as int, 0, 0);
      [q[0], q[1], '=', '=']
    else if |s| == 2 then
      var q := EncodeTriple(s[0] as int, s[1] as int, 0);
      [q[0], q[1], q[2], '=']
    else EncodeTriple(s[0] as int, s[1] as int, s[2] as int) + Encoded(s[3..])
  }

  // --- the decoder ---

  /** The translation table, indexed by the low seven bits of a byte; -1 marks a character outside the
      alphabet, '=' counts as zero. */
  function Xlate(c: char): (n: int)
    ensures -1 <= n < 64
  {
    var d := if c as int < 128 then c as int else c as int - 128;
    if 65 <= d <= 90 then d - 65
    else if 97 <= d <= 122 then d - 97 + 26
    else if 48 <= d <= 57 then d - 48 + 52
    else if d == 43 then 62
    else if d == 47 then 63
    else if d == 61 then 0
    else -1
  }

  /** The original shifts and ors the halves of a byte and cuts the result to eight bits: that is the sum of
      the products and quotients that QuadByte computes. */
  lemma ShiftOrIsSum(q0: bv32, q1: bv32, q2: bv32, q3: bv32)
    requires q0 < 64 && q1 < 64 && q2 < 64 && q3 < 64
    ensures ((q0 << 2) | (q1 >> 4)) & 0xff == q0 * 4 + q1 / 16
    ensures ((q1 << 4) | (q2 >> 2)) & 0xff == (q1 * 16 + q2 / 4) % 256
    ensures ((q2 << 6) | (q3 >> 0)) & 0xff == (q2 * 64 + q3) % 256
  {
  }

  /** Byte i of a quad. */
  function QuadByte(q: seq<int>, i: nat): (c: char)
    requires |q| == 4 && i < 3 && forall j :: 0 <= j < 4 ==> 0 <= q[j] < 64
    ensures c as int < 256
  {
    (if i == 0 then q[0] * 4 + q[1] / 16
     else if i == 1 then (q[1] * 16 + q[2] / 4) % 256
     else (q[2] * 64 + q[3]) % 256) as char
  }

  function QuadBytes(q: seq<int>): string
    requires |q| == 4 && forall j :: 0 <= j < 4 ==> 0 <= q[j] < 64
  {
    [QuadByte(q, 0), QuadByte(q, 1), QuadByte(q, 2)]
  }

  function Sextets(s: string): seq<int>
    requires |s| == 4
  {
    [Xlate(s[0]), Xlate(s[1]), Xlate(s[2]), Xlate(s[3])]
  }

  predicate InAlphabet(s: string) {
    forall i :: 0 <= i < |s| ==> Xlate(s[i]) >= 0
  }

  function Prefixed(start: string, r: Option<string>): Option<string> {
    if r.None? then None else Some(start + r.value)
  }

  /** The bytes a string without NULs decodes to, or None when it is malformed. */
  function Decode(s: string): (r: Option<string>) {
    if s == "" then Some("")
    else if |s| < 4 || !InAlphabet(s[..4]) then None
    else Prefixed(QuadBytes(Sextets(s[..4])), Decode(s[4..]))
  }

  function Decoded(coded: string): string {
    var r := Decode(CString(coded));
    if r.None? then "" else r.value
  }

  method Base64Decode(coded: string) returns (ret: string)
    ensures ret == Decoded(coded)
  {
    ret := "";
    var quad := new int[4];
    var text := CString(coded);
    var pos := 0;
    PrefixedEmpty(Decode(text));
    assert text[0..] == text;
    while pos < |text|
      invariant 0 <= pos <= |text|
      invariant Decode(text) == Prefixed(ret, Decode(text[pos..]))
    {
      var ok := ReadQuad(text[pos..], quad);
      if !ok {
        return "";
      }
      DecodeStep(text, pos, ret);
      pos := pos + 4;
      ret := AppendQuad(ret, quad);
    }
    assert text[pos..] == "";
  }

  lemma PrefixedEmpty(r: Option<string>)
    ensures Prefixed("", r) == r
  {
    if r.Some? {
      assert "" + r.value == r.value;
    }
  }

  /** The inner loop that translates four characters. */
  method ReadQuad(text: string, quad: array<int>) returns (ok: bool)
    requires quad.Length == 4
    modifies quad
    ensures ok <==> |text| >= 4 && InAlphabet(text[..4])
    ensures ok ==> quad[..] == Sextets(text[..4])
  {
    var i := 0;
    while i < 4
      invariant 0 <= i <= 4 && i <= |text|
      invariant forall j :: 0 <= j < i ==> quad[j] == Xlate(text[j]) && quad[j] >= 0
    {
      if i == |text| {
        return false;
      }
      quad[i] := Xlate(text[i]);
      if quad[i] == -1 {
        assert |text| >= 4 ==> Xlate(text[..4][i]) < 0;
        return false;
      }
      i := i + 1;
    }
    return true;
  }

  /** The inner loop that packs the sextets into three bytes. */
  method AppendQuad(start: string, quad: array<int>) returns (ret: string)
    requires quad.Length == 4 && forall j :: 0 <= j < 4 ==> 0 <= quad[j] < 64
    ensures ret == start + QuadBytes(quad[..])
  {
    ret := start;
    var i := 0;
    while i < 3
      invariant 0 <= i <= 3
      invariant ret == start + QuadBytes(quad[..])[..i]
    {
      ret := ret + [QuadByte(quad[..], i)];
      i := i + 1;
    }
  }

  lemma DecodeStep(text: string, pos: nat, ret: string)
    requires pos + 4 <= |text| && InAlphabet(text[pos..][..4])
    ensures Prefixed(ret, Decode(text[pos..]))
         == Prefixed(ret + QuadBytes(Sextets(text[pos..][..4])), Decode(text[pos + 4..]))
  {
    var rest := text[pos..];
    assert rest[4..] == text[pos + 4..];
    if Decode(rest[4..]).Some? {
      Regroup(ret, QuadBytes(Sextets(rest[..4])), Decode(rest[4..]).value);
    }
  }

  // --- round trip ---

  function Padding(n: nat): nat {
    if n % 3 == 0 then 0 else 3 - n % 3
  }

  lemma TripleSextets(b0: nat, b1: nat, b2: nat)
    requires b0 < 256 && b1 < 256 && b2 < 256
    ensures InAlphabet(EncodeTriple(b0, b1, b2))
    ensures Sextets(EncodeTriple(b0, b1, b2))
         == [b0 / 4, b0 % 4 * 16 + b1 / 16, b1 % 16 * 4 + b2 / 64, b2 % 64]
  {
  }

  lemma PackTriple(b0: nat, b1: nat, b2: nat)
    requires b0 < 256 && b1 < 256 && b2 < 256
    ensures QuadBytes([b0 / 4, b0 % 4 * 16 + b1 / 16, b1 % 16 * 4 + b2 / 64, b2 % 64])
         == [b0 as char, b1 as char, b2 as char]
  {
    var q1, q2 := b0 % 4 * 16 + b1 / 16, b1 % 16 * 4 + b2 / 64;
    assert b0 / 4 * 4 + q1 / 16 == b0 by { Halves(b0, 4, 16, b1 / 16); }
    assert (q1 * 16 + q2 / 4) % 256 == b1 by {
      Halves(b1, 16, 4, b2 / 64);
      LowByte(b0 % 4, b1);
      assert q1 * 16 + q2 / 4 == b0 % 4 * 256 + b1;
    }
    assert (q2 * 64 + b2 % 64) % 256 == b2 by {
      Halves(b2, 64, 1, 0);
      LowByte(b1 % 16, b2);
      assert q2 * 64 + b2 % 64 == b1 % 16 * 256 + b2;
    }
  }

  lemma LowByte(high: nat, low: nat)
    requires low < 256
    ensures (high * 256 + low) % 256 == low
  {
  }

  /** A byte cut in two and put together again, the low half scaled beside another number. */
  lemma Halves(b: nat, cut: nat, scale: nat, other: nat)
    requires b < 256 && cut in {4, 16, 64} && scale in {1, 4, 16} && other < scale
    ensures b / cut * cut + b % cut == b
    ensures (b % cut * scale + other) / scale == b % cut
    ensures (b % cut * scale + other) % scale == other
  {
  }

  lemma EncodeTripleDecodes(b0: nat, b1: nat, b2: nat)
    requires b0 < 256 && b1 < 256 && b2 < 256
    ensures var r := EncodeTriple(b0, b1, b2);
            InAlphabet(r) && QuadBytes(Sextets(r)) == [b0 as char, b1 as char, b2 as char]
  {
    TripleSextets(b0, b1, b2);
    PackTriple(b0, b1, b2);
  }

  lemma DecodeQuad(quad: string, rest: string)
    requires |quad| == 4 && InAlphabet(quad) && Decode(rest).Some?
    ensures Decode(quad + rest) == Some(QuadBytes(Sextets(quad)) + Decode(rest).value)
  {
    assert (quad + rest)[..4] == quad && (quad + rest)[4..] == rest;
  }

  /** '=' decodes like the sextet zero. */
  lemma PaddedQuad(full: string, padded: string)
    requires |full| == |padded| == 4
    requires forall i :: 0 <= i < 4 ==> padded[i] == full[i] || (padded[i] == '=' && full[i] == 'A')
    ensures Sextets(padded) == Sextets(full)
    ensures InAlphabet(full) ==> InAlphabet(padded)
  {
    assert Xlate('=') == 0 == Xlate('A');
  }

  function Zeros(n: nat): (r: string)
    ensures |r| == n
  {
    seq(n, _ => '\0')
  }

  lemma DecodeTriple(b0: char, b1: char, b2: char, coded: string)
    requires b0 as int < 256 && b1 as int < 256 && b2 as int < 256
    requires Decode(coded).Some?
    ensures Decode(EncodeTriple(b0 as int, b1 as int, b2 as int) + coded) == Some([b0, b1, b2] + Decode(coded).value)
  {
    EncodeTripleDecodes(b0 as int, b1 as int, b2 as int);
    DecodeQuad(EncodeTriple(b0 as int, b1 as int, b2 as int), coded);
  }

  /** A quad whose last sextets, all zero, are written as pads. */
  lemma DecodePadded(b0: char, b1: char, padded: string)
    requires b0 as int < 256 && b1 as int < 256 && |padded| == 4
    requires var full := EncodeTriple(b0 as int, b1 as int, 0);
             forall i :: 0 <= i < 4 ==> padded[i] == full[i] || (padded[i] == '=' && full[i] == 'A')
    ensures Decode(padded) == Some([b0, b1, '\0'])
  {
    var full := EncodeTriple(b0 as int, b1 as int, 0);
    EncodeTripleDecodes(b0 as int, b1 as int, 0);
    PaddedQuad(full, padded);
    DecodeQuad(padded, "");
    assert padded + "" == padded;
    assert [b0, b1, '\0'] + "" == [b0, b1, '\0'];
  }

  lemma EncodedOneDecodes(c: char)
    requires c as int < 256
    ensures Decode(Encoded([c])) == Some([c, '\0', '\0'])
  {
    var q := EncodeTriple(c as int, 0, 0);
    assert q[2] == 'A' && q[3] == 'A';
    DecodePadded(c, '\0', [q[0], q[1], '=', '=']);
  }

  lemma EncodedTwoDecodes(c0: char, c1: char)
    requires c0 as int < 256 && c1 as int < 256
    ensures Decode(Encoded([c0, c1])) == Some([c0, c1, '\0'])
  {
    var q := EncodeTriple(c0 as int, c1 as int, 0);
    assert q[3] == 'A';
    DecodePadded(c0, c1, [q[0], q[1], q[2], '=']);
  }

  lemma PadTail(s: string)
    requires 1 <= |s| <= 2
    ensures [s[0], if |s| == 2 then s[1] else '\0', '\0'] == s + Zeros(Padding(|s|))
  {
  }

  lemma {:induction false} EncodedHasNoNul(s: string)
    requires IsBytes(s)
    ensures '\0' !in Encoded(s)
  {
    if |s| >= 3 {
      EncodedHasNoNul(s[3..]);
    }
  }

  /** Decoding the base64 form of a byte string gives it back, followed by one zero byte per pad character. */
  lemma {:induction false} DecodeEncoded(s: string)
    requires IsBytes(s)
    ensures Decode(Encoded(s)) == Some(s + Zeros(Padding(|s|)))
  {
    if s == "" {
      assert s + Zeros(0) == "";
    } else if |s| == 1 {
      assert s == [s[0]];
      EncodedOneDecodes(s[0]);
      PadTail(s);
    } else if |s| == 2 {
      assert s == [s[0], s[1]];
      EncodedTwoDecodes(s[0], s[1]);
      PadTail(s);
    } else {
      var rest := s[3..];
      DecodeEncoded(rest);
      DecodeTriple(s[0], s[1], s[2], Encoded(rest));
      PaddingStep(|s|);
      SplitTriple(s, Zeros(Padding(|s|)));
    }
  }

  lemma PaddingStep(n: nat)
    requires n >= 3
    ensures Padding(n - 3) == Padding(n)
  {
  }

  lemma SplitTriple(s: string, zeros: string)
    requires |s| >= 3
    ensures [s[0], s[1], s[2]] + (s[3..] + zeros) == s + zeros
  {
  }

  lemma DecodedEncoded(s: string)
    requires IsBytes(s)
    ensures Decoded(Encoded(s)) == s + Zeros(Padding(|s|))
  {
    DecodeEncoded(s);
    EncodedHasNoNul(s);
    CStringWithoutNul(Encoded(s));
  }

  lemma InAlphabetSplit(a: string, b: string)
    ensures InAlphabet(a + b) <==> InAlphabet(a) && InAlphabet(b)
  {
    var s := a + b;
    assert forall i :: 0 <= i < |a| ==> s[i] == a[i];
    assert forall i :: 0 <= i < |b| ==> s[|a| + i] == b[i];
  }

  lemma QuadCount(n: nat)
    requires n >= 4
    ensures (n - 4) % 4 == n % 4
  {
  }

  /** The decoder rejects exactly the strings that are not whole quads over the alphabet. */
  lemma {:induction false} Malformed(s: string)
    ensures Decode(s).None? <==> |s| % 4 != 0 || !InAlphabet(s)
  {
    if |s| >= 4 {
      Malformed(s[4..]);
      QuadCount(|s|);
      InAlphabetSplit(s[..4], s[4..]);
      assert s == s[..4] + s[4..];
    } else if s != "" {
      assert |s| % 4 == |s|;
    }
  }

  // --- credentials ---

  /** User name and password in the decoded text; the password may carry trailing NULs. */
  function Credentials(decoded: string): Option<(string, string)> {
    var text := CString(decoded);
    var k := IndexOf(text, ':');
    if k < |text| then Some((decoded[..k], decoded[k + 1..])) else None
  }

  function SkipSpace(s: string): (r: string)
    ensures |r| <= |s|
    ensures r != "" ==> !IsSpace(r[0])
  {
    if s != "" && IsSpace(s[0]) then SkipSpace(s[1..]) else s
  }

  /** The user name and password of an Authorization header. */
  function BasicCredentials(header: string): Option<(string, string)> {
    var auth := CString(header);
    if |auth| < 6 || !SameIgnoringCase(auth[..5], "Basic") || !IsSpace(auth[5]) then None
    else Credentials(Decoded(SkipSpace(auth[6..])))
  }

  method TryAuthenticate(header: string) returns (r: Option<(string, string)>)
    ensures r == BasicCredentials(header)
  {
    var auth := CString(header);
    if |auth| < 5 || !SameIgnoringCase(auth[..5], "Basic") {
      return None;
    }
    if |auth| == 5 || !IsSpace(auth[5]) {
      return None;
    }
    var base64 := 6;
    while base64 < |auth| && IsSpace(auth[base64])
      invariant 6 <= base64 <= |auth|
      invariant SkipSpace(auth[base64..]) == SkipSpace(auth[6..])
    {
      base64 := base64 + 1;
    }
    var decoded := Base64Decode(auth[base64..]);
    r := SplitCredentials(decoded);
  }

  /** The loop that looks for the colon. */
  method SplitCredentials(decoded: string) returns (r: Option<(string, string)>)
    ensures r == Credentials(decoded)
  {
    var i := 0;
    while i < |decoded| && decoded[i] != '\0'
      invariant 0 <= i <= |CString(decoded)|
      invariant ':' !in decoded[..i]
    {
      if decoded[i] == ':' {
        ghost var text := CString(decoded);
        assert text == text[..i] + [':'] + text[i + 1..] && text[..i] == decoded[..i];
        IndexOfAt(text[..i], ':', text[i + 1..]);
        return Some((decoded[..i], decoded[i + 1..]));
      }
      i := i + 1;
    }
    assert CString(decoded) == decoded[..i];
    IndexOfNone(decoded[..i], ':');
    return None;
  }

  lemma {:induction false} CStringOfZeros(s: string, n: nat)
    requires '\0' !in s
    ensures CString(s + Zeros(n)) == s
  {
    var zeros := Zeros(n);
    if n == 0 {
      assert s + zeros == s;
      IndexOfNone(s, '\0');
    } else {
      assert s + zeros == s + ['\0'] + zeros[1..];
      IndexOfAt(s, '\0', zeros[1..]);
    }
  }

  /** Splitting a pair that padding zeros follow. */
  lemma CredentialsOfPair(user: string, password: string, n: nat)
    requires '\0' !in user && '\0' !in password && ':' !in user
    ensures var r := Credentials(user + ":" + password + Zeros(n));
            r.Some? && r.value.0 == user && CString(r.value.1) == password
  {
    var pair, zeros := user + ":" + password, Zeros(n);
    var decoded := pair + zeros;
    CStringOfZeros(pair, n);
    IndexOfAt(user, ':', password);
    assert decoded[..|user|] == user;
    assert decoded[|user| + 1..] == password + zeros;
    CStringOfZeros(password, n);
  }

  lemma HeaderText(code: string)
    requires '\0' !in code && SkipSpace(code) == code
    ensures BasicCredentials("Basic " + code) == Credentials(Decoded(code))
  {
    var header := "Basic " + code;
    CStringWithoutNul(header);
    assert header[..5] == "Basic" && header[5] == ' ' && header[6..] == code;
  }

  lemma BasicOf(pair: string)
    requires IsBytes(pair)
    ensures BasicCredentials("Basic " + Encoded(pair)) == Credentials(pair + Zeros(Padding(|pair|)))
  {
    EncodedHasNoNul(pair);
    EncodedStart(pair);
    HeaderText(Encoded(pair));
    DecodedEncoded(pair);
  }

  /** A NUL-free user and password pair sent by the Basic scheme is recovered as C strings. */
  lemma BasicRoundTrip(user: string, password: string)
    requires IsBytes(user) && IsBytes(password)
    requires '\0' !in user && '\0' !in password && ':' !in user
    ensures var r := BasicCredentials("Basic " + Encoded(user + ":" + password));
            r.Some? && r.value.0 == user && CString(r.value.1) == password
  {
    var pair := user + ":" + password;
    assert IsBytes(pair);
    BasicOf(pair);
    CredentialsOfPair(user, password, Padding(|pair|));
  }

  lemma EncodedStart(s: string)
    requires IsBytes(s)
    ensures SkipSpace(Encoded(s)) == Encoded(s)
  {
    if s != "" {
      assert !IsSpace(EncodeSextet(s[0] as int / 4));
    }
  }

  // --- the alphabet ---

  /** Table 1 of section 5.2 of RFC 1521. */
  const ALPHABET := UPPER + LOWER + DIGITS + "+/"

  lemma AlphabetIs(k: nat)
    requires k < 64
    ensures |ALPHABET| == 64 && EncodeSextet(k) == ALPHABET[k] && Xlate(ALPHABET[k]) == k
  {
    if k < 26 {
      UpperAt(k);
      assert ALPHABET[k] == UPPER[k];
    } else if k < 52 {
      LowerAt(k - 26);
      assert ALPHABET[k] == LOWER[k - 26];
    } else if k < 62 {
      DigitAt(k - 52);
      assert ALPHABET[k] == DIGITS[k - 52];
    } else {
      assert ALPHABET[k] == "+/"[k - 62];
    }
  }

  /** The decoder takes the alphabet and the pad, and looks at seven bits only. */
  lemma DecodedCharacters(c: char)
    requires c as int < 256
    ensures var d := (c as int % 128) as char; Xlate(c) >= 0 <==> d in ALPHABET || d == '='
  {
    var d := (c as int % 128) as char;
    var v := Xlate(c);
    assert v == Xlate(d);
    if v >= 0 && d != '=' {
      AlphabetIs(v);
      EncodedOnly(d);
    }
    if d in ALPHABET {
      var k :| 0 <= k < |ALPHABET| && ALPHABET[k] == d;
      AlphabetIs(k);
    }
  }

  /** No two characters of seven bits but the pad and 'A' stand for the same sextet. */
  lemma EncodedOnly(d: char)
    requires d as int < 128 && d != '=' && Xlate(d) >= 0
    ensures EncodeSextet(Xlate(d)) == d
  {
  }

  // --- the scheme ---

  /** Is this the name of the scheme in capital letters, small ones or a mixture? */
  predicate SaysBasic(scheme: string) {
    |scheme| == 5 && forall i :: 0 <= i < 5 ==> scheme[i] == "BASIC"[i] || scheme[i] == "basic"[i]
  }

  lemma SchemeInAnyCase(scheme: string)
    ensures SameIgnoringCase(scheme, "Basic") <==> SaysBasic(scheme)
  {
    assert "Basic"[0] == 'B' && "Basic"[1] == 'a' && "Basic"[2] == 's' && "Basic"[3] == 'i' && "Basic"[4] == 'c';
  }

  lemma {:induction false} SpacesSkipped(spaces: string, text: string)
    requires AllSpaces(spaces)
    ensures SkipSpace(spaces + text) == SkipSpace(text)
  {
    if spaces == "" {
      assert spaces + text == text;
    } else {
      assert (spaces + text)[1..] == spaces[1..] + text;
      SpacesSkipped(spaces[1..], text);
    }
  }

  /** The scheme in any case, white space, and the base64 form of a pair give the pair. */
  lemma BasicInAnyCase(scheme: string, spaces: string, user: string, password: string)
    requires SaysBasic(scheme) && spaces != "" && AllSpaces(spaces)
    requires IsBytes(user) && IsBytes(password)
    requires '\0' !in user && '\0' !in password && ':' !in user
    ensures var r := BasicCredentials(scheme + (spaces + Encoded(user + ":" + password)));
            r.Some? && r.value.0 == user && CString(r.value.1) == password
  {
    var pair := user + ":" + password;
    var code := Encoded(pair);
    EncodedHasNoNul(pair);
    EncodedStart(pair);
    SchemeInAnyCase(scheme);
    SchemeHasNoNul(scheme);
    HeaderRead(scheme, spaces, code);
    DecodedEncoded(pair);
    CredentialsOfPair(user, password, Padding(|pair|));
  }

  lemma SchemeHasNoNul(scheme: string)
    requires SaysBasic(scheme)
    ensures '\0' !in scheme
  {
    forall i | 0 <= i < 5
      ensures scheme[i] != '\0'
    {
      assert "BASIC"[i] != '\0' && "basic"[i] != '\0';
    }
  }

  lemma HeaderRead(scheme: string, spaces: string, code: string)
    requires |scheme| == 5 && SameIgnoringCase(scheme, "Basic") && '\0' !in scheme
    requires spaces != "" && AllSpaces(spaces) && '\0' !in code && SkipSpace(code) == code
    ensures BasicCredentials(scheme + (spaces + code)) == Credentials(Decoded(code))
  {
    var header := scheme + (spaces + code);
    HeaderParts(scheme, spaces, code);
    CStringWithoutNul(header);
    SpacesSkipped(spaces[1..], code);
  }

  lemma HeaderParts(scheme: string, spaces: string, code: string)
    requires |scheme| == 5 && '\0' !in scheme && spaces != "" && AllSpaces(spaces) && '\0' !in code
    ensures var header := scheme + (spaces + code);
            && |header| >= 6 && header[..5] == scheme && header[5] == spaces[0] && IsSpace(header[5])
            && header[6..] == spaces[1..] + code && '\0' !in header
  {
  }

  /** Any other scheme is refused. */
  lemma OtherScheme(header: string)
    requires '\0' !in header && (|header| < 5 || !SaysBasic(header[..5]))
    ensures BasicCredentials(header).None?
  {
    CStringWithoutNul(header);
    if |header| >= 5 {
      SchemeInAnyCase(header[..5]);
    }
  }
}
