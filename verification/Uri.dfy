/** URIs (lib/uri.cc): percent quoting, printing and parsing. */
module Uris {
  import opened Bytes
  import opened Paths

  // --- percent quoting ---

  predicate Alnum(c: char) {
    '0' <= c <= '9' || 'A' <= c <= 'Z' || 'a' <= c <= 'z'
  }

  predicate Safe(c: char) {
    Alnum(c) || c in "-_.!~*'()/"
  }

  function HexDigit(c: char): (n: nat)
    ensures n < 16
  {
    if '0' <= c <= '9' then (c - '0') as nat
    else if 'A' <= c <= 'F' then 10 + (c - 'A') as nat
    else if 'a' <= c <= 'f' then 10 + (c - 'a') as nat
    else 0
  }

  function HexDecode(c1: char, c2: char): char {
    (HexDigit(c1) * 16 + HexDigit(c2)) as char
  }

  function HexDigitise(n: nat): (c: char)
    requires n < 16
    ensures HexDigit(c) == n && Alnum(c)
  {
    if n < 10 then '0' + n as char else 'A' + (n - 10) as char
  }

  function HexEncode(c: char): string {
    [HexDigitise(c as int / 16 % 16), HexDigitise(c as int % 16)]
  }

  function QuotedByte(c: char): string {
    if Safe(c) then [c] else ['%'] + HexEncode(c)
  }

  function Quoted(s: string): string {
    if s == "" then "" else QuotedByte(s[0]) + Quoted(s[1..])
  }

  function Dequoted(s: string): string {
    if s == "" || s[0] == '\0' then ""
    else if s[0] == '%' then
      if |s| < 3 || s[1] == '\0' || s[2] == '\0' then ""
      else [HexDecode(s[1], s[2])] + Dequoted(s[3..])
    else [s[0]] + Dequoted(s[1..])
  }

  method QuotePercent(unquoted: string) returns (ret: string)
    ensures ret == Quoted(unquoted)
  {
    ret := "";
    var i := 0;
    while i < |unquoted|
      invariant 0 <= i <= |unquoted|
      invariant ret + Quoted(unquoted[i..]) == Quoted(unquoted)
    {
      var c := unquoted[i];
      assert unquoted[i..][1..] == unquoted[i + 1..];
      Regroup(ret, QuotedByte(c), Quoted(unquoted[i + 1..]));
      if Safe(c) {
        ret := ret + [c];
      } else {
        Regroup(ret, "%", HexEncode(c));
        ret := ret + "%";
        ret := ret + HexEncode(c);
      }
      i := i + 1;
    }
  }

  method DequotePercent(hexencoded: string) returns (ret: string)
    ensures ret == Dequoted(hexencoded)
  {
    ret := "";
    var i := 0;
    assert hexencoded[0..] == hexencoded;
    while i < |hexencoded| && hexencoded[i] != '\0'
      invariant 0 <= i <= |hexencoded|
      invariant ret + Dequoted(hexencoded[i..]) == Dequoted(hexencoded)
    {
      if hexencoded[i] == '%' {
        if i + 2 >= |hexencoded| || hexencoded[i + 1] == '\0' || hexencoded[i + 2] == '\0' {
          break;
        }
        EscapeAt(hexencoded, i, ret);
        ret := ret + [HexDecode(hexencoded[i + 1], hexencoded[i + 2])];
        i := i + 2;
      } else {
        CharacterAt(hexencoded, i, ret);
        ret := ret + [hexencoded[i]];
      }
      i := i + 1;
    }
  }

  lemma EscapeAt(s: string, i: nat, ret: string)
    requires i + 2 < |s| && s[i] == '%' && s[i + 1] != '\0' && s[i + 2] != '\0'
    ensures ret + Dequoted(s[i..]) == ret + [HexDecode(s[i + 1], s[i + 2])] + Dequoted(s[i + 3..])
  {
    assert s[i..][3..] == s[i + 3..];
    Regroup(ret, [HexDecode(s[i + 1], s[i + 2])], Dequoted(s[i + 3..]));
  }

  lemma CharacterAt(s: string, i: nat, ret: string)
    requires i < |s| && s[i] != '%' && s[i] != '\0'
    ensures ret + Dequoted(s[i..]) == ret + [s[i]] + Dequoted(s[i + 1..])
  {
    assert s[i..][1..] == s[i + 1..];
    Regroup(ret, [s[i]], Dequoted(s[i + 1..]));
  }

  // --- printing and parsing ---

  datatype Parts = Parts(scheme: string, authority: string, path: seq<string>)

  function PrintedScheme(scheme: string, authority: string): string {
    if scheme == "" then "" else Quoted(scheme) + (if authority == "" then ":/" else "://")
  }

  function PrintedAuthority(authority: string): string {
    if authority == "" then "" else Quoted(authority) + "/"
  }

  function Printed(u: Parts): string {
    PrintedScheme(u.scheme, u.authority) + (PrintedAuthority(u.authority) + Quoted(Joined(u.path)))
  }

  function FromPath(scheme: string, authority: string, s: string): Parts {
    Parts(scheme, authority, Appended([], Dequoted(s)))
  }

  function FromAuthority(scheme: string, s: string): Parts {
    var k := IndexOf(s, '/');
    if k < |s| then FromPath(scheme, Dequoted(s[..k]), s[k..]) else Parts(scheme, Dequoted(s), [])
  }

  /** The rest of the parse once the characters before start are known not to settle it. */
  function Scanned(s: string, start: nat, scheme: string): Parts
    decreases |s| - start
  {
    if start >= |s| || s[start] == '/' then FromPath(scheme, "", s)
    else if s[start] == ':' then
      var scheme' := Dequoted(s[..start]);
      if start + 1 >= |s| then Parts(scheme', "", [])
      else if s[start + 1] == '/' then
        if start + 2 >= |s| then Parts(scheme', "", [])
        else if s[start + 2] == '/' then FromAuthority(scheme', s[start + 3..])
        else FromPath(scheme', "", s[start + 2..])
      else Scanned(s, start + 2, scheme')
    else Scanned(s, start + 1, scheme)
  }

  function Parsed(s: string): Parts {
    if s == "" then Parts("", "", []) else Scanned(s, 0, "")
  }

  class Uri {
    var scheme: string
    var authority: string
    const path: Path

    function Contents(): Parts
      reads this, path
    {
      Parts(scheme, authority, path.names)
    }

    constructor (encoded: string)
      ensures Contents() == Parsed(encoded) && fresh(path)
    {
      scheme, authority := "", "";
      path := new Path();
      new;
      Parse(encoded);
    }

    method Reset()
      modifies this, path
      ensures Contents() == Parts("", "", [])
    {
      scheme, authority := "", "";
      path.Clear();
    }

    method SetPath(unencoded: seq<string>)
      modifies path
      ensures Contents() == old(Contents()).(path := unencoded)
    {
      path.names := unencoded;
    }

    method ParseFromPath(s: string)
      modifies path
      ensures Contents() == old(Contents()).(path := Appended(old(path.names), Dequoted(s)))
    {
      var text := DequotePercent(s);
      path.Append(text);
    }

    method ParseFromAuthority(s: string)
      requires path.names == []
      modifies this, path
      ensures Contents() == FromAuthority(old(scheme), s)
    {
      var i := 0;
      while i < |s|
        invariant 0 <= i <= |s| && '/' !in s[..i]
        invariant scheme == old(scheme) && path.names == []
      {
        if s[i] == '/' {
          authority := DequotePercent(s[..i]);
          assert s == s[..i] + ['/'] + s[i + 1..];
          IndexOfAt(s[..i], '/', s[i + 1..]);
          ParseFromPath(s[i..]);
          return;
        }
        i := i + 1;
      }
      assert s[..i] == s;
      IndexOfNone(s, '/');
      authority := DequotePercent(s);
    }

    method Parse(encoded: string)
      modifies this, path
      ensures Contents() == Parsed(encoded)
    {
      Reset();
      if encoded == "" {
        return;
      }
      var start := 0;
      while start < |encoded|
        invariant 0 <= start
        invariant authority == "" && path.names == []
        invariant Scanned(encoded, start, scheme) == Parsed(encoded)
        decreases |encoded| - start
      {
        if encoded[start] == '/' {
          ParseFromPath(encoded);
          return;
        }
        if encoded[start] == ':' {
          scheme := DequotePercent(encoded[..start]);
          start := start + 1;
          if start >= |encoded| {
            return;
          }
          if encoded[start] == '/' {
            start := start + 1;
            if start >= |encoded| {
              return;
            }
            if encoded[start] == '/' {
              ParseFromAuthority(encoded[start + 1..]);
              return;
            }
            ParseFromPath(encoded[start..]);
            return;
          }
        }
        start := start + 1;
      }
      ParseFromPath(encoded);
    }

    method GetHtmlQuoted() returns (ret: string)
      ensures ret == Printed(Contents())
    {
      ret := "";
      var s, a := "", "";
      if scheme != "" {
        s := QuotePercent(scheme);
        ret := s + ":/";
        if authority != "" {
          Regroup(s, ":/", "/");
          assert ":/" + "/" == "://";
          ret := ret + "/";
        }
      }
      var prefix := ret;
      assert prefix == PrintedScheme(scheme, authority);
      a := QuotePercent(authority);
      ret := ret + a;
      if authority != "" {
        ret := ret + "/";
        Regroup(prefix, a, "/");
      }
      var p := path.Str();
      var q := QuotePercent(p);
      ret := ret + q;
      Regroup(prefix, PrintedAuthority(authority), q);
    }
  }

  // --- properties ---

  ghost predicate IsByteParts(u: Parts) {
    IsBytes(u.scheme) && IsBytes(u.authority) && forall i :: 0 <= i < |u.path| ==> IsBytes(u.path[i])
  }

  /** Which URIs survive printing. */
  ghost predicate Printable(u: Parts) {
    '/' !in u.scheme && '/' !in u.authority && (u.scheme == "" ==> u.authority == "") && Normal(u.path)
  }

  lemma HexRoundTrip(c: char)
    requires c as int < 256
    ensures HexDecode(HexEncode(c)[0], HexEncode(c)[1]) == c
    ensures HexEncode(c)[0] != '\0' && HexEncode(c)[1] != '\0'
  {
    var n := c as int;
    assert n / 16 % 16 == n / 16;
    assert n / 16 * 16 + n % 16 == n;
  }

  lemma DequotedByte(c: char, rest: string)
    requires c as int < 256
    ensures Dequoted(QuotedByte(c) + rest) == [c] + Dequoted(rest)
  {
    var s := QuotedByte(c) + rest;
    if Safe(c) {
      assert s[1..] == rest;
    } else {
      HexRoundTrip(c);
      assert s[3..] == rest;
    }
  }

  /** Quoting loses nothing, NUL and slash included. */
  lemma {:induction false} DequotedQuoted(s: string)
    requires IsBytes(s)
    ensures Dequoted(Quoted(s)) == s
  {
    if s != "" {
      DequotedQuoted(s[1..]);
      DequotedByte(s[0], Quoted(s[1..]));
    }
  }

  /** Quoted text is made of safe characters and '%' only, and has a slash only where the text has one. */
  lemma {:induction false} QuotedAlphabet(s: string)
    ensures forall i :: 0 <= i < |Quoted(s)| ==> Safe(Quoted(s)[i]) || Quoted(s)[i] == '%'
    ensures '/' in Quoted(s) ==> '/' in s
    ensures ':' !in Quoted(s)
    ensures s != "" ==> Quoted(s) != "" && (Quoted(s)[0] == '/' ==> s[0] == '/')
  {
    if s != "" {
      QuotedAlphabet(s[1..]);
    }
  }

  lemma {:induction false} QuotedConcat(a: string, b: string)
    ensures Quoted(a + b) == Quoted(a) + Quoted(b)
  {
    if a == "" {
      assert a + b == b;
    } else {
      assert (a + b)[1..] == a[1..] + b;
      QuotedConcat(a[1..], b);
      assert Quoted(a + b) == QuotedByte(a[0]) + (Quoted(a[1..]) + Quoted(b));
    }
  }

  lemma {:induction false} JoinedIsBytes(p: seq<string>)
    requires forall i :: 0 <= i < |p| ==> IsBytes(p[i])
    ensures IsBytes(Joined(p))
  {
    if |p| > 1 {
      JoinedIsBytes(p[..|p| - 1]);
    }
  }

  /** The scanner passes over characters that are neither ':' nor '/'. */
  lemma {:induction false} ScannedSkip(s: string, start: nat, end: nat, scheme: string)
    requires start <= end <= |s|
    requires forall i :: start <= i < end ==> s[i] != ':' && s[i] != '/'
    ensures Scanned(s, start, scheme) == Scanned(s, end, scheme)
    decreases end - start
  {
    if start < end {
      ScannedSkip(s, start + 1, end, scheme);
    }
  }

  /** Text whose first slash comes before any ':' is a bare path. */
  lemma ScannedPath(s: string)
    requires ':' !in s[..IndexOf(s, '/')]
    ensures Scanned(s, 0, "") == FromPath("", "", s)
  {
    var k := IndexOf(s, '/');
    forall i | 0 <= i < k
      ensures s[i] != ':' && s[i] != '/'
    {
      assert s[i] in s[..k];
    }
    ScannedSkip(s, 0, k, "");
  }

  lemma {:induction false} ScannedPathIsNormal(s: string, start: nat, scheme: string)
    ensures Normal(Scanned(s, start, scheme).path)
    decreases |s| - start
  {
    forall t: string
      ensures Normal(Appended([], t))
    {
      WalkIsNormal([], Pieces(t));
    }
    if start < |s| && s[start] != '/' {
      if s[start] == ':' {
        ScannedPathIsNormal(s, start + 2, Dequoted(s[..start]));
      } else {
        ScannedPathIsNormal(s, start + 1, scheme);
      }
    }
  }

  lemma ParsedPathIsNormal(s: string)
    ensures Normal(Parsed(s).path)
  {
    ScannedPathIsNormal(s, 0, "");
  }

  /** Without ':' the whole text is a path. */
  lemma ParsedWithoutScheme(s: string)
    requires ':' !in s
    ensures Parsed(s) == FromPath("", "", s)
  {
    var k := IndexOf(s, '/');
    assert s == s[..k] + s[k..];
    if s == "" {
      AppendJoined([]);
    } else {
      ScannedPath(s);
    }
  }

  lemma ParsedWithScheme(scheme: string, rest: string)
    requires IsBytes(scheme) && '/' !in scheme
    ensures Parsed(Quoted(scheme) + ":/" + rest)
         == if rest == "" then Parts(scheme, "", [])
            else if rest[0] == '/' then FromAuthority(scheme, rest[1..])
            else FromPath(scheme, "", rest)
  {
    var q := Quoted(scheme);
    var s := q + ":/" + rest;
    QuotedAlphabet(scheme);
    DequotedQuoted(scheme);
    forall i | 0 <= i < |q|
      ensures s[i] != ':' && s[i] != '/'
    {
      assert s[i] in q;
    }
    ScannedSkip(s, 0, |q|, "");
    assert s[..|q|] == q;
    assert s[|q|] == ':' && s[|q| + 1] == '/';
    assert s[|q| + 2..] == rest;
    if rest != "" {
      assert s[|q| + 3..] == rest[1..];
    }
  }

  lemma FromQuotedPath(scheme: string, authority: string, p: seq<string>)
    requires Normal(p) && IsBytes(Joined(p))
    ensures FromPath(scheme, authority, Quoted(Joined(p))) == Parts(scheme, authority, p)
    ensures FromPath(scheme, authority, "/" + Quoted(Joined(p))) == Parts(scheme, authority, p)
  {
    var q := Quoted(Joined(p));
    DequotedQuoted(Joined(p));
    AppendJoined(p);
    assert ("/" + q)[1..] == q;
    ChdirToJoined([], p);
  }

  lemma NormalJoinedStart(p: seq<string>)
    requires Normal(p)
    ensures Joined(p) == "" <==> p == []
    ensures p != [] ==> Joined(p)[0] != '/'
  {
    if p != [] {
      assert '/' !in p[0] && p[0] != "";
      JoinedStartsWith(p);
    }
  }

  lemma {:induction false} JoinedStartsWith(p: seq<string>)
    requires p != []
    ensures p[0] <= Joined(p)
  {
    if |p| > 1 {
      JoinedStartsWith(p[..|p| - 1]);
    }
  }

  /** Text that quotes an authority and then, after a slash, anything else. */
  lemma FromQuotedAuthority(scheme: string, authority: string, tail: string)
    requires IsBytes(authority) && '/' !in authority
    ensures FromAuthority(scheme, Quoted(authority) + ['/'] + tail) == FromPath(scheme, authority, "/" + tail)
  {
    QuotedAlphabet(authority);
    DequotedQuoted(authority);
    AuthorityCut(scheme, Quoted(authority), tail);
  }

  lemma AuthorityCut(scheme: string, a: string, tail: string)
    requires '/' !in a
    ensures FromAuthority(scheme, a + ['/'] + tail) == FromPath(scheme, Dequoted(a), "/" + tail)
  {
    var s := a + ['/'] + tail;
    IndexOfAt(a, '/', tail);
    assert s[..|a|] == a && s[|a|..] == "/" + tail;
  }

  lemma ParsedWithoutAuthority(u: Parts)
    requires IsBytes(u.scheme) && u.scheme != "" && '/' !in u.scheme && u.authority == "" && Normal(u.path)
    ensures Parsed(Printed(u)) == if u.path == [] then u else FromPath(u.scheme, "", Quoted(Joined(u.path)))
  {
    var q := Quoted(Joined(u.path));
    NormalJoinedStart(u.path);
    QuotedAlphabet(Joined(u.path));
    ParsedWithScheme(u.scheme, q);
    assert "" + q == q;
  }

  lemma ParsedWithAuthority(u: Parts)
    requires IsBytes(u.scheme) && u.scheme != "" && '/' !in u.scheme && u.authority != ""
    ensures Parsed(Printed(u)) == FromAuthority(u.scheme, Quoted(u.authority) + ['/'] + Quoted(Joined(u.path)))
  {
    var rest := PrintedAuthority(u.authority) + Quoted(Joined(u.path));
    ParsedWithScheme(u.scheme, ['/'] + rest);
    DoubleSlash(Quoted(u.scheme), rest);
  }

  lemma DoubleSlash(s: string, rest: string)
    ensures s + "://" + rest == s + ":/" + (['/'] + rest)
    ensures (['/'] + rest)[1..] == rest
  {
  }

  /** Printing and parsing a printable URI gives it back. */
  lemma PrintableRoundTrip(u: Parts)
    requires IsByteParts(u) && Printable(u)
    ensures Parsed(Printed(u)) == u
  {
    var q := Quoted(Joined(u.path));
    JoinedIsBytes(u.path);
    FromQuotedPath(u.scheme, u.authority, u.path);
    NormalJoinedStart(u.path);
    if u.scheme == "" {
      assert Printed(u) == q;
      QuotedAlphabet(Joined(u.path));
      ParsedWithoutScheme(q);
    } else {
      if u.authority == "" {
        ParsedWithoutAuthority(u);
      } else {
        ParsedWithAuthority(u);
        FromQuotedAuthority(u.scheme, u.authority, q);
      }
    }
  }

  lemma QuotedAtSlash(before: string, after: string)
    ensures Quoted(before + ['/'] + after) == Quoted(before) + ['/'] + Quoted(after)
  {
    QuotedConcat(before + ['/'], after);
    QuotedConcat(before, ['/']);
    assert Quoted(['/']) == ['/'];
  }

  /** A scheme holding a slash is read back as part of a path. */
  lemma SlashInScheme(u: Parts)
    requires '/' in u.scheme
    ensures Parsed(Printed(u)).scheme == ""
  {
    var before, after := CutAt(u.scheme, '/');
    QuotedAtSlash(before, after);
    QuotedAlphabet(before);
    ParsedFromSlash(Quoted(before), Quoted(after) + (if u.authority == "" then ":/" else "://"),
                    PrintedAuthority(u.authority) + Quoted(Joined(u.path)));
    Regroup(Quoted(before) + ['/'], Quoted(after), if u.authority == "" then ":/" else "://");
  }

  lemma ParsedFromSlash(q: string, r: string, t: string)
    requires '/' !in q && ':' !in q
    ensures Parsed(q + ['/'] + r + t).scheme == ""
  {
    var s := q + ['/'] + (r + t);
    assert s == q + ['/'] + r + t;
    IndexOfAt(q, '/', r + t);
    assert s[..|q|] == q;
    ScannedPath(s);
  }

  lemma RegroupSlashes(a: string, b: string, c: string)
    ensures a + ['/'] + b + ['/'] + c == a + ['/'] + (b + ['/'] + c)
  {
  }

  /** An authority holding a slash is cut at it. */
  lemma SlashInAuthority(u: Parts)
    requires IsByteParts(u) && u.scheme != "" && '/' !in u.scheme && '/' in u.authority
    ensures Parsed(Printed(u)).authority != u.authority
  {
    var before, after := CutAt(u.authority, '/');
    var q := Quoted(Joined(u.path));
    var tail := Quoted(after) + ['/'] + q;
    assert IsBytes(before) by {
      assert forall i :: 0 <= i < |before| ==> before[i] == u.authority[i];
    }
    assert Parsed(Printed(u)).authority == before by {
      ParsedWithAuthority(u);
      QuotedAtSlash(before, after);
      RegroupSlashes(Quoted(before), Quoted(after), q);
      FromQuotedAuthority(u.scheme, before, tail);
    }
  }

  /** Parsing the printed form gives the same URI back exactly for the printable ones. */
  lemma RoundTrip(u: Parts)
    requires IsByteParts(u)
    ensures Parsed(Printed(u)) == u <==> Printable(u)
  {
    if Printable(u) {
      PrintableRoundTrip(u);
    } else if '/' in u.scheme {
      SlashInScheme(u);
    } else if u.scheme == "" && u.authority != "" {
      QuotedAlphabet(u.authority);
      QuotedAlphabet(Joined(u.path));
      ParsedWithoutScheme(Printed(u));
    } else if '/' in u.authority {
      SlashInAuthority(u);
    } else {
      ParsedPathIsNormal(Printed(u));
    }
  }

  // --- quoting, character by character ---

  const MARKS := "-_.!~*'()"
  const HEX_UPPER := "0123456789ABCDEF"
  const HEX_LOWER := "0123456789abcdef"

  /** Letters, digits, the marks of section 2.3 of RFC 2396 and the slash stand for themselves; any other byte
      becomes a percent sign and two digits. */
  lemma QuotedCharacter(c: char)
    requires c as int < 256
    ensures Quoted([c]) == if c in UPPER || c in LOWER || c in DIGITS || c in MARKS || c == '/' then [c]
                           else ['%', HEX_UPPER[c as int / 16], HEX_UPPER[c as int % 16]]
  {
    CharacterRanges(c);
    SafeMarks(c);
    HexUpper(c as int / 16);
    HexUpper(c as int % 16);
    assert c as int / 16 % 16 == c as int / 16;
    assert QuotedByte(c) + "" == QuotedByte(c);
  }

  lemma SafeMarks(c: char)
    ensures c in "-_.!~*'()/" <==> c in MARKS || c == '/'
  {
    assert "-_.!~*'()/" == MARKS + "/";
  }

  lemma HexUpper(n: nat)
    requires n < 16
    ensures HexDigitise(n) == HEX_UPPER[n]
  {
  }

  /** An escape is read back in upper and lower case and in a mixture of both. */
  lemma EscapeRead(high: char, low: char, n: nat, rest: string)
    requires n < 256 && high in {HEX_UPPER[n / 16], HEX_LOWER[n / 16]} && low in {HEX_UPPER[n % 16], HEX_LOWER[n % 16]}
    ensures Dequoted(['%', high, low] + rest) == [n as char] + Dequoted(rest)
  {
    HexRead(high, n / 16);
    HexRead(low, n % 16);
    assert n / 16 * 16 + n % 16 == n;
    assert (['%', high, low] + rest)[3..] == rest;
  }

  lemma HexRead(c: char, n: nat)
    requires n < 16 && c in {HEX_UPPER[n], HEX_LOWER[n]}
    ensures HexDigit(c) == n && c != '\0'
  {
  }

  /** Any other character in an escape counts as zero. */
  lemma HexDigitsOnly(c: char)
    ensures HexDigit(c) != 0 ==> c in HEX_UPPER || c in HEX_LOWER
  {
    if HexDigit(c) != 0 {
      HexRead(HEX_UPPER[HexDigit(c)], HexDigit(c));
      assert c == HEX_UPPER[HexDigit(c)] || c == HEX_LOWER[HexDigit(c)];
    }
  }

  /** Other characters stand for themselves; a NUL or an escape that is cut short ends the text. */
  lemma DequotedEnds(c: char, rest: string)
    ensures c != '%' && c != '\0' ==> Dequoted([c] + rest) == [c] + Dequoted(rest)
    ensures Dequoted(['\0'] + rest) == "" && Dequoted("%") == "" && Dequoted(['%', c]) == ""
    ensures Dequoted(['%', '\0'] + rest) == "" && Dequoted(['%', c, '\0'] + rest) == ""
  {
    assert ([c] + rest)[1..] == rest;
  }

  // --- URIs without a path, and colons that end no scheme ---

  /** An authority that no slash follows is all there is. */
  lemma AuthorityAlone(scheme: string, a: string)
    requires '/' !in a
    ensures FromAuthority(scheme, a) == Parts(scheme, Dequoted(a), [])
  {
    IndexOfNone(a, '/');
  }

  lemma ParsedAuthorityAlone(scheme: string, authority: string)
    requires IsBytes(scheme) && '/' !in scheme && IsBytes(authority) && '/' !in authority
    ensures Parsed(Quoted(scheme) + "://" + Quoted(authority)) == Parts(scheme, authority, [])
  {
    var a := Quoted(authority);
    QuotedAlphabet(authority);
    DequotedQuoted(authority);
    DoubleSlash(Quoted(scheme), a);
    ParsedWithScheme(scheme, ['/'] + a);
    assert (['/'] + a)[1..] == a;
    AuthorityAlone(scheme, a);
  }

  /** A colon that no slash follows: what is before it becomes the scheme, and the whole text the path. */
  lemma ParsedColonInside(a: string, c: char, b: string)
    requires ':' !in a && '/' !in a && c != '/' && ':' !in b && '/' !in b
    ensures Parsed(a + [':', c] + b) == FromPath(Dequoted(a), "", a + [':', c] + b)
  {
    var s := a + [':', c] + b;
    BeforeColon(a, c, b);
    ScannedSkip(s, 0, |a|, "");
    ScannedSkip(s, |a| + 2, |s|, Dequoted(a));
  }

  lemma BeforeColon(a: string, c: char, b: string)
    requires ':' !in a && '/' !in a && ':' !in b && '/' !in b
    ensures var s := a + [':', c] + b;
            && s[..|a|] == a && s[|a|] == ':' && s[|a| + 1] == c
            && (forall i :: 0 <= i < |a| ==> s[i] != ':' && s[i] != '/')
            && (forall i :: |a| + 2 <= i < |s| ==> s[i] != ':' && s[i] != '/')
  {
    var s := a + [':', c] + b;
    forall i | 0 <= i < |a|
      ensures s[i] != ':' && s[i] != '/'
    {
      assert s[i] in a;
    }
    forall i | |a| + 2 <= i < |s|
      ensures s[i] != ':' && s[i] != '/'
    {
      assert s[i] == b[i - |a| - 2];
    }
  }
}
