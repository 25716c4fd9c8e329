/** The address text of PASV replies and PORT commands (src/ftpcontrol.cc), section 4.1.2 of RFC 959. */
module PortText {
  import opened Bytes
  import opened Decimal
  import opened Wrappers

  // --- strtoul with base 10, on a 64-bit unsigned long ---

  const ULONG_LIMIT := 0x1_0000_0000_0000_0000

  /** The value read and the number of characters used; without digits none are used. */
  function Strtoul(s: string): (r: (nat, nat))
    ensures r.1 <= |s|
  {
    if s == "" then (0, 0)
    else if IsSpace(s[0]) then
      var (v, used) := Strtoul(s[1..]);
      (v, if used == 0 then 0 else used + 1)
    else if s[0] == '-' || s[0] == '+' then
      var (v, digits) := ReadDigits(s[1..], 0);
      (Unsigned(v, s[0] == '-'), if digits == 0 then 0 else digits + 1)
    else
      var (v, digits) := ReadDigits(s, 0);
      (Unsigned(v, false), digits)
  }

  /** The unsigned long a number stands for; one out of range is ULONG_MAX whatever its sign. */
  function Unsigned(v: nat, negative: bool): nat {
    if v >= ULONG_LIMIT then ULONG_LIMIT - 1
    else if negative && v > 0 then ULONG_LIMIT - v
    else v
  }

  /** Conversion of an unsigned long to a 32-bit int. */
  function ToInt(v: nat): int {
    var low := v % 0x1_0000_0000;
    if low < 0x8000_0000 then low else low - 0x1_0000_0000
  }

  // --- the PORT parser ---

  /** One number of a PORT argument and the text after it; None when there is no byte there. */
  function PortByte(s: string): (r: Option<(nat, string)>)
    ensures r.Some? ==> r.value.0 < 256 && |r.value.1| <= |s|
  {
    var (v, used) := Strtoul(s);
    var ret := ToInt(v);
    if used == 0 || ret < 0 || ret > 255 then None else Some((ret, s[used..]))
  }

  /** n numbers separated by commas; anything may follow the last one. */
  function Fields(s: string, n: nat): (r: Option<seq<nat>>)
    requires n > 0
    ensures r.Some? ==> |r.value| == n
    decreases |s|
  {
    var b := PortByte(s);
    if b.None? then None
    else if n == 1 then Some([b.value.0])
    else if b.value.1 == "" || b.value.1[0] != ',' then None
    else Preceded([b.value.0], Fields(b.value.1[1..], n - 1))
  }

  ghost predicate IsByteSeq(bytes: seq<nat>) {
    forall i :: 0 <= i < |bytes| ==> bytes[i] < 256
  }

  function Preceded(start: seq<nat>, r: Option<seq<nat>>): Option<seq<nat>> {
    if r.None? then None else Some(start + r.value)
  }

  // --- words and their bytes ---

  /** Unsigned words as numbers: the original's shifts, masks and ors are products, quotients, remainders
      and sums here. */
  type Word32 = n: nat | n < 0x1_0000_0000
  type Word16 = n: nat | n < 0x1_0000

  /** A byte shifted left to its place; place 0 is the least significant. */
  function Placed(b: nat, place: nat): nat
    requires place < 4
  {
    if place == 3 then b * 0x100_0000 else if place == 2 then b * 0x1_0000 else if place == 1 then b * 0x100 else b
  }

  function ByteAt(ad: Word32, place: nat): (b: nat)
    requires place < 4
    ensures b < 256
  {
    (if place == 3 then ad / 0x100_0000 else if place == 2 then ad / 0x1_0000 else if place == 1 then ad / 0x100 else ad) % 256
  }

  /** The word being built from its more significant bytes. */
  function Word(bytes: seq<nat>): nat
    requires |bytes| <= 4
  {
    (if |bytes| > 0 then Placed(bytes[0], 3) else 0) + (if |bytes| > 1 then Placed(bytes[1], 2) else 0)
    + (if |bytes| > 2 then Placed(bytes[2], 1) else 0) + (if |bytes| > 3 then Placed(bytes[3], 0) else 0)
  }

  function Bytes6(ad: Word32, port: Word16): (r: seq<nat>)
    ensures |r| == 6 && IsByteSeq(r)
  {
    [ByteAt(ad, 3), ByteAt(ad, 2), ByteAt(ad, 1), ByteAt(ad, 0), port / 256 % 256, port % 256]
  }

  lemma WordStep(bytes: seq<nat>, b: nat)
    requires |bytes| < 4
    ensures Word(bytes + [b]) == Word(bytes) + Placed(b, 3 - |bytes|)
  {
  }

  /** Putting the bytes of a word back gives the word. */
  lemma WordOfBytes(ad: Word32, port: Word16)
    ensures Word(Bytes6(ad, port)[..4]) == ad
    ensures Bytes6(ad, port)[4] * 256 + Bytes6(ad, port)[5] == port
  {
    FourBytes(ad);
  }

  lemma FourBytes(ad: Word32)
    ensures ad == ad / 0x100_0000 % 256 * 0x100_0000 + ad / 0x1_0000 % 256 * 0x1_0000 + ad / 0x100 % 256 * 0x100 + ad % 256
  {
    var q := ad / 0x100;
    var r := q / 0x100;
    assert r == ad / 0x1_0000 && r / 0x100 == ad / 0x100_0000;
  }

  // --- the same on machine words ---

  /** Shifting an octet to its place is the product. */
  lemma ShiftIsProduct(b: bv32)
    requires b < 0x100
    ensures b << 24 == b * 0x100_0000 && b << 16 == b * 0x1_0000 && b << 8 == b * 0x100
  {
  }

  /** Shifting an octet out of a word and masking it is a quotient and a remainder. */
  lemma MaskIsRemainder(ad: bv32, port: bv16)
    ensures (ad >> 24) & 0xff == ad / 0x100_0000 % 0x100 && (ad >> 16) & 0xff == ad / 0x1_0000 % 0x100
    ensures (ad >> 8) & 0xff == ad / 0x100 % 0x100 && ad & 0xff == ad % 0x100
    ensures (port >> 8) & 0xff == port / 0x100 % 0x100 && port & 0xff == port % 0x100
  {
  }

  /** Or-ing words that share no bit is adding them. */
  lemma OrIsSum(x: bv32, y: bv32)
    requires x & y == 0
    ensures x | y == x + y
  {
  }

  /** The parser ors an octet into a word whose bits from that place down are still clear, so they share no
      bit, and the bits below the place stay clear for the next one. */
  lemma OctetsApart(h: bv32, b: bv32)
    requires b < 0x100
    ensures 0 & (b << 24) == 0 && (0 | (b << 24)) & 0xff_ffff == 0
    ensures h & 0xff_ffff == 0 ==> h & (b << 16) == 0 && (h | (b << 16)) & 0xffff == 0
    ensures h & 0xffff == 0 ==> h & (b << 8) == 0 && (h | (b << 8)) & 0xff == 0
    ensures h & 0xff == 0 ==> h & b == 0
  {
  }

  /** The word that the parser ors together from four octets is their sum, each times its place value. */
  lemma OrLoopIsSum(b3: bv32, b2: bv32, b1: bv32, b0: bv32)
    requires b3 < 0x100 && b2 < 0x100 && b1 < 0x100 && b0 < 0x100
    ensures (((0 | (b3 << 24)) | (b2 << 16)) | (b1 << 8)) | b0
         == (((0 + (b3 << 24)) + (b2 << 16)) + (b1 << 8)) + b0
  {
    var h3 := 0 | (b3 << 24);
    OctetsApart(0, b3);
    OrIsSum(0, b3 << 24);
    var h2 := h3 | (b2 << 16);
    OctetsApart(h3, b2);
    OrIsSum(h3, b2 << 16);
    var h1 := h2 | (b1 << 8);
    OctetsApart(h2, b1);
    OrIsSum(h2, b1 << 8);
    OctetsApart(h1, b0);
    OrIsSum(h1, b0);
  }

  /** The same for the port. */
  lemma OrIsPortSum(b: bv16, c: bv16)
    requires b < 0x100 && c < 0x100
    ensures (0 | (b << 8)) | c == b * 0x100 + c
  {
  }

  /** Or-ing the shifted octets of a word gives the word. */
  lemma OrOfOctets(ad: bv32, port: bv16)
    ensures (((ad >> 24) & 0xff) << 24) | (((ad >> 16) & 0xff) << 16) | (((ad >> 8) & 0xff) << 8) | (ad & 0xff) == ad
    ensures (((port >> 8) & 0xff) << 8) | (port & 0xff) == port
  {
  }

  // --- the commands ---

  function ParsedPort(argument: string): Option<(nat, nat)> {
    var f := Fields(CString(argument), 6);
    if f.None? then None else Some((Word(f.value[..4]), f.value[4] * 256 + f.value[5]))
  }

  method ParsePort(argument: string) returns (r: Option<(nat, nat)>)
    ensures r == ParsedPort(argument)
  {
    var haddr := 0;
    var text := CString(argument);
    var s := text;
    ghost var read: seq<nat> := [];
    PrecededEmpty(Fields(s, 6));
    var i := 3;
    while i >= 0
      invariant -1 <= i <= 3 && |read| == 3 - i
      invariant haddr == Word(read)
      invariant Fields(text, 6) == Preceded(read, Fields(s, 3 + i))
    {
      var b := PortByte(s);
      if b.None? || b.value.1 == "" || b.value.1[0] != ',' {
        return None;
      }
      haddr := haddr + Placed(b.value.0, i);
      PrecededTwice(read, [b.value.0], Fields(b.value.1[1..], 2 + i));
      WordStep(read, b.value.0);
      read := read + [b.value.0];
      s := b.value.1[1..];
      i := i - 1;
    }
    var hport := ParseTwoBytes(s, read);
    if hport.None? {
      return None;
    }
    return Some((haddr, hport.value));
  }

  /** The part of the parser after the address. */
  method ParseTwoBytes(s: string, ghost read: seq<nat>) returns (hport: Option<nat>)
    requires |read| == 4
    ensures var f := Preceded(read, Fields(s, 2));
            if f.None? then hport.None? else hport == Some(f.value[4] * 256 + f.value[5]) && f.value[..4] == read
  {
    FieldsTwo(s);
    var b := PortByte(s);
    if b.None? || b.value.1 == "" || b.value.1[0] != ',' {
      return None;
    }
    var c := PortByte(b.value.1[1..]);
    if c.None? {
      return None;
    }
    assert (read + [b.value.0, c.value.0])[..4] == read;
    return Some(b.value.0 * 256 + c.value.0);
  }

  lemma FieldsTwo(s: string)
    ensures Fields(s, 2)
         == var b := PortByte(s);
            if b.None? || b.value.1 == "" || b.value.1[0] != ',' then None
            else
              var c := PortByte(b.value.1[1..]);
              if c.None? then None else Some([b.value.0, c.value.0])
  {
    var b := PortByte(s);
    if b.Some? && b.value.1 != "" && b.value.1[0] == ',' {
      var c := PortByte(b.value.1[1..]);
      assert Fields(b.value.1[1..], 1) == if c.None? then None else Some([c.value.0]);
      if c.Some? {
        assert [b.value.0] + [c.value.0] == [b.value.0, c.value.0];
      }
    }
  }

  lemma PrecededEmpty(r: Option<seq<nat>>)
    ensures Preceded([], r) == r
  {
    if r.Some? {
      assert [] + r.value == r.value;
    }
  }

  lemma PrecededTwice(a: seq<nat>, b: seq<nat>, r: Option<seq<nat>>)
    ensures Preceded(a, Preceded(b, r)) == Preceded(a + b, r)
  {
    if r.Some? {
      assert a + (b + r.value) == a + b + r.value;
    }
  }

  /** Numbers printed in decimal with commas between them. */
  function Listed(bytes: seq<nat>): string {
    if bytes == [] then ""
    else if |bytes| == 1 then Print(bytes[0])
    else Print(bytes[0]) + "," + Listed(bytes[1..])
  }

  method CommaDumpAddr(ad: Word32, port: Word16) returns (s: string)
    ensures s == Listed(Bytes6(ad, port))
  {
    ghost var bytes := Bytes6(ad, port);
    s := "";
    var i := 3;
    while i >= 0
      invariant -1 <= i <= 3
      invariant s + Listed(bytes[3 - i..]) == Listed(bytes)
    {
      ListedStep(s, bytes[3 - i..]);
      s := s + Print(ByteAt(ad, i)) + ",";
      i := i - 1;
    }
    ListedStep(s, bytes[4..]);
    s := s + Print(port / 256 % 256) + ",";
    assert Listed(bytes[4..][1..]) == Print(bytes[5]);
    s := s + Print(port % 256);
  }

  lemma ListedStep(s: string, bytes: seq<nat>)
    requires |bytes| > 1
    ensures s + Listed(bytes) == s + Print(bytes[0]) + "," + Listed(bytes[1..])
  {
    Regroup(s, Print(bytes[0]), ",");
    Regroup(s, Print(bytes[0]) + ",", Listed(bytes[1..]));
  }

  // --- round trip ---

  lemma StrtoulOfPrint(n: nat, tail: string)
    requires n < ULONG_LIMIT
    requires tail == "" || !IsDigit(tail[0])
    ensures Strtoul(Print(n) + tail) == (n, |Print(n)|)
    ensures Print(n) != ""
  {
    var s := Print(n) + tail;
    ReadPrinted(n, tail);
    assert ReadDigits(tail, n) == (n, 0);
    assert IsDigit(s[0]) by { assert s[0] == Print(n)[0]; }
  }

  lemma PortByteOfPrint(n: nat, tail: string)
    requires n < 256
    requires tail == "" || !IsDigit(tail[0])
    ensures PortByte(Print(n) + tail) == Some((n, tail))
  {
    StrtoulOfPrint(n, tail);
    PortByteIs(Print(n) + tail, n, |Print(n)|);
    assert (Print(n) + tail)[|Print(n)|..] == tail;
  }

  lemma PortByteIs(s: string, v: nat, used: nat)
    requires Strtoul(s) == (v, used) && used != 0 && v < 256
    ensures used <= |s| && PortByte(s) == Some((v, s[used..]))
  {
    SmallInt(v);
  }

  lemma SmallInt(v: nat)
    requires v < 256
    ensures ToInt(v) == v
  {
  }

  lemma FieldsCons(n: nat, tail: string, count: nat)
    requires n < 256 && count > 1
    ensures Fields(Print(n) + "," + tail, count) == Preceded([n], Fields(tail, count - 1))
  {
    Regroup(Print(n), ",", tail);
    assert ("," + tail)[0] == ',' && ("," + tail)[1..] == tail;
    PortByteOfPrint(n, "," + tail);
  }

  lemma FieldsOne(n: nat)
    requires n < 256
    ensures Fields(Print(n), 1) == Some([n])
  {
    PortByteOfPrint(n, "");
    assert Print(n) + "" == Print(n);
  }

  lemma {:induction false} FieldsOfListed(bytes: seq<nat>)
    requires bytes != [] && IsByteSeq(bytes)
    ensures Fields(Listed(bytes), |bytes|) == Some(bytes)
  {
    if |bytes| == 1 {
      FieldsOfSingle(bytes);
    } else {
      FieldsOfListed(bytes[1..]);
      FieldsOfMore(bytes);
    }
  }

  lemma FieldsOfSingle(bytes: seq<nat>)
    requires |bytes| == 1 && IsByteSeq(bytes)
    ensures Fields(Listed(bytes), |bytes|) == Some(bytes)
  {
    FieldsOne(bytes[0]);
    assert bytes == [bytes[0]];
  }

  lemma FieldsOfMore(bytes: seq<nat>)
    requires |bytes| > 1 && IsByteSeq(bytes) && Fields(Listed(bytes[1..]), |bytes[1..]|) == Some(bytes[1..])
    ensures Fields(Listed(bytes), |bytes|) == Some(bytes)
  {
    FieldsCons(bytes[0], Listed(bytes[1..]), |bytes|);
    assert bytes == [bytes[0]] + bytes[1..];
  }

  lemma {:induction false} ListedHasNoNul(bytes: seq<nat>)
    ensures '\0' !in Listed(bytes)
  {
    if bytes != [] {
      ReadPrinted(bytes[0], "");
      ListedHasNoNul(bytes[1..]);
    }
  }

  lemma ParsedListed(bytes: seq<nat>)
    requires |bytes| == 6 && IsByteSeq(bytes)
    ensures ParsedPort(Listed(bytes)) == Some((Word(bytes[..4]), bytes[4] * 256 + bytes[5]))
  {
    var text := Listed(bytes);
    ListedHasNoNul(bytes);
    CStringWithoutNul(text);
    FieldsOfListed(bytes);
  }

  /** The PORT parser reads back the address and port that a PASV reply prints. */
  lemma PortReadsPasv(ad: Word32, port: Word16)
    ensures ParsedPort(Listed(Bytes6(ad, port))) == Some((ad, port))
  {
    ParsedListed(Bytes6(ad, port));
    WordOfBytes(ad, port);
  }

  // --- EPRT, section 2 of RFC 2428 ---

  /** What the system's inet_pton makes of an address. */
  type Pton = string -> Option<nat>

  /** The replies to an EPRT and what is then in the address of active mode. */
  datatype Eprt = Eprt(replies: seq<string>, addr: SockAddr)

  datatype SockAddr = SockAddr(inet: bool, ip: nat, port: nat)

  const NO_ADDR := SockAddr(false, 0, 0)

  /** Reading memory through a char pointer; what nobody put there reads as NUL. */
  function At(m: string, i: nat): char {
    if i < |m| then m[i] else '\0'
  }

  function From(m: string, i: nat): string {
    if i <= |m| then m[i..] else ""
  }

  /** How far a text goes before a NUL or the delimiter. */
  function UpTo(s: string, delim: char): (k: nat)
    ensures k <= |s|
  {
    if s == "" || s[0] == '\0' || s[0] == delim then 0 else 1 + UpTo(s[1..], delim)
  }

  /** The argument as a C string with what happens to follow it in memory, which is read when the argument
      ends after the protocol. A wrong delimiter there is answered, but does not end the command. */
  function ParsedEprt(m: string, pton: Pton): Eprt {
    var delim, prot := At(m, 0), At(m, 1);
    if prot == '\0' || prot == delim then Eprt(["501"], NO_ADDR)
    else if prot != '1' then Eprt(["522"], NO_ADDR)
    else
      var rest := From(m, 3);
      var k := UpTo(rest, delim);
      var last := ParsedEprtRest(rest[..k], rest[k..], delim, pton);
      Eprt(if At(m, 2) != delim then ["522"] + last.replies else last.replies, last.addr)
  }

  /** The part after the address. */
  function ParsedEprtRest(address: string, rest: string, delim: char, pton: Pton): Eprt {
    var ip := pton(address);
    if ip.None? then Eprt(["501"], NO_ADDR.(inet := true))
    else if At(rest, 0) == '\0' then Eprt(["501"], SockAddr(true, ip.value, 0))
    else
      var (v, used) := Strtoul(From(rest, 1));
      if used == 0 || At(rest, 1 + used) != delim then Eprt(["501"], SockAddr(true, ip.value, 0))
      else Eprt(["200"], SockAddr(true, ip.value, v % 0x1_0000))
  }

  method ParseEprt(argument: string, beyond: string, pton: Pton) returns (r: Eprt)
    ensures r == ParsedEprt(argument + "\0" + beyond, pton)
  {
    var m := argument + "\0" + beyond;
    var delim, prot := At(m, 0), At(m, 1);
    if prot == '\0' || prot == delim {
      return Eprt(["501"], NO_ADDR);
    }
    if prot != '1' {
      return Eprt(["522"], NO_ADDR);
    }
    var replies := if At(m, 2) != delim then ["522"] else [];
    var rest, address, i := From(m, 3), "", 0;
    assert rest[0..] == rest;
    while i < |rest| && rest[i] != '\0' && rest[i] != delim
      invariant 0 <= i <= |rest| && address == rest[..i]
      invariant UpTo(rest, delim) == i + UpTo(rest[i..], delim)
    {
      address := address + [rest[i]];
      i := i + 1;
    }
    var last := ParseEprtRest(address, rest[i..], delim, pton);
    r := Eprt(replies + last.replies, last.addr);
  }

  method ParseEprtRest(address: string, rest: string, delim: char, pton: Pton) returns (r: Eprt)
    ensures r == ParsedEprtRest(address, rest, delim, pton)
  {
    var ip := pton(address);
    if ip.None? {
      return Eprt(["501"], SockAddr(true, 0, 0));
    }
    if At(rest, 0) == '\0' {
      return Eprt(["501"], SockAddr(true, ip.value, 0));
    }
    var (v, used) := Strtoul(From(rest, 1));
    if used == 0 || At(rest, 1 + used) != delim {
      return Eprt(["501"], SockAddr(true, ip.value, 0));
    }
    return Eprt(["200"], SockAddr(true, ip.value, v % 0x1_0000));
  }

  /** The text of an EPRT argument. */
  function EprtText(delim: char, address: string, port: Word16): string {
    [delim, '1', delim] + (address + ([delim] + (Print(port) + [delim])))
  }

  lemma {:induction false} UpToAt(s: string, c: char, rest: string)
    requires c !in s && '\0' !in s
    ensures UpTo(s + ([c] + rest), c) == |s|
  {
    if s != "" {
      assert s[0] in s;
      assert (s + ([c] + rest))[1..] == s[1..] + ([c] + rest);
      UpToAt(s[1..], c, rest);
    }
  }

  /** An address and a port written as an EPRT argument are read back, with any delimiter that is no digit
      and does not occur in the address, and whatever follows in memory. */
  lemma EprtReadsBack(delim: char, address: string, port: Word16, beyond: string, pton: Pton)
    requires !IsDigit(delim) && delim != '\0' && delim !in address && '\0' !in address && pton(address).Some?
    ensures ParsedEprt(EprtText(delim, address, port) + "\0" + beyond, pton)
         == Eprt(["200"], SockAddr(true, pton(address).value, port))
  {
    var tail := "\0" + beyond;
    var rest := Print(port) + ([delim] + tail);
    var m := EprtText(delim, address, port) + "\0" + beyond;
    EprtRegrouped(delim, address, Print(port), beyond);
    EprtHead(delim, address + ([delim] + rest));
    UpToAt(address, delim, rest);
    assert (address + ([delim] + rest))[..|address|] == address;
    assert (address + ([delim] + rest))[|address|..] == [delim] + rest;
    EprtPortReadsBack(delim, address, port, tail, pton);
  }

  lemma EprtHead(delim: char, rest: string)
    ensures var m := [delim, '1', delim] + rest;
            At(m, 0) == delim && At(m, 1) == '1' && At(m, 2) == delim && From(m, 3) == rest
  {
  }

  lemma EprtRegrouped(delim: char, address: string, port: string, beyond: string)
    ensures [delim, '1', delim] + (address + ([delim] + (port + [delim]))) + "\0" + beyond
         == [delim, '1', delim] + (address + ([delim] + (port + ([delim] + ("\0" + beyond)))))
  {
    var head, tail := [delim, '1', delim], "\0" + beyond;
    Regroup(head + (address + ([delim] + (port + [delim]))), "\0", beyond);
    Regroup(head, address + ([delim] + (port + [delim])), tail);
    Regroup(address, [delim] + (port + [delim]), tail);
    Regroup([delim], port + [delim], tail);
    Regroup(port, [delim], tail);
  }

  lemma EprtPortReadsBack(delim: char, address: string, port: Word16, tail: string, pton: Pton)
    requires !IsDigit(delim) && delim != '\0' && pton(address).Some?
    ensures ParsedEprtRest(address, [delim] + (Print(port) + ([delim] + tail)), delim, pton)
         == Eprt(["200"], SockAddr(true, pton(address).value, port))
  {
    var number := Print(port) + ([delim] + tail);
    Behind(delim, number, |Print(port)|);
    FirstAfter(Print(port), delim, tail);
    StrtoulOfPrint(port, [delim] + tail);
    PortAccepted(address, [delim] + number, delim, pton, port, |Print(port)|);
  }

  lemma PortAccepted(address: string, rest: string, delim: char, pton: Pton, v: Word16, used: nat)
    requires pton(address).Some? && At(rest, 0) == delim != '\0'
    requires Strtoul(From(rest, 1)) == (v, used) && used != 0 && At(rest, 1 + used) == delim
    ensures ParsedEprtRest(address, rest, delim, pton) == Eprt(["200"], SockAddr(true, pton(address).value, v))
  {
  }

  lemma Behind(c: char, s: string, k: nat)
    ensures At([c] + s, 0) == c && At([c] + s, 1 + k) == At(s, k) && From([c] + s, 1) == s
  {
  }

  lemma FirstAfter(a: string, c: char, rest: string)
    ensures At(a + ([c] + rest), |a|) == c
  {
  }

  /** There are two replies exactly when the protocol is not followed by the delimiter before it. */
  lemma EprtAnswersTwice(m: string, pton: Pton)
    ensures |ParsedEprt(m, pton).replies| == if At(m, 0) != '1' && At(m, 1) == '1' && At(m, 2) != At(m, 0) then 2 else 1
  {
  }

  /** Without a number there is no position: what REST stores with a 501 is zero. */
  lemma {:induction false} NoDigitsNoValue(s: string)
    ensures Strtoul(s).1 == 0 ==> Strtoul(s).0 == 0
  {
    if s != "" && IsSpace(s[0]) {
      NoDigitsNoValue(s[1..]);
    }
  }

  // --- what else is read, and what is refused ---

  lemma {:induction false} StrtoulAfterSpaces(spaces: string, text: string)
    requires AllSpaces(spaces) && Strtoul(text).1 > 0
    ensures Strtoul(spaces + text) == (Strtoul(text).0, |spaces| + Strtoul(text).1)
  {
    if spaces == "" {
      assert spaces + text == text;
    } else {
      assert (spaces + text)[1..] == spaces[1..] + text;
      StrtoulAfterSpaces(spaces[1..], text);
    }
  }

  /** strtoul reads white space, one sign and digits; a number out of range is the greatest one, and a negative
      one wraps around. */
  lemma StrtoulReads(spaces: string, sign: string, n: nat, tail: string)
    requires AllSpaces(spaces) && sign in {"", "+", "-"} && (tail == "" || !IsDigit(tail[0]))
    ensures var (v, used) := Strtoul(spaces + (sign + (Print(n) + tail)));
            && v == (if n >= ULONG_LIMIT then ULONG_LIMIT - 1 else if sign == "-" && n > 0 then ULONG_LIMIT - n else n)
            && used == |spaces| + (|sign| + |Print(n)|)
  {
    var text := sign + (Print(n) + tail);
    SignedReads(sign, n, tail);
    UnsignedIs(n, sign == "-");
    ReadsAfterSpaces(spaces, text, Unsigned(n, sign == "-"), |sign| + |Print(n)|);
  }

  lemma ReadsAfterSpaces(spaces: string, text: string, v: nat, used: nat)
    requires AllSpaces(spaces) && Strtoul(text).0 == v && Strtoul(text).1 == used > 0
    ensures Strtoul(spaces + text).0 == v && Strtoul(spaces + text).1 == |spaces| + used
  {
    StrtoulAfterSpaces(spaces, text);
  }

  lemma UnsignedIs(v: nat, negative: bool)
    ensures Unsigned(v, negative)
         == if v >= ULONG_LIMIT then ULONG_LIMIT - 1 else if negative && v > 0 then ULONG_LIMIT - v else v
  {
  }

  lemma SignedReads(sign: string, n: nat, tail: string)
    requires sign in {"", "+", "-"} && (tail == "" || !IsDigit(tail[0]))
    ensures var (v, used) := Strtoul(sign + (Print(n) + tail));
            v == Unsigned(n, sign == "-") && used == |sign| + |Print(n)| > 0
  {
    var text := Print(n) + tail;
    ReadPrinted(n, tail);
    assert ReadDigits(tail, n) == (n, 0);
    assert text[0] == Print(n)[0] && IsDigit(text[0]);
    if sign == "" {
      assert sign + text == text;
    } else {
      assert (sign + text)[1..] == text;
    }
  }

  /** The int has 32 bits, and differs from the unsigned long by a multiple of 2^32. */
  lemma ToIntIs(v: nat)
    ensures -0x8000_0000 <= ToInt(v) < 0x8000_0000 && (ToInt(v) - v) % 0x1_0000_0000 == 0
  {
    var low := v % 0x1_0000_0000;
    var high := v / 0x1_0000_0000;
    assert v == high * 0x1_0000_0000 + low;
    if low < 0x8000_0000 {
      Multiple(-high);
    } else {
      Multiple(-high - 1);
    }
  }

  lemma Multiple(k: int)
    ensures k * 0x1_0000_0000 % 0x1_0000_0000 == 0
  {
  }

  /** A printed number is accepted as a byte exactly when its lower word is one. */
  lemma PortByteExactly(n: nat, tail: string)
    requires n < ULONG_LIMIT && (tail == "" || !IsDigit(tail[0]))
    ensures PortByte(Print(n) + tail)
         == if n % 0x1_0000_0000 < 256 then Some((n % 0x1_0000_0000, tail)) else None
  {
    StrtoulOfPrint(n, tail);
    assert (Print(n) + tail)[|Print(n)|..] == tail;
    PortByteOf(Print(n) + tail, n, |Print(n)|);
  }

  lemma PortByteOf(s: string, v: nat, used: nat)
    requires Strtoul(s) == (v, used) && used != 0
    ensures used <= |s|
    ensures PortByte(s) == if v % 0x1_0000_0000 < 256 then Some((v % 0x1_0000_0000, s[used..])) else None
  {
    LowWord(v);
  }

  lemma LowWord(v: nat)
    ensures 0 <= ToInt(v) <= 255 <==> v % 0x1_0000_0000 < 256
    ensures v % 0x1_0000_0000 < 256 ==> ToInt(v) == v % 0x1_0000_0000
  {
  }

  function Commas(s: string): nat {
    if s == "" then 0 else Commas(s[1..]) + if s[0] == ',' then 1 else 0
  }

  lemma {:induction false} CommasAfter(s: string, k: nat)
    requires k <= |s|
    ensures Commas(s[k..]) <= Commas(s)
    decreases k
  {
    if k == 0 {
      assert s[k..] == s;
    } else {
      assert s[k..] == s[1..][k - 1..];
      CommasAfter(s[1..], k - 1);
    }
  }

  /** Numbers are accepted only with commas between them. */
  lemma {:induction false} FieldsNeedCommas(s: string, n: nat)
    requires n > 0 && Fields(s, n).Some?
    ensures Commas(s) >= n - 1
    decreases n
  {
    if n > 1 {
      var rest := PortByte(s).value.1;
      FieldsNeedCommas(rest[1..], n - 1);
      CommasAfter(s, |s| - |rest|);
      assert s[|s| - |rest|..] == rest;
    }
  }

  /** An EPRT without protocol, or with another one than 1, leaves no address. */
  lemma EprtProtocolRefused(m: string, pton: Pton)
    ensures At(m, 1) == '\0' || At(m, 1) == At(m, 0) ==> ParsedEprt(m, pton) == Eprt(["501"], SockAddr(false, 0, 0))
    ensures At(m, 1) != '\0' && At(m, 1) != At(m, 0) && At(m, 1) != '1' ==>
              ParsedEprt(m, pton) == Eprt(["522"], SockAddr(false, 0, 0))
  {
  }

  /** One with an address that the system does not know, or without a number and the delimiter after the
      address, has no port. */
  lemma EprtAddressRefused(delim: char, address: string, rest: string, pton: Pton)
    requires delim != '1' && delim != '\0' && delim !in address && '\0' !in address
    ensures var r := ParsedEprt([delim, '1', delim] + (address + ([delim] + rest)), pton);
            && (pton(address).None? ==> r == Eprt(["501"], SockAddr(true, 0, 0)))
            && (pton(address).Some? && Strtoul(rest).1 == 0 ==> r == Eprt(["501"], SockAddr(true, pton(address).value, 0)))
            && (pton(address).Some? && Strtoul(rest).1 > 0 && At(rest, Strtoul(rest).1) != delim ==>
                  r == Eprt(["501"], SockAddr(true, pton(address).value, 0)))
  {
    EprtHead(delim, address + ([delim] + rest));
    UpToAt(address, delim, rest);
    assert (address + ([delim] + rest))[..|address|] == address;
    assert (address + ([delim] + rest))[|address|..] == [delim] + rest;
    Behind(delim, rest, Strtoul(rest).1);
  }
}
