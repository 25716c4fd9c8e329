/** File name globbing (lib/filelisterglob.hh). */
module Globs {
  import opened FileListers

  // --- what a pattern means ---

  /** What one character of a pattern may stand for. */
  ghost predicate Fits(c: char, part: string) {
    if c == '*' then true else if c == '?' then |part| == 1 else part == [c]
  }

  ghost function Flattened(parts: seq<string>): string {
    if parts == [] then "" else parts[0] + Flattened(parts[1..])
  }

  /** The name is cut into one part per pattern character, each part fitting its character. */
  ghost predicate MatchesBy(name: string, pattern: string, parts: seq<string>) {
    |parts| == |pattern| && Flattened(parts) == name && forall i :: 0 <= i < |parts| ==> Fits(pattern[i], parts[i])
  }

  ghost predicate Matches(name: string, pattern: string) {
    exists parts :: MatchesBy(name, pattern, parts)
  }

  lemma MatchesEmpty(name: string)
    ensures Matches(name, "") <==> name == ""
  {
    assert MatchesBy("", "", []);
  }

  /** The first pattern character takes the first k characters of the name. */
  lemma MatchesCons(name: string, pattern: string, k: nat)
    requires pattern != "" && k <= |name|
    requires Fits(pattern[0], name[..k]) && Matches(name[k..], pattern[1..])
    ensures Matches(name, pattern)
  {
    var parts :| MatchesBy(name[k..], pattern[1..], parts);
    var all := [name[..k]] + parts;
    assert all[1..] == parts && name == name[..k] + name[k..];
    assert MatchesBy(name, pattern, all);
  }

  lemma MatchesUncons(name: string, pattern: string) returns (k: nat)
    requires pattern != "" && Matches(name, pattern)
    ensures k <= |name| && Fits(pattern[0], name[..k]) && Matches(name[k..], pattern[1..])
  {
    var parts :| MatchesBy(name, pattern, parts);
    k := |parts[0]|;
    assert name == parts[0] + Flattened(parts[1..]);
    assert name[..k] == parts[0] && name[k..] == Flattened(parts[1..]);
    assert MatchesBy(name[k..], pattern[1..], parts[1..]);
  }

  lemma MatchesStar(name: string, pattern: string)
    requires pattern != "" && pattern[0] == '*'
    ensures Matches(name, pattern) <==> exists k :: 0 <= k <= |name| && Matches(name[k..], pattern[1..])
  {
    if Matches(name, pattern) {
      var k := MatchesUncons(name, pattern);
    }
    if k :| 0 <= k <= |name| && Matches(name[k..], pattern[1..]) {
      MatchesCons(name, pattern, k);
    }
  }

  lemma MatchesOne(name: string, pattern: string)
    requires pattern != "" && pattern[0] != '*'
    ensures Matches(name, pattern)
       <==> name != "" && (pattern[0] == '?' || pattern[0] == name[0]) && Matches(name[1..], pattern[1..])
  {
    if Matches(name, pattern) {
      var k := MatchesUncons(name, pattern);
      assert k == 1 && name[..1] == [name[0]];
    }
    if name != "" && (pattern[0] == '?' || pattern[0] == name[0]) && Matches(name[1..], pattern[1..]) {
      assert name[..1] == [name[0]];
      MatchesCons(name, pattern, 1);
    }
  }

  /** A run of stars is worth one star. */
  lemma MatchesTwoStars(name: string, pattern: string)
    requires |pattern| > 1 && pattern[0] == '*' && pattern[1] == '*'
    ensures Matches(name, pattern) <==> Matches(name, pattern[1..])
  {
    MatchesStar(name, pattern);
    if Matches(name, pattern) {
      var k :| 0 <= k <= |name| && Matches(name[k..], pattern[1..]);
      MatchesStar(name[k..], pattern[1..]);
      var j :| 0 <= j <= |name[k..]| && Matches(name[k..][j..], pattern[1..][1..]);
      assert name[k..][j..] == name[k + j..];
      MatchesStar(name, pattern[1..]);
    }
    if Matches(name, pattern[1..]) {
      assert name[0..] == name;
    }
  }

  // --- the matcher ---

  method Match(name: string, pattern: string) returns (matched: bool)
    ensures matched <==> Matches(name, pattern)
    decreases |pattern|
  {
    var n, p := 0, 0;
    assert name[0..] == name && pattern[0..] == pattern;
    while p < |pattern|
      invariant 0 <= n <= |name| && 0 <= p <= |pattern|
      invariant Matches(name, pattern) <==> Matches(name[n..], pattern[p..])
    {
      if pattern[p] == '*' {
        matched := MatchAfterStar(name[n..], pattern[p..]);
        return;
      }
      MatchesOne(name[n..], pattern[p..]);
      assert pattern[p..][1..] == pattern[p + 1..];
      if n == |name| {
        return false;
      }
      assert name[n..][1..] == name[n + 1..];
      if pattern[p] != '?' {
        if name[n] != pattern[p] {
          return false;
        }
      }
      n, p := n + 1, p + 1;
    }
    MatchesEmpty(name[n..]);
    return n == |name|;
  }

  /** The branch of the matcher that has met a star. */
  method MatchAfterStar(name: string, pattern: string) returns (matched: bool)
    requires pattern != "" && pattern[0] == '*'
    ensures matched <==> Matches(name, pattern)
    decreases |pattern|, 0
  {
    var p := 1;
    assert pattern[0..] == pattern;
    while p < |pattern| && pattern[p] == '*' // stop DoS attack
      invariant 1 <= p <= |pattern| && pattern[p - 1] == '*'
      invariant Matches(name, pattern) <==> Matches(name, pattern[p - 1..])
    {
      MatchesTwoStars(name, pattern[p - 1..]);
      assert pattern[p - 1..][1..] == pattern[p..];
      p := p + 1;
    }
    MatchesStar(name, pattern[p - 1..]);
    assert pattern[p - 1..][1..] == pattern[p..];
    if p == |pattern| {
      MatchesEmpty(name[|name|..]);
      return true;
    }
    var i := 0;
    while i < |name|
      invariant 0 <= i <= |name|
      invariant forall k :: 0 <= k < i ==> !Matches(name[k..], pattern[p..])
    {
      var here := Match(name[i..], pattern[p..]);
      if here {
        return true;
      }
      i := i + 1;
    }
    // the empty suffix is never tried: what follows the star run wants a character
    MatchesOne(name[|name|..], pattern[p..]);
    return false;
  }

  // --- the filtering lister ---

  ghost function Filtered(names: seq<string>, pattern: string): seq<string> {
    if names == [] then []
    else (if Matches(names[0], pattern) then [names[0]] else []) + Filtered(names[1..], pattern)
  }

  class GlobLister {
    const pattern: string
    const lister: Lister?

    ghost predicate Valid()
      reads this, lister
    {
      lister != null ==>
        lister.Valid() && (lister.Remaining() != [] ==> Matches(lister.Remaining()[0], pattern))
    }

    /** The matching names still to come. */
    ghost function Remaining(): seq<string>
      requires Valid()
      reads this, lister
    {
      if lister == null then [] else Filtered(lister.Remaining(), pattern)
    }

    constructor (pattern: string, lister: Lister?)
      requires lister != null ==> lister.Valid()
      modifies lister
      ensures Valid() && this.pattern == pattern && this.lister == lister
      ensures Remaining() == if lister == null then [] else Filtered(old(lister.Remaining()), pattern)
    {
      this.pattern, this.lister := pattern, lister;
      new;
      SkipTillMatch();
    }

    method SkipTillMatch()
      requires lister != null ==> lister.Valid()
      modifies lister
      ensures Valid()
      ensures lister != null ==> Remaining() == Filtered(old(lister.Remaining()), pattern)
    {
      if lister == null {
        return;
      }
      while !lister.Last()
        invariant lister.Valid()
        invariant Filtered(lister.Remaining(), pattern) == Filtered(old(lister.Remaining()), pattern)
        decreases |lister.Remaining()|
      {
        var matched := Match(lister.Name(), pattern);
        if matched {
          break;
        }
        lister.Next();
      }
    }

    predicate Last()
      requires Valid()
      reads this, lister
      ensures Last() <==> Remaining() == []
    {
      lister == null || lister.Last()
    }

    method Next()
      requires Valid()
      modifies lister
      ensures Valid() && Remaining() == if old(Remaining()) == [] then [] else old(Remaining())[1..]
    {
      if Last() {
        return;
      }
      assert old(lister.Remaining()) == [lister.Name()] + old(lister.Remaining())[1..];
      lister.Next();
      SkipTillMatch();
    }

    method Name() returns (name: string)
      requires Valid() && !Last()
      ensures Remaining() != [] && name == Remaining()[0]
    {
      name := lister.Name();
    }
  }

  /** Walking a whole glob listing visits exactly the matching names, in the original order. */
  method ListAll(pattern: string, lister: Lister) returns (visited: seq<string>)
    requires lister.Valid()
    modifies lister
    ensures visited == Filtered(old(lister.Remaining()), pattern)
  {
    var glob := new GlobLister(pattern, lister);
    visited := [];
    while !glob.Last()
      invariant glob.Valid() && glob.lister == lister
      invariant visited + glob.Remaining() == Filtered(old(lister.Remaining()), pattern)
      decreases |glob.Remaining()|
    {
      var name := glob.Name();
      visited := visited + [name];
      glob.Next();
    }
  }

  /** The filter keeps exactly the matching names. */
  lemma {:induction false} FilteredMember(names: seq<string>, pattern: string, name: string)
    ensures name in Filtered(names, pattern) <==> name in names && Matches(name, pattern)
  {
    if names != [] {
      FilteredMember(names[1..], pattern, name);
      assert names == [names[0]] + names[1..];
    }
  }

  /** The filter keeps the order and the multiplicity: it works on the parts of a listing separately. */
  lemma {:induction false} FilteredConcat(a: seq<string>, b: seq<string>, pattern: string)
    ensures Filtered(a + b, pattern) == Filtered(a, pattern) + Filtered(b, pattern)
  {
    if a == [] {
      assert a + b == b;
    } else {
      assert (a + b)[1..] == a[1..] + b;
      FilteredConcat(a[1..], b, pattern);
    }
  }
}
