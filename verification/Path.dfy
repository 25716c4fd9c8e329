/** Virtual paths (lib/path.cc, lib/path.hh): a list of names that every append normalises. */
module Paths {
  import opened Bytes

  ghost predicate NormalName(name: string) {
    name != "" && name != "." && name != ".." && '/' !in name
  }

  ghost predicate Normal(p: seq<string>) {
    forall i :: 0 <= i < |p| ==> NormalName(p[i])
  }

  /** What one name between slashes does to a path. */
  function WithName(p: seq<string>, name: string): seq<string> {
    if name == "" || name == "." then p
    else if name == ".." then if p == [] then p else p[..|p| - 1]
    else p + [name]
  }

  /** One more character read by the splitter: a slash starts a new piece. */
  function Grown(ps: seq<string>, c: char): (r: seq<string>)
    requires |ps| > 0
    ensures |r| > 0
  {
    if c == '/' then ps + [""] else ps[..|ps| - 1] + [ps[|ps| - 1] + [c]]
  }

  /** The pieces of a string between its slashes; always at least one. */
  function Pieces(s: string): (ps: seq<string>)
    ensures |ps| > 0
    ensures forall i :: 0 <= i < |ps| ==> '/' !in ps[i]
  {
    if s == "" then [""] else Grown(Pieces(s[..|s| - 1]), s[|s| - 1])
  }

  function Walk(p: seq<string>, names: seq<string>): seq<string> {
    if names == [] then p
    else WithName(Walk(p, names[..|names| - 1]), names[|names| - 1])
  }

  function Appended(p: seq<string>, s: string): seq<string> {
    Walk(p, Pieces(s))
  }

  function Chdired(p: seq<string>, s: string): seq<string> {
    if s == "" then p else Appended(if s[0] == '/' then [] else p, s)
  }

  function Joined(p: seq<string>): string {
    if p == [] then ""
    else if |p| == 1 then p[0]
    else Joined(p[..|p| - 1]) + "/" + p[|p| - 1]
  }

  /** Where a chain of chdirs leads. */
  function ChdirChain(p: seq<string>, dirs: seq<string>): seq<string>
    decreases |dirs|
  {
    if dirs == [] then p else ChdirChain(Chdired(p, dirs[0]), dirs[1..])
  }

  // --- the class ---

  class Path {
    var names: seq<string>

    constructor ()
      ensures names == []
    {
      names := [];
    }

    constructor FromString(dir: string)
      ensures names == Appended([], dir)
    {
      names := [];
      new;
      Append(dir);
    }

    constructor FromStrings(dir: string, then_: string)
      ensures names == Chdired(Appended([], dir), then_)
    {
      names := [];
      new;
      Append(dir);
      Chdir(then_);
    }

    constructor FromPath(dir: Path, then_: string)
      ensures names == Chdired(dir.names, then_)
    {
      names := dir.names;
      new;
      Chdir(then_);
    }

    method Clear()
      modifies this
      ensures names == []
    {
      names := [];
    }

    method AppendOne(name: string)
      modifies this
      ensures names == WithName(old(names), name)
    {
      if name == "" || name == "." {
        return;
      }
      if name == ".." {
        if names != [] {
          names := names[..|names| - 1];
        }
        return;
      }
      names := names + [name];
    }

    method Append(name: string)
      modifies this
      ensures names == Appended(old(names), name)
    {
      var start, i := 0, 0;
      while i < |name|
        invariant 0 <= start <= i <= |name| && Scanned(old(names), name[..i], name[start..i])
      {
        start := Scan(old(names), name, start, i);
        i := i + 1;
      }
      assert name[..i] == name && name[start..i] == name[start..];
      if start != |name| {
        AppendOne(name[start..]);
      }
    }

    /** All pieces of the text but the last have been walked, and the last one is at hand. */
    ghost predicate Scanned(before: seq<string>, text: string, piece: string)
      reads this
    {
      var ps := Pieces(text);
      piece == ps[|ps| - 1] && names == Walk(before, ps[..|ps| - 1])
    }

    /** One turn of the loop: a slash appends the piece before it. */
    method Scan(ghost before: seq<string>, name: string, start: nat, i: nat) returns (next: nat)
      requires start <= i < |name| && Scanned(before, name[..i], name[start..i])
      modifies this
      ensures next <= i + 1 && Scanned(before, name[..i + 1], name[next..i + 1])
    {
      ghost var ps := Pieces(name[..i]);
      TakeMore(name, i);
      PiecesSnoc(name[..i], name[i]);
      next := start;
      if name[i] == '/' {
        if i != start {
          AppendOne(name[start..i]);
        }
        assert names == Walk(before, ps);
        assert (ps + [""])[..|ps|] == ps;
        next := i + 1;
      } else {
        SliceMore(name, start, i);
        assert (ps[..|ps| - 1] + [name[start..i + 1]])[..|ps| - 1] == ps[..|ps| - 1];
      }
    }

    method Chdir(elem: string)
      modifies this
      ensures names == Chdired(old(names), elem)
    {
      if elem == "" {
        return;
      }
      if elem[0] == '/' {
        Clear();
      }
      Append(elem);
    }

    method Str() returns (ret: string)
      ensures ret == Joined(names)
    {
      ret := "";
      if names == [] {
        return;
      }
      ret := names[0];
      var i := 1;
      while i < |names|
        invariant 1 <= i <= |names|
        invariant ret == Joined(names[..i])
      {
        assert names[..i + 1][..i] == names[..i];
        ret := ret + "/" + names[i];
        i := i + 1;
      }
      assert names[..i] == names;
    }
  }

  // --- properties ---

  lemma {:induction false} WalkIsNormal(p: seq<string>, names: seq<string>)
    requires Normal(p)
    requires forall i :: 0 <= i < |names| ==> '/' !in names[i]
    ensures Normal(Walk(p, names))
  {
    if names != [] {
      WalkIsNormal(p, names[..|names| - 1]);
    }
  }

  lemma {:induction false} WalkConcat(p: seq<string>, a: seq<string>, b: seq<string>)
    ensures Walk(p, a + b) == Walk(Walk(p, a), b)
  {
    if b == [] {
      assert a + b == a;
    } else {
      assert (a + b)[..|a + b| - 1] == a + b[..|b| - 1];
      WalkConcat(p, a, b[..|b| - 1]);
    }
  }

  lemma GrownConcat(a: seq<string>, b: seq<string>, c: char)
    requires |b| > 0
    ensures Grown(a + b, c) == a + Grown(b, c)
  {
    assert (a + b)[..|a + b| - 1] == a + b[..|b| - 1];
  }

  lemma PiecesSnoc(s: string, c: char)
    ensures Pieces(s + [c]) == Grown(Pieces(s), c)
  {
    assert (s + [c])[..|s + [c]| - 1] == s;
  }

  lemma {:induction false} PiecesConcat(a: string, b: string)
    ensures Pieces(a + "/" + b) == Pieces(a) + Pieces(b)
  {
    if b == "" {
      assert a + "/" + b == a + ['/'];
      PiecesSnoc(a, '/');
    } else {
      PiecesConcat(a, b[..|b| - 1]);
      PiecesConcatSnoc(a, b[..|b| - 1], b[|b| - 1]);
      assert b == b[..|b| - 1] + [b[|b| - 1]];
    }
  }

  lemma PiecesConcatSnoc(a: string, b: string, c: char)
    requires Pieces(a + "/" + b) == Pieces(a) + Pieces(b)
    ensures Pieces(a + "/" + (b + [c])) == Pieces(a) + Pieces(b + [c])
  {
    assert a + "/" + (b + [c]) == a + "/" + b + [c];
    PiecesSnoc(a + "/" + b, c);
    PiecesSnoc(b, c);
    GrownConcat(Pieces(a), Pieces(b), c);
  }

  lemma {:induction false} PiecesOfName(s: string)
    requires '/' !in s
    ensures Pieces(s) == [s]
  {
    if s != "" {
      var front, c := s[..|s| - 1], s[|s| - 1];
      assert c in s && s == front + [c];
      PiecesOfName(front);
      PiecesSnoc(front, c);
      GrownName(front, c);
    }
  }

  lemma GrownName(s: string, c: char)
    requires c != '/'
    ensures Grown([s], c) == [s + [c]]
  {
  }

  lemma {:induction false} PiecesOfJoined(p: seq<string>)
    requires p != [] && Normal(p)
    ensures Pieces(Joined(p)) == p
  {
    var front, last := p[..|p| - 1], p[|p| - 1];
    assert p == front + [last] && '/' !in last;
    PiecesOfName(last);
    if |p| > 1 {
      PiecesOfJoined(front);
      PiecesConcat(Joined(front), last);
      assert Joined(p) == Joined(front) + "/" + last;
    }
  }

  lemma {:induction false} WalkNormal(p: seq<string>)
    requires Normal(p)
    ensures Walk([], p) == p
  {
    if p != [] {
      WalkNormal(p[..|p| - 1]);
    }
  }

  lemma ChdirIsNormal(p: seq<string>, dir: string)
    requires Normal(p)
    ensures Normal(Chdired(p, dir))
  {
    if dir != "" {
      WalkIsNormal(if dir[0] == '/' then [] else p, Pieces(dir));
    }
  }

  /** No chain of chdirs, from a normal path, puts an empty name, a slash, "." or ".." into a path. */
  lemma {:induction false} ChdirChainIsNormal(p: seq<string>, dirs: seq<string>)
    requires Normal(p)
    ensures Normal(ChdirChain(p, dirs))
    decreases |dirs|
  {
    if dirs != [] {
      ChdirIsNormal(p, dirs[0]);
      ChdirChainIsNormal(Chdired(p, dirs[0]), dirs[1..]);
    }
  }

  /** Appending a + "/" + b is appending a and then b. */
  lemma AppendConcat(p: seq<string>, a: string, b: string)
    ensures Appended(p, a + "/" + b) == Appended(Appended(p, a), b)
  {
    PiecesConcat(a, b);
    WalkConcat(p, Pieces(a), Pieces(b));
  }

  /** Appending the text of a path to the empty path gives the path back, exactly when it is normal. */
  lemma AppendJoined(p: seq<string>)
    ensures Appended([], Joined(p)) == p <==> Normal(p)
  {
    WalkIsNormal([], Pieces(Joined(p)));
    if Normal(p) {
      if p == [] {
        assert Walk([], [""]) == [] by { assert [""][..0] == []; }
      } else {
        PiecesOfJoined(p);
        WalkNormal(p);
      }
    }
  }

  /** From anywhere, changing directory to "/" followed by the text of p leads to p, exactly when p is normal. */
  lemma ChdirToJoined(from: seq<string>, p: seq<string>)
    ensures Chdired(from, "/" + Joined(p)) == p <==> Normal(p)
  {
    assert "/" + Joined(p) == "" + "/" + Joined(p);
    AppendConcat([], "", Joined(p));
    assert Appended([], "") == [] by { assert [""][..0] == []; }
    AppendJoined(p);
  }

  // --- what single names do ---

  lemma AppendName(p: seq<string>, name: string)
    requires '/' !in name
    ensures Appended(p, name) == WithName(p, name)
  {
    PiecesOfName(name);
    assert [name][..0] == [];
    assert Walk(p, []) == p;
  }

  /** A name is appended, and ".." takes it back. */
  lemma ParentUndoesName(p: seq<string>, name: string)
    requires NormalName(name)
    ensures Appended(p, name) == p + [name]
    ensures Appended(Appended(p, name), "..") == p
  {
    AppendName(p, name);
    AppendName(p + [name], "..");
    assert (p + [name])[..|p|] == p;
  }

  /** The root is its own parent; "." and the empty name lead nowhere, also between other names. */
  lemma NamesThatStay(p: seq<string>)
    ensures Appended([], "..") == []
    ensures Appended(p, ".") == p && Appended(p, "") == p
  {
    AppendName([], "..");
    AppendName(p, ".");
    AppendName(p, "");
  }

  /** Up and down again inside a longer text: a + "/" + name + "/../" + b is a + "/" + b. */
  lemma ParentInside(p: seq<string>, a: string, name: string, b: string)
    requires NormalName(name)
    ensures Appended(p, a + "/" + name + "/" + ".." + "/" + b) == Appended(p, a + "/" + b)
  {
    var q := Appended(p, a);
    AppendConcat(p, a + "/" + name + "/" + "..", b);
    AppendConcat(p, a + "/" + name, "..");
    AppendConcat(p, a, name);
    ParentUndoesName(q, name);
    AppendConcat(p, a, b);
  }

  /** Changing directory goes on from where one is, or from the root after a leading slash. */
  lemma ChdirStartsFrom(from: seq<string>, dir: string)
    requires dir != ""
    ensures Chdired(from, dir) == if dir[0] == '/' then Appended([], dir[1..]) else Appended(from, dir)
    ensures Chdired(from, "") == from
  {
    if dir[0] == '/' {
      assert dir == "" + "/" + dir[1..];
      AppendConcat([], "", dir[1..]);
      NamesThatStay([]);
    }
  }
}
