/** The configuration database (lib/confdb.cc, lib/confdb.hh): one file per key behind a write-back cache.
    Seen through the numbers that the values parse to it is a plain map. */
module ConfDBs {
  import opened Bytes
  import opened Decimal
  import opened Wrappers

  type Key = string

  // --- numbers as text ---

  /** What `istream >> off_t` makes of a text; None when there is no number. */
  function Numeric(text: string): Option<int> {
    if text == "" then None
    else if IsSpace(text[0]) then Numeric(text[1..])
    else if text[0] == '-' || text[0] == '+' then
      var (v, used) := ReadDigits(text[1..], 0);
      if used == 0 then None else Some(if text[0] == '-' then 0 - v else v)
    else
      var (v, used) := ReadDigits(text, 0);
      if used == 0 then None else Some(v)
  }

  function Printed(n: int): string {
    if n < 0 then "-" + Print(-n) else Print(n)
  }

  /** get() appends the result of the read that hits the end of the file to what it has read. */
  const EOF_BYTE: char := 255 as char

  lemma {:induction false} ReadDigitsBeforeEof(text: string, before: nat)
    ensures ReadDigits(text + [EOF_BYTE], before) == ReadDigits(text, before)
  {
    if text == "" {
      assert text + [EOF_BYTE] == [EOF_BYTE];
    } else {
      assert (text + [EOF_BYTE])[1..] == text[1..] + [EOF_BYTE];
      if IsDigit(text[0]) {
        ReadDigitsBeforeEof(text[1..], before * 10 + (text[0] - '0') as nat);
      }
    }
  }

  /** The appended byte does not change the number. */
  lemma {:induction false} NumericBeforeEof(text: string)
    ensures Numeric(text + [EOF_BYTE]) == Numeric(text)
  {
    if text == "" {
      assert text + [EOF_BYTE] == [EOF_BYTE];
    } else {
      assert (text + [EOF_BYTE])[1..] == text[1..] + [EOF_BYTE];
      if IsSpace(text[0]) {
        NumericBeforeEof(text[1..]);
      } else if text[0] == '-' || text[0] == '+' {
        ReadDigitsBeforeEof(text[1..], 0);
      } else {
        ReadDigitsBeforeEof(text, 0);
      }
    }
  }

  /** A printed number is read back. */
  lemma NumericOfPrinted(n: int)
    ensures Numeric(Printed(n)) == Some(n) && Printed(n) != ""
  {
    var m := if n < 0 then -n else n;
    ReadPrinted(m, "");
    assert Print(m) + "" == Print(m);
    assert IsDigit(Print(m)[0]);
    if n < 0 {
      assert Printed(n)[1..] == Print(m);
    }
  }

  lemma {:induction false} NumericAfterSpaces(spaces: string, text: string)
    requires AllSpaces(spaces)
    ensures Numeric(spaces + text) == Numeric(text)
  {
    if spaces == "" {
      assert spaces + text == text;
    } else {
      assert (spaces + text)[1..] == spaces[1..] + text;
      NumericAfterSpaces(spaces[1..], text);
    }
  }

  /** A number is read after white space and one sign, up to the first character that is no digit. */
  lemma NumericReads(spaces: string, sign: string, n: nat, tail: string)
    requires AllSpaces(spaces) && sign in {"", "+", "-"} && (tail == "" || !IsDigit(tail[0]))
    ensures Numeric(spaces + (sign + (Print(n) + tail))) == Some(if sign == "-" then 0 - n else n)
  {
    var text := Print(n) + tail;
    NumericAfterSpaces(spaces, sign + text);
    ReadPrinted(n, tail);
    assert ReadDigits(tail, n) == (n, 0);
    assert text[0] == Print(n)[0] && IsDigit(text[0]);
    if sign == "" {
      assert sign + text == text;
    } else {
      assert (sign + text)[1..] == text;
    }
  }

  /** Without a digit there is no number. */
  lemma NumericFails(spaces: string, sign: string, tail: string)
    requires AllSpaces(spaces) && sign in {"", "+", "-"}
    requires tail == "" || (!IsDigit(tail[0]) && (sign == "" ==> !IsSpace(tail[0]) && tail[0] != '+' && tail[0] != '-'))
    ensures Numeric(spaces + (sign + tail)) == None
  {
    NumericAfterSpaces(spaces, sign + tail);
    if sign == "" {
      assert sign + tail == tail;
    } else {
      assert (sign + tail)[1..] == tail;
    }
  }

  // --- the map that the database stands for ---

  /** The keys that exist and their numbers; None for a value that is no number. */
  type Db = map<Key, Option<int>>

  datatype Booking = Booked | Refused | Threw

  /** increment: the new value is booked unless it exceeds a nonzero maximum. */
  function Incremented(db: Db, k: Key, amt: int, max: int): (Db, Booking) {
    if k in db && db[k].None? then (db, Threw)
    else
      var val := (if k in db then db[k].value else 0) + amt;
      if max != 0 && val > max then (db, Refused) else (db[k := Some(val)], Booked)
  }

  /** decrement: refused when the value would fall below the minimum; a missing key counts as the minimum. */
  function Decremented(db: Db, k: Key, amt: int, min: int): (Db, Booking) {
    if k in db && db[k].None? then (db, Threw)
    else
      var val := if k in db then db[k].value else min;
      if min + amt > val then (db, Refused) else (db[k := Some(val - amt)], Booked)
  }

  /** What a key counts as: a missing one counts as zero. */
  function Held(db: Db, k: Key): int {
    if k in db && db[k].Some? then db[k].value else 0
  }

  /** A booking adds exactly its amount, never above a nonzero maximum, and touches no other key; it is refused
      exactly when it would go above. */
  lemma IncrementBooks(db: Db, k: Key, amt: int, max: int)
    requires k in db ==> db[k].Some?
    ensures var (db', b) := Incremented(db, k, amt, max);
            && !b.Threw? && (b.Refused? <==> max != 0 && Held(db, k) + amt > max) && (b.Refused? ==> db' == db)
            && (b.Booked? ==> k in db' && Held(db', k) == Held(db, k) + amt && (max != 0 ==> Held(db', k) <= max))
            && (forall j :: j != k ==> (j in db' <==> j in db) && (j in db ==> db'[j] == db[j]))
  {
  }

  /** Giving back what was booked restores the count, unless that is below the minimum. */
  lemma DecrementUndoesIncrement(db: Db, k: Key, amt: int, max: int, min: int)
    requires (k in db ==> db[k].Some?) && Incremented(db, k, amt, max).1.Booked?
    ensures var (db', b) := Decremented(Incremented(db, k, amt, max).0, k, amt, min);
            && (b.Booked? <==> Held(db, k) >= min) && (b.Booked? ==> Held(db', k) == Held(db, k))
            && (b.Refused? ==> db' == Incremented(db, k, amt, max).0)
            && (forall j :: j != k ==> (j in db' <==> j in db) && (j in db ==> db'[j] == db[j]))
  {
  }

  /** A missing key is at its minimum: nothing can be taken from it. */
  lemma NothingToTake(db: Db, k: Key, amt: nat, min: int)
    requires k !in db
    ensures Decremented(db, k, amt, min) == if amt > 0 then (db, Refused) else (db[k := Some(min)], Booked)
  {
  }

  // --- the cache ---

  datatype Value = Value(contents: string, changed: bool) {
    function Set(s: string): Value {
      if !changed then
        if contents != s then Value(s, true) else this
      else Value(s, true)
    }
  }

  /** What becomes of writing one file. Opening it truncates it, so a write that fails later leaves
      arbitrary contents. */
  datatype WriteResult = Written | OpenFailed | WriteFailed(left: string)

  /** The number of a key, from the cache if it is there and else from the file. */
  function Lookup(hash: map<Key, Value>, disk: map<Key, string>, k: Key): Option<int>
    requires k in hash || k in disk
  {
    Numeric(if k in hash then hash[k].contents else disk[k])
  }

  /** The map that cache and files stand for. */
  ghost function MapOf(hash: map<Key, Value>, disk: map<Key, string>): Db {
    map k | k in hash.Keys + disk.Keys :: Lookup(hash, disk, k)
  }

  /** A cached value that is not marked changed is on disk. */
  ghost predicate Consistent(hash: map<Key, Value>, disk: map<Key, string>) {
    forall k :: k in hash && !hash[k].changed ==>
                  k in disk && Numeric(disk[k]) == Numeric(hash[k].contents)
  }

  /** What caching one value does to the map, and when it leaves the cache consistent. */
  lemma Cached(hash: map<Key, Value>, disk: map<Key, string>, k: Key, v: Value)
    requires Consistent(hash, disk)
    ensures MapOf(hash[k := v], disk) == MapOf(hash, disk)[k := Numeric(v.contents)]
    ensures Consistent(hash[k := v], disk) <==> v.changed || (k in disk && Numeric(disk[k]) == Numeric(v.contents))
  {
    if Consistent(hash[k := v], disk) && !v.changed {
      assert k in hash[k := v];
    }
  }

  class ConfDB {
    var hash: map<Key, Value>
    var disk: map<Key, string>

    ghost function Abs(): Db
      reads this
    {
      MapOf(hash, disk)
    }

    ghost predicate Valid()
      reads this
    {
      Consistent(hash, disk)
    }

    constructor (files: map<Key, string>)
      ensures Valid() && hash == map[] && disk == files
    {
      hash, disk := map[], files;
    }

    method Exists(k: Key) returns (exist: bool)
      ensures exist <==> k in Abs()
    {
      if k in hash {
        return true;
      }
      return k in disk;
    }

    /** None stands for the exception about a file that cannot be opened. */
    method Get(k: Key) returns (contents: Option<string>)
      requires Valid()
      modifies `hash
      ensures Valid() && Abs() == old(Abs())
      ensures contents.Some? <==> k in Abs()
      ensures contents.Some? ==> Numeric(contents.value) == Abs()[k] && k in hash
      ensures forall j :: j in old(hash) ==> j in hash && hash[j] == old(hash)[j]
    {
      if k in hash {
        return Some(hash[k].contents);
      }
      if k !in disk {
        return None;
      }
      var val := disk[k] + [EOF_BYTE];
      NumericBeforeEof(disk[k]);
      hash := hash[k := Value(val, false)];
      return Some(val);
    }

    /** None stands for an exception: no such key, or no number. */
    method GetType(k: Key) returns (n: Option<int>)
      requires Valid()
      modifies `hash
      ensures Valid() && Abs() == old(Abs())
      ensures n == if k in Abs() then Abs()[k] else None
    {
      var contents := Get(k);
      n := if contents.None? then None else Numeric(contents.value);
    }

    /** Storing a string. The empty string under a key that is not cached is not noticed as a change, so it
        is never written; that matters unless the file holds no number anyway. */
    method Put(k: Key, s: string)
      requires Valid()
      modifies `hash
      ensures hash == old(hash)[k := (if k in old(hash) then old(hash)[k] else Value("", false)).Set(s)]
      ensures Abs() == old(Abs())[k := Numeric(s)]
      ensures Valid() <==> s != "" || k in old(hash) || (k in disk && Numeric(disk[k]) == None)
    {
      if k !in hash {
        hash := hash[k := Value("", false)];
      }
      var v := hash[k].Set(s);
      hash := hash[k := v];
      assert hash == old(hash)[k := v];
      Cached(old(hash), disk, k, v);
    }

    method PutType(k: Key, n: int)
      requires Valid()
      modifies `hash
      ensures Valid() && Abs() == old(Abs())[k := Some(n)]
    {
      NumericOfPrinted(n);
      Put(k, Printed(n));
    }

    method Increment(k: Key, amt: int, max: int) returns (r: Booking)
      requires Valid()
      modifies `hash
      ensures Valid() && (Abs(), r) == Incremented(old(Abs()), k, amt, max)
    {
      var val := 0;
      var exist := Exists(k);
      if exist {
        var n := GetType(k);
        if n.None? {
          return Threw;
        }
        val := n.value;
      }
      val := val + amt;
      if max != 0 && val > max {
        return Refused;
      }
      PutType(k, val);
      return Booked;
    }

    method Decrement(k: Key, amt: int, min: int) returns (r: Booking)
      requires Valid()
      modifies `hash
      ensures Valid() && (Abs(), r) == Decremented(old(Abs()), k, amt, min)
    {
      var val := min;
      var exist := Exists(k);
      if exist {
        var n := GetType(k);
        if n.None? {
          return Threw;
        }
        val := n.value;
      }
      if min + amt > val {
        return Refused;
      }
      val := val - amt;
      PutType(k, val);
      return Booked;
    }

    /** Writes the changed values, in any order; io says what becomes of each file. A value whose file
        fails stays marked, so no write that fails changes what is read, whatever it leaves on disk. */
    method WriteOut(io: Key -> WriteResult) returns (bad: set<Key>)
      requires Valid()
      modifies this
      ensures Valid() && Abs() == old(Abs()) && hash.Keys == old(hash).Keys
      ensures bad == set k | k in old(hash) && old(hash)[k].changed && io(k) != Written
      ensures forall k :: k in hash ==> (hash[k].changed <==> k in bad)
    {
      bad := {};
      var rest := hash.Keys;
      while rest != {}
        invariant rest <= hash.Keys == old(hash).Keys && Valid() && Abs() == old(Abs())
        invariant bad == set k | k in old(hash) && k !in rest && old(hash)[k].changed && io(k) != Written
        invariant forall k :: k in rest ==> hash[k] == old(hash)[k]
        invariant forall k :: k in hash && k !in rest ==> (hash[k].changed <==> k in bad)
        decreases rest
      {
        var k :| k in rest;
        rest := rest - {k};
        if hash[k].changed {
          var ok := WriteFile(k, io(k));
          if !ok {
            bad := bad + {k};
          }
        }
      }
    }

    /** One file; false when it could not be opened or written. */
    method WriteFile(k: Key, result: WriteResult) returns (ok: bool)
      requires Valid() && k in hash && hash[k].changed
      modifies this
      ensures Valid() && Abs() == old(Abs()) && (ok <==> result == Written)
      ensures hash == if ok then old(hash)[k := old(hash)[k].(changed := false)] else old(hash)
    {
      match result {
        case OpenFailed =>
          return false;
        case WriteFailed(left) =>
          disk := disk[k := left];
          return false;
        case Written =>
          disk := disk[k := hash[k].contents];
          hash := hash[k := hash[k].(changed := false)];
          return true;
      }
    }

    /** A sync that fails throws before the cache is dropped. */
    method Sync(io: Key -> WriteResult) returns (ok: bool)
      requires Valid()
      modifies this
      ensures Valid() && Abs() == old(Abs())
      ensures ok <==> forall k :: k in old(hash) && old(hash)[k].changed ==> io(k) == Written
      ensures ok ==> hash == map[] && (map k | k in disk :: Numeric(disk[k])) == old(Abs())
      ensures !ok ==> hash.Keys == old(hash).Keys
    {
      var bad := WriteOut(io);
      if bad != {} {
        return false;
      }
      hash := map[];
      return true;
    }
  }

  // --- refinement over whole runs ---

  datatype Op =
    | OpGet(k: Key)
    | OpPut(k: Key, n: int)
    | OpIncrement(k: Key, amt: int, max: int)
    | OpDecrement(k: Key, amt: int, min: int)
    | OpWriteOut(io: Key -> WriteResult)
    | OpSync(io: Key -> WriteResult)

  datatype Answer = Number(n: Option<int>) | Result(b: Booking) | NoAnswer

  /** What an operation does to a plain map, and what it answers. */
  function Applied(db: Db, op: Op): (Db, Answer) {
    match op
    case OpGet(k) => (db, Number(if k in db then db[k] else None))
    case OpPut(k, n) => (db[k := Some(n)], NoAnswer)
    case OpIncrement(k, amt, max) => var (db', b) := Incremented(db, k, amt, max); (db', Result(b))
    case OpDecrement(k, amt, min) => var (db', b) := Decremented(db, k, amt, min); (db', Result(b))
    case OpWriteOut(_) => (db, NoAnswer)
    case OpSync(_) => (db, NoAnswer)
  }

  function AppliedAll(db: Db, ops: seq<Op>): (Db, seq<Answer>) {
    if ops == [] then (db, [])
    else
      var (before, answers) := AppliedAll(db, ops[..|ops| - 1]);
      var (after, answer) := Applied(before, ops[|ops| - 1]);
      (after, answers + [answer])
  }

  /** Any run, with any files failing to be written at any time, answers as the plain map does. */
  method Run(db: ConfDB, ops: seq<Op>) returns (answers: seq<Answer>)
    requires db.Valid()
    modifies db
    ensures db.Valid() && (db.Abs(), answers) == AppliedAll(old(db.Abs()), ops)
  {
    answers := [];
    var i := 0;
    while i < |ops|
      invariant 0 <= i <= |ops| && db.Valid()
      invariant (db.Abs(), answers) == AppliedAll(old(db.Abs()), ops[..i])
    {
      assert ops[..i + 1][..i] == ops[..i];
      var answer := Apply(db, ops[i]);
      answers := answers + [answer];
      i := i + 1;
    }
    assert ops[..i] == ops;
  }

  method Apply(db: ConfDB, op: Op) returns (answer: Answer)
    requires db.Valid()
    modifies db
    ensures db.Valid() && (db.Abs(), answer) == Applied(old(db.Abs()), op)
  {
    answer := NoAnswer;
    match op
    case OpGet(k) =>
      var n := db.GetType(k);
      answer := Number(n);
    case OpPut(k, n) =>
      db.PutType(k, n);
    case OpIncrement(k, amt, max) =>
      var b := db.Increment(k, amt, max);
      answer := Result(b);
    case OpDecrement(k, amt, min) =>
      var b := db.Decrement(k, amt, min);
      answer := Result(b);
    case OpWriteOut(io) =>
      var bad := db.WriteOut(io);
    case OpSync(io) =>
      var ok := db.Sync(io);
  }

  /** The input that shows it: the cache says that the key holds no number, and nothing is left to be written. */
  method EmptyStringLost() returns (db: ConfDB)
    ensures fresh(db) && db.disk == map["a" := "5"] && db.hash == map["a" := Value("", false)]
    ensures !db.Valid() && db.Abs()["a"] == None && Numeric(db.disk["a"]) == Some(5)
  {
    db := new ConfDB(map["a" := "5"]);
    assert Print(5) == "5" && Printed(5) == "5";
    NumericOfPrinted(5);
    db.Put("a", "");
  }
}
