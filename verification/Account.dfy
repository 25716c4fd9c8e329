/** Users, control connections and their counters (src/user.cc, src/user.hh, src/control.cc, lib/conf.hh):
    what one call does to the configuration database. */
module Accounts {
  import opened Bytes
  import opened ConfDBs
  import opened Paths
  import opened Wrappers

  // --- configuration keys ---

  /** The numbers the server counts and the limits it reads. */
  datatype Field =
    | Logins | LoginsMax | UploadBytes | UploadBytesMax | DownloadBytes | DownloadBytesMax
    | Connections | ConnectionsMax

  function FieldName(f: Field): (name: string)
    ensures '/' !in name
  {
    match f
    case Logins => "logins"
    case LoginsMax => "logins_max"
    case UploadBytes => "upload_bytes"
    case UploadBytesMax => "upload_bytes_max"
    case DownloadBytes => "download_bytes"
    case DownloadBytesMax => "download_bytes_max"
    case Connections => "unauthenticated_connections"
    case ConnectionsMax => "unauthenticated_connections_max"
  }

  function DbKey(base: Key, f: Field): Key {
    base + "/" + FieldName(f)
  }

  /** A slash in the longer of two bases is a slash in the name after the shorter. */
  lemma SlashAfter(b1: Key, n1: string, b2: Key, n2: string)
    requires b1 + "/" + n1 == b2 + "/" + n2 && |b1| < |b2|
    ensures '/' in n1
  {
    var k := b1 + "/" + n1;
    assert k[|b2|] == '/';
    assert k[|b2|] == n1[|b2| - |b1| - 1];
  }

  /** Different directories and different fields have different keys. */
  lemma DbKeyInjective(b1: Key, f1: Field, b2: Key, f2: Field)
    requires DbKey(b1, f1) == DbKey(b2, f2)
    ensures b1 == b2 && f1 == f2
  {
    var k, n1, n2 := DbKey(b1, f1), FieldName(f1), FieldName(f2);
    if |b1| < |b2| {
      SlashAfter(b1, n1, b2, n2);
    } else if |b2| < |b1| {
      SlashAfter(b2, n2, b1, n1);
    } else {
      assert k[..|b1|] == b1 && k[..|b2|] == b2;
      assert k[|b1| + 1..] == n1 && k[|b2| + 1..] == n2;
      NamesDiffer(f1, f2);
    }
  }

  lemma NamesDiffer(f1: Field, f2: Field)
    requires FieldName(f1) == FieldName(f2)
    ensures f1 == f2
  {
    assert |FieldName(f1)| == |FieldName(f2)| && FieldName(f1)[0] == FieldName(f2)[0];
  }

  /** A limit is named after its counter. */
  lemma MaxIsNamed()
    ensures FieldName(LoginsMax) == FieldName(Logins) + "_max"
    ensures FieldName(ConnectionsMax) == FieldName(Connections) + "_max"
    ensures forall dir :: FieldName(BytesMaxField(dir)) == FieldName(BytesField(dir)) + "_max"
    ensures FieldName(BytesField(Upload)) == "upload" + "_bytes" && FieldName(BytesField(Download)) == "download" + "_bytes"
  {
  }

  // --- conf.hh ---

  /** A limit: zero when it is not set, None when it is no number. */
  function Limit(db: Db, base: Key, f: Field): Option<int> {
    if DbKey(base, f) in db then db[DbKey(base, f)] else Some(0)
  }

  /** book_increment against the limit of the same name. */
  function BookedIncrement(db: Db, base: Key, value: Field, max: Field): (Db, Booking) {
    var limit := Limit(db, base, max);
    if limit.None? then (db, Threw) else Incremented(db, DbKey(base, value), 1, limit.value)
  }

  method GetLimit(db: ConfDB, base: Key, f: Field) returns (limit: Option<int>)
    requires db.Valid()
    modifies db
    ensures db.Valid() && db.Abs() == old(db.Abs()) && limit == Limit(db.Abs(), base, f)
  {
    var exist := db.Exists(DbKey(base, f));
    if !exist {
      return Some(0);
    }
    limit := db.GetType(DbKey(base, f));
  }

  method BookIncrement(db: ConfDB, base: Key, value: Field, max: Field) returns (r: Booking)
    requires db.Valid()
    modifies db
    ensures db.Valid() && (db.Abs(), r) == BookedIncrement(old(db.Abs()), base, value, max)
  {
    var limit := GetLimit(db, base, max);
    if limit.None? {
      return Threw;
    }
    r := db.Increment(DbKey(base, value), 1, limit.value);
  }

  // --- users ---

  datatype Direction = Upload | Download

  function BytesField(dir: Direction): Field {
    if dir.Upload? then UploadBytes else DownloadBytes
  }

  function BytesMaxField(dir: Direction): Field {
    if dir.Upload? then UploadBytesMax else DownloadBytesMax
  }

  /** The fields of a User; conf is None before the first user name was accepted. */
  datatype UserState = UserState(conf: Option<Key>, name: string, authenticated: bool,
                                 accountingUpload: bool, accountingDownload: bool)

  const FRESH_USER := UserState(None, "", false, true, true)

  /** The copy constructor: a copy is never authenticated and has no name. */
  function Copied(u: UserState): UserState {
    u.(name := "", authenticated := false)
  }

  const MAX_USERNAME_LENGTH := 200

  predicate NameChar(c: char) {
    '0' <= c <= '9' || 'A' <= c <= 'Z' || 'a' <= c <= 'z' || c == '_' || c == '-'
  }

  predicate ValidUsername(name: string) {
    0 < |name| < MAX_USERNAME_LENGTH && forall i :: 0 <= i < |name| ==> NameChar(name[i])
  }

  datatype LoginResult = LoggedIn | Denied | LimitHit | ConfigError

  /** The part of authenticate after the password has been accepted for the user directory. */
  function LoggedInAt(u: UserState, db: Db, key: Key, name: string): (UserState, Db, LoginResult) {
    var (db', booking) := BookedIncrement(db, key, Logins, LoginsMax);
    match booking
    case Refused => (u.(conf := Some(key)), db, LimitHit)
    case Threw => (u.(conf := Some(key)), db, ConfigError)
    case Booked =>
      (UserState(Some(key), name, true,
                 u.accountingUpload && DbKey(key, UploadBytes) in db',
                 u.accountingDownload && DbKey(key, DownloadBytes) in db'), db', LoggedIn)
  }

  /** User::authenticate: the directory is entered for every acceptable name, before the password is checked. */
  function Authenticated(u: UserState, db: Db, users: Key, name: string, exist: bool, passwordOk: bool)
    : (UserState, Db, LoginResult)
  {
    var key := users + "/" + name;
    if !ValidUsername(name) || !exist then (u, db, Denied)
    else if !passwordOk then (u.(conf := Some(key)), db, Denied)
    else LoggedInAt(u, db, key, name)
  }

  function Deauthenticated(u: UserState, db: Db): (UserState, Db) {
    if u.authenticated && u.conf.Some? then
      (u.(authenticated := false), Decremented(db, DbKey(u.conf.value, Logins), 1, 0).0)
    else (u, db)
  }

  /** The upload ratio of a user directory: bonus is the truncated product with an upload total. */
  datatype Ratio = NoRatio | Ratio(bonus: int -> int)

  /** xfer_limit; None stands for a ConfException. */
  function XferLimit(db: Db, key: Key, dir: Direction, ratio: Ratio): Option<int> {
    var max := Limit(db, key, BytesMaxField(dir));
    if max.None? || dir.Upload? || ratio.NoRatio? then max
    else
      var total := Limit(db, key, UploadBytes);
      if total.None? then None else Some(max.value + ratio.bonus(total.value))
  }

  predicate Accounting(u: UserState, dir: Direction) {
    if dir.Upload? then u.accountingUpload else u.accountingDownload
  }

  function BookedXfer(u: UserState, db: Db, bytes: nat, dir: Direction, ratio: Ratio): (Db, Booking) {
    if !Accounting(u, dir) || u.conf.None? then (db, Booked)
    else
      var limit := XferLimit(db, u.conf.value, dir, ratio);
      if limit.None? then (db, Threw)
      else Incremented(db, DbKey(u.conf.value, BytesField(dir)), bytes, limit.value)
  }

  /** A valid user name is one normal name of a path, made of letters, digits and two marks. */
  lemma ValidNames(name: string)
    ensures ValidUsername(name) ==> NormalName(name) && |name| < 200
    ensures ValidUsername(name) <==> 0 < |name| < 200 && forall i :: 0 <= i < |name| ==> AllowedInName(name[i])
  {
    forall i | 0 <= i < |name|
      ensures NameChar(name[i]) <==> AllowedInName(name[i])
    {
      CharacterRanges(name[i]);
    }
    assert ValidUsername(name) ==> NameChar(name[0]) && forall i :: 0 <= i < |name| ==> NameChar(name[i]);
  }

  predicate AllowedInName(c: char) {
    c in UPPER || c in LOWER || c in DIGITS || c == '_' || c == '-'
  }

  /** What a copy books goes where the bookings of its original go, and it has no login to give back. */
  lemma CopyBooksAlike(u: UserState, db: Db, bytes: nat, dir: Direction, ratio: Ratio)
    ensures BookedXfer(Copied(u), db, bytes, dir, ratio) == BookedXfer(u, db, bytes, dir, ratio)
    ensures Deauthenticated(Copied(u), db) == (Copied(u), db)
  {
  }

  // --- what is booked after a new login ---

  /** One login of a User object that the password let through: the database at that time, the directory and the name. */
  datatype PastLogin = PastLogin(db: Db, key: Key, name: string)

  /** A User after such logins, each after a logout, whether or not the login limit let them through. */
  function AfterLogins(u: UserState, logins: seq<PastLogin>): UserState {
    if logins == [] then u
    else
      var last := logins[|logins| - 1];
      LoggedInAt(AfterLogins(u, logins[..|logins| - 1]), last.db, last.key, last.name).0.(authenticated := false)
  }

  /** Was the login booked at a directory without a counter for this direction? */
  predicate Uncounting(login: PastLogin, dir: Direction) {
    && BookedIncrement(login.db, login.key, Logins, LoginsMax).1.Booked?
    && DbKey(login.key, BytesField(dir)) !in login.db
  }

  /** The flags are only ever cleared: a direction is accounted for exactly when no login so far was booked
      at a directory that does not count it. */
  lemma {:induction false} AccountingAfterLogins(u: UserState, logins: seq<PastLogin>, dir: Direction)
    ensures Accounting(AfterLogins(u, logins), dir)
       <==> Accounting(u, dir) && forall i :: 0 <= i < |logins| ==> !Uncounting(logins[i], dir)
  {
    if logins != [] {
      var front, last := logins[..|logins| - 1], logins[|logins| - 1];
      AccountingAfterLogins(u, front, dir);
      AccountingAfterLogin(AfterLogins(u, front), last, dir);
      assert logins == front + [last];
    }
  }

  /** A new user object accounts for both directions until such a login. */
  lemma FreshUserAccounts(logins: seq<PastLogin>, dir: Direction)
    ensures Accounting(AfterLogins(FRESH_USER, logins), dir) <==> forall i :: 0 <= i < |logins| ==> !Uncounting(logins[i], dir)
  {
    AccountingAfterLogins(FRESH_USER, logins, dir);
  }

  lemma AccountingAfterLogin(u: UserState, login: PastLogin, dir: Direction)
    ensures Accounting(LoggedInAt(u, login.db, login.key, login.name).0, dir)
       <==> Accounting(u, dir) && !Uncounting(login, dir)
  {
    if DbKey(login.key, BytesField(dir)) == DbKey(login.key, Logins) {
      DbKeyInjective(login.key, BytesField(dir), login.key, Logins);
    }
  }

  /** Bytes are added to their counter exactly when the direction is accounted for, counter and limit are
      numbers, and the limit is zero or not exceeded. Otherwise no counter changes. */
  lemma BooksExactly(u: UserState, db: Db, bytes: nat, dir: Direction, ratio: Ratio)
    requires u.conf.Some? && bytes > 0
    ensures var k, limit := DbKey(u.conf.value, BytesField(dir)), XferLimit(db, u.conf.value, dir, ratio);
            var n := if k in db then db[k] else Some(0);
            var counts := Accounting(u, dir) && n.Some? && limit.Some?
                          && (limit.value == 0 || n.value + bytes <= limit.value);
            var (db', b) := BookedXfer(u, db, bytes, dir, ratio);
            && (counts <==> n.Some? && db' == db[k := Some(n.value + bytes)])
            && (!counts ==> db' == db)
            && (b.Booked? <==> counts || !Accounting(u, dir))
  {
    var k := DbKey(u.conf.value, BytesField(dir));
    if k in db && db[k].Some? {
      assert db[k := Some(db[k].value + bytes)][k] != db[k];
    }
  }

  /** The input that shows it: a first login where downloads are not counted, and nothing is booked after the
      second one, where they are. */
  lemma NotBookedAfterRelogin(ratio: Ratio)
    ensures var second := map[DbKey("b", DownloadBytes) := Some(0)];
            var u := AfterLogins(FRESH_USER, [PastLogin(map[], "a", "ann"), PastLogin(second, "b", "bob")]);
            u.conf == Some("b") && BookedXfer(u, second, 1000, Download, ratio) == (second, Booked)
  {
    var first, second := PastLogin(map[], "a", "ann"), PastLogin(map[DbKey("b", DownloadBytes) := Some(0)], "b", "bob");
    assert Uncounting(first, Download);
    assert [first, second][..1] == [first] && [first][..0] == [];
    AccountingAfterLogins(FRESH_USER, [first, second], Download);
    assert [first, second][0] == first;
  }

  class User {
    const db: ConfDB
    var conf: Option<Key>
    var name: string
    var authenticated: bool
    var accountingUpload: bool
    var accountingDownload: bool

    function State(): UserState
      reads this
    {
      UserState(conf, name, authenticated, accountingUpload, accountingDownload)
    }

    constructor (db: ConfDB)
      ensures State() == FRESH_USER && this.db == db
    {
      this.db := db;
      conf, name, authenticated, accountingUpload, accountingDownload := None, "", false, true, true;
    }

    constructor Copy(u: User)
      ensures State() == Copied(u.State()) && db == u.db
    {
      db := u.db;
      conf, name, authenticated := u.conf, "", false;
      accountingUpload, accountingDownload := u.accountingUpload, u.accountingDownload;
    }

    /** The directory's existence and the password check are the environment's answers. */
    method VerifyPassword(username: string, users: Key, exist: bool, passwordOk: bool) returns (ok: bool)
      modifies `conf
      ensures ok <==> ValidUsername(username) && exist && passwordOk
      ensures conf == if ValidUsername(username) && exist then Some(users + "/" + username) else old(conf)
    {
      var i := 0;
      while i < |username|
        invariant 0 <= i <= |username| && conf == old(conf)
        invariant forall j :: 0 <= j < i ==> NameChar(username[j])
      {
        if !NameChar(username[i]) {
          return false;
        }
        i := i + 1;
      }
      if username == "" {
        return false;
      }
      if |username| >= MAX_USERNAME_LENGTH {
        return false;
      }
      if !exist {
        return false;
      }
      conf := Some(users + "/" + username);
      return passwordOk;
    }

    method Authenticate(username: string, users: Key, exist: bool, passwordOk: bool) returns (r: LoginResult)
      requires db.Valid()
      modifies this, db
      ensures db.Valid()
      ensures (State(), db.Abs(), r) == Authenticated(old(State()), old(db.Abs()), users, username, exist, passwordOk)
    {
      var ok := VerifyPassword(username, users, exist, passwordOk);
      if !ok {
        return Denied;
      }
      r := CompleteLogin(username);
    }

    /** The rest of authenticate. */
    method CompleteLogin(username: string) returns (r: LoginResult)
      requires db.Valid() && conf.Some?
      modifies this, db
      ensures db.Valid()
      ensures (State(), db.Abs(), r) == LoggedInAt(old(State()), old(db.Abs()), old(conf).value, username)
    {
      var booking := BookIncrement(db, conf.value, Logins, LoginsMax);
      if booking.Refused? {
        return LimitHit;
      }
      if booking.Threw? {
        return ConfigError;
      }
      name := username;
      var exist := db.Exists(DbKey(conf.value, DownloadBytes));
      if !exist {
        accountingDownload := false;
      }
      exist := db.Exists(DbKey(conf.value, UploadBytes));
      if !exist {
        accountingUpload := false;
      }
      authenticated := true;
      return LoggedIn;
    }

    /** Also the destructor. An underflow is only warned about. */
    method Deauthenticate() returns (r: Booking)
      requires db.Valid() && (authenticated ==> conf.Some?)
      modifies this, db
      ensures db.Valid() && !authenticated
      ensures (State(), db.Abs()) == Deauthenticated(old(State()), old(db.Abs()))
    {
      if authenticated {
        authenticated := false;
        r := db.Decrement(DbKey(conf.value, Logins), 1, 0);
      } else {
        r := Booked;
      }
    }

    method GetXferLimit(dir: Direction, ratio: Ratio) returns (limit: Option<int>)
      requires db.Valid() && conf.Some?
      modifies db
      ensures db.Valid() && db.Abs() == old(db.Abs()) && limit == XferLimit(db.Abs(), conf.value, dir, ratio)
    {
      limit := GetLimit(db, conf.value, BytesMaxField(dir));
      if limit.None? {
        return;
      }
      if dir.Download? {
        if ratio.NoRatio? {
          return;
        }
        var total := GetLimit(db, conf.value, UploadBytes);
        if total.None? {
          return None;
        }
        limit := Some(limit.value + ratio.bonus(total.value));
      }
    }

    method BookXfer(bytes: nat, dir: Direction, ratio: Ratio) returns (r: Booking)
      requires db.Valid() && conf.Some?
      modifies db
      ensures db.Valid() && (db.Abs(), r) == BookedXfer(State(), old(db.Abs()), bytes, dir, ratio)
    {
      if dir.Download? && !accountingDownload {
        return Booked;
      }
      if dir.Upload? && !accountingUpload {
        return Booked;
      }
      var limit := GetXferLimit(dir, ratio);
      if limit.None? {
        return Threw;
      }
      r := db.Increment(DbKey(conf.value, BytesField(dir)), bytes, limit.value);
    }
  }

  // --- control connections ---

  /** The fields of a Control: its server's directory, and whether it is still counted as unauthenticated. */
  datatype ControlState = ControlState(server: Key, counted: bool)

  /** Control::decrement. The flag is set after the booking, so it stays clear when that throws. */
  function Uncounted(c: ControlState, db: Db): (ControlState, Db, Booking) {
    if !c.counted then (c, db, Booked)
    else
      var (db', b) := Decremented(db, DbKey(c.server, Connections), 1, 0);
      if b.Threw? then (c, db, b) else (c.(counted := false), db', b)
  }

  /** Control::user_login: a login that succeeds takes the connection off the unauthenticated ones. */
  function LoggedInThrough(c: ControlState, u: UserState, db: Db, name: string, exist: bool, passwordOk: bool)
    : (ControlState, UserState, Db, LoginResult)
  {
    var (u', db', r) := Authenticated(u, db, c.server + "/users", name, exist, passwordOk);
    if !r.LoggedIn? then (c, u', db', r)
    else
      var (c', db'', b) := Uncounted(c, db');
      (c', u', db'', if b.Threw? then ConfigError else LoggedIn)
  }

  class Control {
    const db: ConfDB
    const server: Key
    var authenticated: bool

    function State(): ControlState
      reads this
    {
      ControlState(server, !authenticated)
    }

    /** Field initialisation; Connect is the whole constructor of the original, which may throw. */
    constructor (db: ConfDB, server: Key)
      ensures this.db == db && State() == ControlState(server, true)
    {
      this.db, this.server, authenticated := db, server, false;
    }

    static method Connect(db: ConfDB, server: Key) returns (c: Control?, r: Booking)
      requires db.Valid()
      modifies db
      ensures db.Valid() && (db.Abs(), r) == BookedIncrement(old(db.Abs()), server, Connections, ConnectionsMax)
      ensures c != null <==> r.Booked?
      ensures c != null ==> fresh(c) && c.db == db && c.State() == ControlState(server, true)
    {
      c := null;
      r := BookIncrement(db, server, Connections, ConnectionsMax);
      if r.Booked? {
        c := new Control(db, server);
      }
    }

    /** Also the destructor. */
    method Decrement() returns (r: Booking)
      requires db.Valid()
      modifies this, db
      ensures db.Valid() && (State(), db.Abs(), r) == Uncounted(old(State()), old(db.Abs()))
    {
      if authenticated {
        return Booked;
      }
      r := db.Decrement(DbKey(server, Connections), 1, 0);
      if !r.Threw? {
        authenticated := true;
      }
    }

    /** LimitHit is rethrown, the other failures give false. */
    method UserLogin(user: User, name: string, exist: bool, passwordOk: bool) returns (r: LoginResult)
      requires db.Valid() && user.db == db
      modifies this, user, db
      ensures db.Valid()
      ensures (State(), user.State(), db.Abs(), r)
           == LoggedInThrough(old(State()), old(user.State()), old(db.Abs()), name, exist, passwordOk)
    {
      r := user.Authenticate(name, server + "/users", exist, passwordOk);
      if r.LoggedIn? {
        var b := Decrement();
        if b.Threw? {
          r := ConfigError;
        }
      }
    }
  }
}
