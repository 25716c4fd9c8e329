/** Many sessions over one configuration database: the counters and quotas that src/user.cc, src/user.hh
    and src/control.cc keep over every interleaving of FTP and HTTP sessions. */
module Sessions {
  import opened Accounts
  import opened ConfDBs
  import opened Wrappers

  // --- the world and its primitive steps ---

  /** A User object belongs to an FTP session, to an HTTP request being answered, or, as a copy, to a transfer. */
  datatype UserId = OfSession(c: nat) | OfRequest(u: nat) | OfTransfer(x: nat)

  datatype World = World(db: Db, users: map<UserId, UserState>, controls: map<nat, ControlState>)

  datatype Prim =
    | Connect(c: nat, server: Key)
    | NewUser(id: UserId, c: nat)
    | CopyUser(source: UserId, id: UserId)
    | Login(c: nat, id: UserId, name: string, exist: bool, passwordOk: bool)
    | Logout(id: UserId)
    | DropUser(id: UserId)
    | Disconnect(c: nat)
    | Book(id: UserId, bytes: nat, dir: Direction)

  function LogoutUser(w: World, id: UserId): World
    requires id in w.users
  {
    var (u, db) := Deauthenticated(w.users[id], w.db);
    w.(db := db, users := w.users[id := u])
  }

  function LoginUser(w: World, c: nat, id: UserId, name: string, exist: bool, passwordOk: bool): World
    requires c in w.controls && id in w.users
  {
    var (c', u, db, r) := LoggedInThrough(w.controls[c], w.users[id], w.db, name, exist, passwordOk);
    World(db, w.users[id := u], w.controls[c := c'])
  }

  /** One primitive step; a step on something that is not there does nothing. */
  function Do(w: World, p: Prim, ratios: Key -> Ratio): World {
    match p
    case Connect(c, server) =>
      if c in w.controls then w
      else
        var (db, b) := BookedIncrement(w.db, server, Connections, ConnectionsMax);
        if b.Booked? then w.(db := db, controls := w.controls[c := ControlState(server, true)]) else w
    case NewUser(id, c) =>
      if c !in w.controls || id in w.users then w else w.(users := w.users[id := FRESH_USER])
    case CopyUser(source, id) =>
      if source !in w.users || id in w.users then w else w.(users := w.users[id := Copied(w.users[source])])
    case Login(c, id, name, exist, passwordOk) =>
      if c !in w.controls || id !in w.users then w else LoginUser(w, c, id, name, exist, passwordOk)
    case Logout(id) =>
      if id !in w.users then w else LogoutUser(w, id)
    case DropUser(id) =>
      if id !in w.users then w else var w' := LogoutUser(w, id); w'.(users := w'.users - {id})
    case Disconnect(c) =>
      if c !in w.controls then w
      else
        var (c', db, b) := Uncounted(w.controls[c], w.db);
        w.(db := db, controls := w.controls - {c})
    case Book(id, bytes, dir) =>
      if id !in w.users || w.users[id].conf.None? then w
      else w.(db := BookedXfer(w.users[id], w.db, bytes, dir, ratios(w.users[id].conf.value)).0)
  }

  function DoAll(w: World, ps: seq<Prim>, ratios: Key -> Ratio): World {
    if ps == [] then w else Do(DoAll(w, ps[..|ps| - 1], ratios), ps[|ps| - 1], ratios)
  }

  // --- what sessions do ---

  datatype Action =
    | FtpConnect(c: nat, server: Key)
    | FtpPass(c: nat, name: string, exist: bool, passwordOk: bool)
    | FtpRein(c: nat)
    | FtpQuit(c: nat)
    | FtpTransfer(c: nat, x: nat)
    | FtpGone(c: nat)
    | HttpConnect(c: nat, server: Key)
    | HttpRequest(c: nat, u: nat, x: nat, name: string, exist: bool, passwordOk: bool)
    | HttpGone(c: nat)
    | Transferred(x: nat, bytes: nat, dir: Direction)
    | TransferGone(x: nat)

  /** The steps an action takes. A new login first gives up the old one; the User of an HTTP request is
      made and destroyed within the request; a transfer keeps a copy. */
  function Program(w: World, a: Action): seq<Prim> {
    match a
    case FtpConnect(c, server) => [Connect(c, server), NewUser(OfSession(c), c)]
    case FtpPass(c, name, exist, passwordOk) =>
      [Logout(OfSession(c)), Login(c, OfSession(c), name, exist, passwordOk)]
    case FtpRein(c) => [Logout(OfSession(c))]
    case FtpQuit(c) => [Logout(OfSession(c))]
    case FtpTransfer(c, x) => [CopyUser(OfSession(c), OfTransfer(x))]
    case FtpGone(c) => [DropUser(OfSession(c)), Disconnect(c)]
    case HttpConnect(c, server) => [Connect(c, server)]
    case HttpRequest(c, u, x, name, exist, passwordOk) =>
      if OfRequest(u) in w.users then []
      else [NewUser(OfRequest(u), c), Login(c, OfRequest(u), name, exist, passwordOk),
            CopyUser(OfRequest(u), OfTransfer(x)), DropUser(OfRequest(u))]
    case HttpGone(c) => [Disconnect(c)]
    case Transferred(x, bytes, dir) => [Book(OfTransfer(x), bytes, dir)]
    case TransferGone(x) => [DropUser(OfTransfer(x))]
  }

  function Act(w: World, a: Action, ratios: Key -> Ratio): World {
    DoAll(w, Program(w, a), ratios)
  }

  function ActAll(w: World, actions: seq<Action>, ratios: Key -> Ratio): World {
    if actions == [] then w else Act(ActAll(w, actions[..|actions| - 1], ratios), actions[|actions| - 1], ratios)
  }

  // --- what is counted ---

  function Count(db: Db, base: Key, f: Field): int {
    if DbKey(base, f) in db && db[DbKey(base, f)].Some? then db[DbKey(base, f)].value else 0
  }

  /** Every counter and limit is a number that is not negative. */
  ghost predicate WellConfigured(db: Db) {
    forall base, f :: DbKey(base, f) in db ==> db[DbKey(base, f)].Some? && db[DbKey(base, f)].value >= 0
  }

  /** The live User objects that are logged in at a user directory. */
  ghost function LoggedInAs(users: map<UserId, UserState>, key: Key): set<UserId> {
    set id | id in users && users[id].authenticated && users[id].conf == Some(key)
  }

  /** The live connections of a server that are counted as unauthenticated. */
  ghost function Unauthenticated(controls: map<nat, ControlState>, server: Key): set<nat> {
    set c | c in controls && controls[c].counted && controls[c].server == server
  }

  function Bonus(ratio: Ratio, total: int): int {
    if ratio.NoRatio? then 0 else ratio.bonus(total)
  }

  /** The truncated product of a ratio that is not negative: not negative, and growing with the total. */
  ghost predicate Growing(ratio: Ratio) {
    ratio.Ratio? ==> forall a, b :: 0 <= a <= b ==> 0 <= ratio.bonus(a) <= ratio.bonus(b)
  }

  /** A counter stays at or below a maximum it started within. */
  ghost predicate Within(start: Db, db: Db, key: Key, f: Field, max: Field) {
    Count(start, key, max) != 0 && Count(start, key, f) <= Count(start, key, max) ==>
      Count(db, key, f) <= Count(start, key, max)
  }

  /** Downloads stay within their maximum extended by the bonus for uploads. */
  ghost predicate DownloadsWithin(start: Db, db: Db, key: Key, ratio: Ratio) {
    var max := Count(start, key, DownloadBytesMax);
    max > 0 && Count(start, key, DownloadBytes) <= max + Bonus(ratio, Count(start, key, UploadBytes)) ==>
      Count(db, key, DownloadBytes) <= max + Bonus(ratio, Count(db, key, UploadBytes))
  }

  ghost predicate IsMax(f: Field) {
    f in {LoginsMax, UploadBytesMax, DownloadBytesMax, ConnectionsMax}
  }

  /** What holds of one directory. */
  ghost predicate Kept(start: Db, w: World, ratios: Key -> Ratio, key: Key) {
    && Count(w.db, key, Logins) == Count(start, key, Logins) + |LoggedInAs(w.users, key)|
    && Count(w.db, key, Connections) == Count(start, key, Connections) + |Unauthenticated(w.controls, key)|
    && (forall f :: IsMax(f) ==> Count(w.db, key, f) == Count(start, key, f))
    && Within(start, w.db, key, Logins, LoginsMax)
    && Within(start, w.db, key, Connections, ConnectionsMax)
    && Within(start, w.db, key, UploadBytes, UploadBytesMax)
    && DownloadsWithin(start, w.db, key, ratios(key))
    && Count(start, key, UploadBytes) <= Count(w.db, key, UploadBytes)
    && Count(start, key, DownloadBytes) <= Count(w.db, key, DownloadBytes)
  }

  ghost predicate Inv(start: Db, w: World, ratios: Key -> Ratio) {
    && WellConfigured(start) && WellConfigured(w.db)
    && (forall id :: id in w.users && w.users[id].authenticated ==> w.users[id].conf.Some?)
    && (forall key :: Growing(ratios(key)))
    && forall key :: Kept(start, w, ratios, key)
  }

  /** The one discipline the sessions must keep: no login over an old one. */
  ghost predicate Disciplined(w: World, p: Prim) {
    p.Login? && p.id in w.users ==> !w.users[p.id].authenticated
  }

  // --- steps keep the invariant ---

  /** Writing one counter leaves all others alone. */
  lemma CountAfterSet(db: Db, base: Key, f: Field, n: int)
    ensures forall b, g :: Count(db[DbKey(base, f) := Some(n)], b, g) == if b == base && g == f then n else Count(db, b, g)
    ensures WellConfigured(db) && n >= 0 ==> WellConfigured(db[DbKey(base, f) := Some(n)])
  {
    var db' := db[DbKey(base, f) := Some(n)];
    forall b, g
      ensures Count(db', b, g) == if b == base && g == f then n else Count(db, b, g)
    {
      if DbKey(b, g) == DbKey(base, f) {
        DbKeyInjective(b, g, base, f);
      }
    }
  }

  lemma IncrementStep(db: Db, base: Key, f: Field, max: Field)
    requires WellConfigured(db)
    ensures var (db', b) := BookedIncrement(db, base, f, max);
            var n := Count(db, base, f) + 1;
            && !b.Threw? && (b.Refused? ==> db' == db)
            && (b.Booked? ==> db' == db[DbKey(base, f) := Some(n)] && (Count(db, base, max) == 0 || n <= Count(db, base, max)))
  {
  }

  lemma DecrementStep(db: Db, base: Key, f: Field)
    requires WellConfigured(db) && Count(db, base, f) >= 1
    ensures Decremented(db, DbKey(base, f), 1, 0) == (db[DbKey(base, f) := Some(Count(db, base, f) - 1)], Booked)
  {
  }

  /** A login counter moves together with the set of live logged-in users. */
  lemma LoginsMoved(start: Db, w: World, w': World, ratios: Key -> Ratio, key: Key, n: int)
    requires Inv(start, w, ratios)
    requires w'.db == w.db[DbKey(key, Logins) := Some(n)] && w'.controls == w.controls
    requires forall id :: id in w'.users && w'.users[id].authenticated ==> w'.users[id].conf.Some?
    requires n == Count(start, key, Logins) + |LoggedInAs(w'.users, key)|
    requires forall k :: k != key ==> LoggedInAs(w'.users, k) == LoggedInAs(w.users, k)
    requires n <= Count(w.db, key, Logins) || Count(w.db, key, LoginsMax) == 0 || n <= Count(w.db, key, LoginsMax)
    ensures Inv(start, w', ratios)
  {
    CountAfterSet(w.db, key, Logins, n);
    forall k
      ensures Kept(start, w', ratios, k)
    {
      assert Kept(start, w, ratios, k);
    }
  }

  /** A connection counter moves together with the set of live unauthenticated connections. */
  lemma ConnectionsMoved(start: Db, w: World, w': World, ratios: Key -> Ratio, key: Key, n: int)
    requires Inv(start, w, ratios)
    requires w'.db == w.db[DbKey(key, Connections) := Some(n)] && w'.users == w.users
    requires n == Count(start, key, Connections) + |Unauthenticated(w'.controls, key)|
    requires forall k :: k != key ==> Unauthenticated(w'.controls, k) == Unauthenticated(w.controls, k)
    requires n <= Count(w.db, key, Connections) || Count(w.db, key, ConnectionsMax) == 0
             || n <= Count(w.db, key, ConnectionsMax)
    ensures Inv(start, w', ratios)
  {
    CountAfterSet(w.db, key, Connections, n);
    forall k
      ensures Kept(start, w', ratios, k)
    {
      assert Kept(start, w, ratios, k);
    }
  }

  /** A change that moves no counter and no counted object. */
  lemma NothingMoved(start: Db, w: World, w': World, ratios: Key -> Ratio)
    requires Inv(start, w, ratios) && w'.db == w.db
    requires forall id :: id in w'.users && w'.users[id].authenticated ==> w'.users[id].conf.Some?
    requires forall k :: LoggedInAs(w'.users, k) == LoggedInAs(w.users, k)
    requires forall k :: Unauthenticated(w'.controls, k) == Unauthenticated(w.controls, k)
    ensures Inv(start, w', ratios)
  {
    forall k
      ensures Kept(start, w', ratios, k)
    {
      assert Kept(start, w, ratios, k);
    }
  }

  lemma LoggedInAfter(users: map<UserId, UserState>, id: UserId, u: UserState)
    ensures forall k :: LoggedInAs(users[id := u], k)
                     == if u.authenticated && u.conf == Some(k) then LoggedInAs(users, k) + {id} else LoggedInAs(users, k) - {id}
  {
  }

  lemma UnauthenticatedAfter(controls: map<nat, ControlState>, c: nat, u: ControlState)
    ensures forall k :: Unauthenticated(controls[c := u], k)
                     == if u.counted && u.server == k then Unauthenticated(controls, k) + {c} else Unauthenticated(controls, k) - {c}
  {
  }

  /** A user who is logged in at one directory is not in the others' sets; one who is not is in none. */
  lemma LoggedInOnce(users: map<UserId, UserState>, id: UserId)
    requires id in users
    ensures forall k :: id in LoggedInAs(users, k) <==> users[id].authenticated && users[id].conf == Some(k)
    ensures forall k :: id !in LoggedInAs(users, k) ==> LoggedInAs(users, k) - {id} == LoggedInAs(users, k)
  {
  }

  /** One user logs in at a directory whose counter goes up by one, within its maximum. */
  lemma UserIn(start: Db, w: World, ratios: Key -> Ratio, id: UserId, u: UserState, key: Key)
    requires Inv(start, w, ratios) && id in w.users && !w.users[id].authenticated
    requires u.authenticated && u.conf == Some(key)
    requires Count(w.db, key, LoginsMax) == 0 || Count(w.db, key, Logins) + 1 <= Count(w.db, key, LoginsMax)
    ensures var db := w.db[DbKey(key, Logins) := Some(Count(w.db, key, Logins) + 1)];
            Inv(start, w.(db := db, users := w.users[id := u]), ratios)
  {
    var n := Count(w.db, key, Logins) + 1;
    var w' := w.(db := w.db[DbKey(key, Logins) := Some(n)], users := w.users[id := u]);
    assert Kept(start, w, ratios, key);
    LoggedInOnce(w.users, id);
    LoggedInAfter(w.users, id, u);
    LoginsMoved(start, w, w', ratios, key, n);
  }

  /** One user logs out of a directory whose counter goes down by one. */
  lemma UserOut(start: Db, w: World, ratios: Key -> Ratio, id: UserId, u: UserState, key: Key)
    requires Inv(start, w, ratios) && id in w.users && w.users[id].authenticated && w.users[id].conf == Some(key)
    requires !u.authenticated
    ensures Count(w.db, key, Logins) >= 1
    ensures var db := w.db[DbKey(key, Logins) := Some(Count(w.db, key, Logins) - 1)];
            Inv(start, w.(db := db, users := w.users[id := u]), ratios)
  {
    var n := Count(w.db, key, Logins) - 1;
    var w' := w.(db := w.db[DbKey(key, Logins) := Some(n)], users := w.users[id := u]);
    assert Kept(start, w, ratios, key);
    LoggedInOnce(w.users, id);
    LoggedInAfter(w.users, id, u);
    LoginsMoved(start, w, w', ratios, key, n);
  }

  lemma LogoutKeeps(start: Db, w: World, ratios: Key -> Ratio, id: UserId)
    requires Inv(start, w, ratios) && id in w.users
    ensures Inv(start, LogoutUser(w, id), ratios)
    ensures !LogoutUser(w, id).users[id].authenticated && LogoutUser(w, id).controls == w.controls
  {
    var u := w.users[id];
    if u.authenticated {
      UserOut(start, w, ratios, id, u.(authenticated := false), u.conf.value);
      DecrementStep(w.db, u.conf.value, Logins);
    } else {
      assert w.users[id := u] == w.users;
    }
  }

  lemma DropKeeps(start: Db, w: World, ratios: Key -> Ratio, id: UserId)
    requires Inv(start, w, ratios) && id in w.users
    ensures Inv(start, Do(w, DropUser(id), ratios), ratios)
  {
    var w1 := LogoutUser(w, id);
    LogoutKeeps(start, w, ratios, id);
    var w2 := w1.(users := w1.users - {id});
    forall k
      ensures LoggedInAs(w2.users, k) == LoggedInAs(w1.users, k)
    {
    }
    NothingMoved(start, w1, w2, ratios);
  }

  lemma UncountKeeps(start: Db, w: World, ratios: Key -> Ratio, c: nat)
    requires Inv(start, w, ratios) && c in w.controls
    ensures var (c', db, b) := Uncounted(w.controls[c], w.db);
            !b.Threw? && !c'.counted && Inv(start, w.(db := db, controls := w.controls[c := c']), ratios)
  {
    var (c', db, b) := Uncounted(w.controls[c], w.db);
    var w' := w.(db := db, controls := w.controls[c := c']);
    if w.controls[c].counted {
      var key := w.controls[c].server;
      assert Kept(start, w, ratios, key);
      assert c in Unauthenticated(w.controls, key);
      DecrementStep(w.db, key, Connections);
      UnauthenticatedAfter(w.controls, c, c');
      forall k | k != key
        ensures Unauthenticated(w'.controls, k) == Unauthenticated(w.controls, k)
      {
        assert c !in Unauthenticated(w.controls, k);
      }
      ConnectionsMoved(start, w, w', ratios, key, Count(w.db, key, Connections) - 1);
    } else {
      assert w'.controls == w.controls;
    }
  }

  lemma DisconnectKeeps(start: Db, w: World, ratios: Key -> Ratio, c: nat)
    requires Inv(start, w, ratios) && c in w.controls
    ensures Inv(start, Do(w, Disconnect(c), ratios), ratios)
  {
    var (c', db, b) := Uncounted(w.controls[c], w.db);
    UncountKeeps(start, w, ratios, c);
    var w1 := w.(db := db, controls := w.controls[c := c']);
    var w2 := w.(db := db, controls := w.controls - {c});
    forall k
      ensures Unauthenticated(w2.controls, k) == Unauthenticated(w1.controls, k)
    {
    }
    NothingMoved(start, w1, w2, ratios);
  }

  lemma ConnectKeeps(start: Db, w: World, ratios: Key -> Ratio, c: nat, server: Key)
    requires Inv(start, w, ratios)
    ensures Inv(start, Do(w, Connect(c, server), ratios), ratios)
  {
    IncrementStep(w.db, server, Connections, ConnectionsMax);
    var booked := BookedIncrement(w.db, server, Connections, ConnectionsMax).1.Booked?;
    if c !in w.controls && booked {
      ConnectionIn(start, w, ratios, c, server);
    }
  }

  /** One connection comes to a server whose counter goes up by one, within its maximum. */
  lemma ConnectionIn(start: Db, w: World, ratios: Key -> Ratio, c: nat, server: Key)
    requires Inv(start, w, ratios) && c !in w.controls
    requires Count(w.db, server, ConnectionsMax) == 0
             || Count(w.db, server, Connections) + 1 <= Count(w.db, server, ConnectionsMax)
    ensures var db := w.db[DbKey(server, Connections) := Some(Count(w.db, server, Connections) + 1)];
            Inv(start, w.(db := db, controls := w.controls[c := ControlState(server, true)]), ratios)
  {
    var n, u := Count(w.db, server, Connections) + 1, ControlState(server, true);
    var w' := w.(db := w.db[DbKey(server, Connections) := Some(n)], controls := w.controls[c := u]);
    assert Kept(start, w, ratios, server);
    UnauthenticatedAfter(w.controls, c, u);
    forall k
      ensures Unauthenticated(w.controls, k) - {c} == Unauthenticated(w.controls, k)
    {
    }
    ConnectionsMoved(start, w, w', ratios, server, n);
  }

  /** A user that is not logged in comes or changes. */
  lemma UserChanged(start: Db, w: World, ratios: Key -> Ratio, id: UserId, u: UserState)
    requires Inv(start, w, ratios) && !u.authenticated && (id in w.users ==> !w.users[id].authenticated)
    ensures Inv(start, w.(users := w.users[id := u]), ratios)
  {
    var w' := w.(users := w.users[id := u]);
    forall k
      ensures LoggedInAs(w'.users, k) == LoggedInAs(w.users, k)
    {
    }
    NothingMoved(start, w, w', ratios);
  }

  /** The User part of a login. */
  lemma AuthenticateKeeps(start: Db, w: World, ratios: Key -> Ratio, id: UserId, key: Key, name: string)
    requires Inv(start, w, ratios) && id in w.users && !w.users[id].authenticated
    ensures var (u, db, r) := LoggedInAt(w.users[id], w.db, key, name);
            Inv(start, w.(db := db, users := w.users[id := u]), ratios)
  {
    var (u, db, r) := LoggedInAt(w.users[id], w.db, key, name);
    IncrementStep(w.db, key, Logins, LoginsMax);
    if r.LoggedIn? {
      UserIn(start, w, ratios, id, u, key);
    } else {
      UserChanged(start, w, ratios, id, u);
    }
  }

  lemma LoginKeeps(start: Db, w: World, ratios: Key -> Ratio, c: nat, id: UserId, name: string, exist: bool, passwordOk: bool)
    requires Inv(start, w, ratios) && c in w.controls && id in w.users && !w.users[id].authenticated
    ensures Inv(start, LoginUser(w, c, id, name, exist, passwordOk), ratios)
  {
    var users := w.controls[c].server + "/users";
    var (u, db, r) := Authenticated(w.users[id], w.db, users, name, exist, passwordOk);
    var w1 := w.(db := db, users := w.users[id := u]);
    if ValidUsername(name) && exist && passwordOk {
      AuthenticateKeeps(start, w, ratios, id, users + "/" + name, name);
    } else {
      UserChanged(start, w, ratios, id, u);
    }
    if r.LoggedIn? {
      UncountKeeps(start, w1, ratios, c);
    } else {
      assert w1.controls[c := w1.controls[c]] == w1.controls;
    }
  }

  lemma XferLimitIs(db: Db, key: Key, dir: Direction, ratio: Ratio)
    requires WellConfigured(db)
    ensures XferLimit(db, key, dir, ratio)
         == Some(Count(db, key, BytesMaxField(dir))
                 + if dir.Download? then Bonus(ratio, Count(db, key, UploadBytes)) else 0)
  {
  }

  /** A byte counter grows within its limit. */
  lemma BytesMoved(start: Db, w: World, ratios: Key -> Ratio, key: Key, dir: Direction, bytes: nat)
    requires Inv(start, w, ratios)
    requires var f := BytesField(dir);
             var n, limit := Count(w.db, key, f) + bytes, XferLimit(w.db, key, dir, ratios(key));
             limit.Some? && (limit.value == 0 || n <= limit.value)
    ensures var f := BytesField(dir);
            Inv(start, w.(db := w.db[DbKey(key, f) := Some(Count(w.db, key, f) + bytes)]), ratios)
  {
    var f := BytesField(dir);
    var n := Count(w.db, key, f) + bytes;
    var w' := w.(db := w.db[DbKey(key, f) := Some(n)]);
    CountAfterSet(w.db, key, f, n);
    forall k
      ensures Kept(start, w', ratios, k)
    {
      BytesKeptFor(start, w, ratios, key, dir, n, w'.db, k);
    }
  }

  lemma BytesKeptFor(start: Db, w: World, ratios: Key -> Ratio, key: Key, dir: Direction, n: int, db: Db, k: Key)
    requires Inv(start, w, ratios) && Count(w.db, key, BytesField(dir)) <= n
    requires var limit := XferLimit(w.db, key, dir, ratios(key)); limit.Some? && (limit.value == 0 || n <= limit.value)
    requires forall b, g :: Count(db, b, g) == if b == key && g == BytesField(dir) then n else Count(w.db, b, g)
    ensures Kept(start, w.(db := db), ratios, k)
  {
    assert Kept(start, w, ratios, k);
    if k == key {
      BytesKept(start, w, ratios, key, dir, n, db);
    } else {
      KeptElsewhere(start, w, ratios, k, db);
    }
  }

  /** What holds of a directory depends on its own counters only. */
  lemma KeptElsewhere(start: Db, w: World, ratios: Key -> Ratio, key: Key, db: Db)
    requires Kept(start, w, ratios, key)
    requires forall g :: Count(db, key, g) == Count(w.db, key, g)
    ensures Kept(start, w.(db := db), ratios, key)
  {
  }

  lemma BytesKept(start: Db, w: World, ratios: Key -> Ratio, key: Key, dir: Direction, n: int, db: Db)
    requires WellConfigured(start) && WellConfigured(w.db) && Growing(ratios(key)) && Kept(start, w, ratios, key)
    requires Count(w.db, key, BytesField(dir)) <= n
    requires var limit := XferLimit(w.db, key, dir, ratios(key)); limit.Some? && (limit.value == 0 || n <= limit.value)
    requires forall g :: Count(db, key, g) == if g == BytesField(dir) then n else Count(w.db, key, g)
    ensures Kept(start, w.(db := db), ratios, key)
  {
    XferLimitIs(w.db, key, dir, ratios(key));
    BonusGrows(ratios(key), Count(w.db, key, UploadBytes), Count(db, key, UploadBytes));
    assert Count(w.db, key, BytesMaxField(dir)) == Count(start, key, BytesMaxField(dir));
  }

  lemma BonusGrows(ratio: Ratio, a: int, b: int)
    requires Growing(ratio) && 0 <= a <= b
    ensures 0 <= Bonus(ratio, a) <= Bonus(ratio, b)
  {
  }

  lemma BookKeeps(start: Db, w: World, ratios: Key -> Ratio, id: UserId, bytes: nat, dir: Direction)
    requires Inv(start, w, ratios) && id in w.users && w.users[id].conf.Some?
    ensures Inv(start, Do(w, Book(id, bytes, dir), ratios), ratios)
  {
    var u, key := w.users[id], w.users[id].conf.value;
    var (db, b) := BookedXfer(u, w.db, bytes, dir, ratios(key));
    if Accounting(u, dir) && b.Booked? {
      BookedKeeps(start, w, ratios, u, key, bytes, dir);
    } else {
      NotBooked(u, w.db, bytes, dir, ratios(key));
      assert w.(db := w.db) == w;
    }
  }

  lemma BookedKeeps(start: Db, w: World, ratios: Key -> Ratio, u: UserState, key: Key, bytes: nat, dir: Direction)
    requires Inv(start, w, ratios) && u.conf == Some(key) && Accounting(u, dir)
    requires BookedXfer(u, w.db, bytes, dir, ratios(key)).1.Booked?
    ensures Inv(start, w.(db := BookedXfer(u, w.db, bytes, dir, ratios(key)).0), ratios)
  {
    BookedStep(u, w.db, bytes, dir, ratios(key));
    BytesMoved(start, w, ratios, key, dir, bytes);
  }

  lemma NotBooked(u: UserState, db: Db, bytes: nat, dir: Direction, ratio: Ratio)
    requires !Accounting(u, dir) || !BookedXfer(u, db, bytes, dir, ratio).1.Booked?
    ensures BookedXfer(u, db, bytes, dir, ratio).0 == db
  {
  }

  lemma BookedStep(u: UserState, db: Db, bytes: nat, dir: Direction, ratio: Ratio)
    requires WellConfigured(db) && u.conf.Some? && Accounting(u, dir)
    requires BookedXfer(u, db, bytes, dir, ratio).1.Booked?
    ensures var key, f := u.conf.value, BytesField(dir);
            var n, limit := Count(db, key, f) + bytes, XferLimit(db, key, dir, ratio);
            && BookedXfer(u, db, bytes, dir, ratio).0 == db[DbKey(key, f) := Some(n)]
            && limit.Some? && (limit.value == 0 || n <= limit.value)
  {
    XferLimitIs(db, u.conf.value, dir, ratio);
  }

  lemma StepKeeps(start: Db, w: World, ratios: Key -> Ratio, p: Prim)
    requires Inv(start, w, ratios) && Disciplined(w, p)
    ensures Inv(start, Do(w, p, ratios), ratios)
  {
    match p
    case Connect(c, server) => ConnectKeeps(start, w, ratios, c, server);
    case NewUser(id, c) =>
      if c in w.controls && id !in w.users {
        UserChanged(start, w, ratios, id, FRESH_USER);
      }
    case CopyUser(source, id) =>
      if source in w.users && id !in w.users {
        UserChanged(start, w, ratios, id, Copied(w.users[source]));
      }
    case Login(c, id, name, exist, passwordOk) =>
      if c in w.controls && id in w.users {
        LoginKeeps(start, w, ratios, c, id, name, exist, passwordOk);
      }
    case Logout(id) =>
      if id in w.users {
        LogoutKeeps(start, w, ratios, id);
      }
    case DropUser(id) =>
      if id in w.users {
        DropKeeps(start, w, ratios, id);
      }
    case Disconnect(c) =>
      if c in w.controls {
        DisconnectKeeps(start, w, ratios, c);
      }
    case Book(id, bytes, dir) =>
      if id in w.users && w.users[id].conf.Some? {
        BookKeeps(start, w, ratios, id, bytes, dir);
      }
  }

  // --- whole runs ---

  /** Every step of every action keeps the invariant, so that it also holds inside an HTTP request. */
  lemma ProgramKeeps(start: Db, w: World, ratios: Key -> Ratio, a: Action, k: nat)
    requires Inv(start, w, ratios) && k <= |Program(w, a)|
    ensures Inv(start, DoAll(w, Program(w, a)[..k], ratios), ratios)
    decreases k
  {
    var ps := Program(w, a);
    if k > 0 {
      ProgramKeeps(start, w, ratios, a, k - 1);
      var before := DoAll(w, ps[..k - 1], ratios);
      assert ps[..k][..k - 1] == ps[..k - 1];
      ProgramIsDisciplined(start, w, ratios, a, k - 1);
      StepKeeps(start, before, ratios, ps[k - 1]);
    }
  }

  /** The sessions keep the discipline: an FTP login comes after a logout, an HTTP login is made on a new User. */
  lemma ProgramIsDisciplined(start: Db, w: World, ratios: Key -> Ratio, a: Action, k: nat)
    requires Inv(start, w, ratios) && k < |Program(w, a)|
    ensures Disciplined(DoAll(w, Program(w, a)[..k], ratios), Program(w, a)[k])
  {
    var ps := Program(w, a);
    if ps[k].Login? {
      assert k == 1 && ps[..1] == [ps[0]] && ps[..1][..0] == [];
      assert DoAll(w, ps[..1], ratios) == Do(w, ps[0], ratios);
      if a.FtpPass? && OfSession(a.c) in w.users {
        LogoutKeeps(start, w, ratios, OfSession(a.c));
      }
    }
  }

  /** The invariant holds at the start of a server without sessions. */
  lemma InvAtStart(start: Db, ratios: Key -> Ratio)
    requires WellConfigured(start) && forall key :: Growing(ratios(key))
    ensures Inv(start, World(start, map[], map[]), ratios)
  {
    var w := World(start, map[], map[]);
    forall key
      ensures Kept(start, w, ratios, key)
    {
      assert LoggedInAs(w.users, key) == {} && Unauthenticated(w.controls, key) == {};
    }
  }

  lemma {:induction false} RunKeeps(start: Db, ratios: Key -> Ratio, actions: seq<Action>)
    requires WellConfigured(start) && forall key :: Growing(ratios(key))
    ensures Inv(start, ActAll(World(start, map[], map[]), actions, ratios), ratios)
  {
    if actions == [] {
      InvAtStart(start, ratios);
    } else {
      var front, a := actions[..|actions| - 1], actions[|actions| - 1];
      RunKeeps(start, ratios, front);
      var w := ActAll(World(start, map[], map[]), front, ratios);
      ProgramKeeps(start, w, ratios, a, |Program(w, a)|);
      assert Program(w, a)[..|Program(w, a)|] == Program(w, a);
    }
  }

  // --- what single actions and whole runs leave ---

  /** A login succeeds exactly for a valid name that exists, with its password, below the maximum; it then moves
      one connection from the unauthenticated ones to the logins of the user, and nothing else is counted. */
  lemma LoginMovesCounts(w: World, c: nat, id: UserId, name: string, exist: bool, passwordOk: bool)
    requires WellConfigured(w.db) && c in w.controls && id in w.users && w.controls[c].counted
    requires Count(w.db, w.controls[c].server, Connections) >= 1
    ensures var server, w' := w.controls[c].server, LoginUser(w, c, id, name, exist, passwordOk);
            var key := server + "/users" + "/" + name;
            var fits := Count(w.db, key, LoginsMax) == 0 || Count(w.db, key, Logins) < Count(w.db, key, LoginsMax);
            if ValidUsername(name) && exist && passwordOk && fits then
              && w'.users[id].authenticated && w'.users[id].conf == Some(key) && !w'.controls[c].counted
              && forall b, f :: Count(w'.db, b, f)
                   == if b == key && f == Logins then Count(w.db, b, f) + 1
                      else if b == server && f == Connections then Count(w.db, b, f) - 1
                      else Count(w.db, b, f)
            else w'.db == w.db && w'.controls == w.controls && w'.users[id].authenticated == w.users[id].authenticated
  {
    var server := w.controls[c].server;
    var key := server + "/users" + "/" + name;
    IncrementStep(w.db, key, Logins, LoginsMax);
    var (u, db, r) := Authenticated(w.users[id], w.db, server + "/users", name, exist, passwordOk);
    if r.LoggedIn? {
      CountAfterSet(w.db, key, Logins, Count(w.db, key, Logins) + 1);
      assert Count(db, server, Connections) == Count(w.db, server, Connections);
      DecrementStep(db, server, Connections);
      CountAfterSet(db, server, Connections, Count(db, server, Connections) - 1);
    } else {
      assert w.controls[c := w.controls[c]] == w.controls;
    }
  }

  /** What is over leaves nothing behind. */
  lemma ActionEnds(w: World, a: Action, ratios: Key -> Ratio)
    ensures var w' := Act(w, a, ratios);
            match a
            case FtpGone(c) => OfSession(c) !in w'.users && c !in w'.controls
            case HttpGone(c) => c !in w'.controls
            case TransferGone(x) => OfTransfer(x) !in w'.users
            case FtpRein(c) => OfSession(c) in w'.users && w'.users[OfSession(c)].conf.Some? ==> !w'.users[OfSession(c)].authenticated
            case FtpQuit(c) => OfSession(c) in w'.users && w'.users[OfSession(c)].conf.Some? ==> !w'.users[OfSession(c)].authenticated
            case _ => true
  {
    var ps := Program(w, a);
    if |ps| == 1 {
      DoOne(w, ps, ratios);
    } else if a.FtpGone? {
      DoTwo(w, ps, ratios);
    }
  }

  /** A new connection has a new user object and is counted as unauthenticated. */
  lemma ConnectionBegins(w: World, c: nat, server: Key, ratios: Key -> Ratio)
    requires c !in w.controls && OfSession(c) !in w.users
    ensures var w' := Act(w, FtpConnect(c, server), ratios);
            c in w'.controls ==> w'.controls[c] == ControlState(server, true) && OfSession(c) in w'.users
                                 && w'.users[OfSession(c)] == FRESH_USER
  {
    DoTwo(w, Program(w, FtpConnect(c, server)), ratios);
  }

  /** A transfer has a copy of the user who started it, and books at the same directory. */
  lemma TransferBegins(w: World, c: nat, x: nat, ratios: Key -> Ratio)
    requires OfSession(c) in w.users && OfTransfer(x) !in w.users
    ensures var w' := Act(w, FtpTransfer(c, x), ratios);
            OfTransfer(x) in w'.users && w'.users[OfTransfer(x)] == Copied(w.users[OfSession(c)]) && w'.db == w.db
  {
    DoOne(w, Program(w, FtpTransfer(c, x)), ratios);
  }

  /** The user object of an HTTP request is gone after it, and its copy for the transfer stays, not logged in. */
  lemma RequestEnds(w: World, c: nat, u: nat, x: nat, name: string, exist: bool, passwordOk: bool, ratios: Key -> Ratio)
    requires c in w.controls && OfRequest(u) !in w.users && OfTransfer(x) !in w.users
    ensures var w' := Act(w, HttpRequest(c, u, x, name, exist, passwordOk), ratios);
            OfRequest(u) !in w'.users && OfTransfer(x) in w'.users && !w'.users[OfTransfer(x)].authenticated
  {
    var ps := Program(w, HttpRequest(c, u, x, name, exist, passwordOk));
    DoTwo(w, ps[..2], ratios);
    DoMore(w, ps, ratios);
  }

  /** Whoever was logged in before, after PASS exactly a valid name that exists, with its password and below
      the maximum once the old login is given up, is logged in. */
  lemma PassLogsIn(start: Db, w: World, c: nat, name: string, exist: bool, passwordOk: bool, ratios: Key -> Ratio)
    requires Inv(start, w, ratios) && c in w.controls && OfSession(c) in w.users
    ensures var id, w' := OfSession(c), Act(w, FtpPass(c, name, exist, passwordOk), ratios);
            var key, db := w.controls[c].server + "/users" + "/" + name, LogoutUser(w, id).db;
            && id in w'.users
            && (w'.users[id].authenticated <==>
                  && ValidUsername(name) && exist && passwordOk
                  && (Count(db, key, LoginsMax) == 0 || Count(db, key, Logins) < Count(db, key, LoginsMax)))
            && (w'.users[id].authenticated ==> w'.users[id].conf == Some(key))
  {
    var id := OfSession(c);
    var out := LogoutUser(w, id);
    DoTwo(w, Program(w, FtpPass(c, name, exist, passwordOk)), ratios);
    LogoutKeeps(start, w, ratios, id);
    LoginSucceeds(out, c, id, name, exist, passwordOk);
  }

  lemma LoginSucceeds(w: World, c: nat, id: UserId, name: string, exist: bool, passwordOk: bool)
    requires WellConfigured(w.db) && c in w.controls && id in w.users && !w.users[id].authenticated
    ensures var key, w' := w.controls[c].server + "/users" + "/" + name, LoginUser(w, c, id, name, exist, passwordOk);
            && (w'.users[id].authenticated <==>
                  && ValidUsername(name) && exist && passwordOk
                  && (Count(w.db, key, LoginsMax) == 0 || Count(w.db, key, Logins) < Count(w.db, key, LoginsMax)))
            && (w'.users[id].authenticated ==> w'.users[id].conf == Some(key))
  {
    IncrementStep(w.db, w.controls[c].server + "/users" + "/" + name, Logins, LoginsMax);
  }

  lemma DoOne(w: World, ps: seq<Prim>, ratios: Key -> Ratio)
    requires |ps| == 1
    ensures DoAll(w, ps, ratios) == Do(w, ps[0], ratios)
  {
    assert ps[..0] == [];
    assert DoAll(w, [], ratios) == w;
  }

  lemma DoTwo(w: World, ps: seq<Prim>, ratios: Key -> Ratio)
    requires |ps| == 2
    ensures DoAll(w, ps, ratios) == Do(Do(w, ps[0], ratios), ps[1], ratios)
  {
    DoOne(w, ps[..1], ratios);
  }

  lemma DoMore(w: World, ps: seq<Prim>, ratios: Key -> Ratio)
    requires |ps| == 4
    ensures DoAll(w, ps, ratios) == Do(Do(DoAll(w, ps[..2], ratios), ps[2], ratios), ps[3], ratios)
  {
    assert ps[..3][..2] == ps[..2];
  }

  /** When all sessions and transfers are over, every counter is back where it started. */
  lemma AllGone(start: Db, ratios: Key -> Ratio, actions: seq<Action>)
    requires WellConfigured(start) && forall key :: Growing(ratios(key))
    requires var w := ActAll(World(start, map[], map[]), actions, ratios); w.users == map[] && w.controls == map[]
    ensures var w := ActAll(World(start, map[], map[]), actions, ratios);
            forall key :: Count(w.db, key, Logins) == Count(start, key, Logins)
                          && Count(w.db, key, Connections) == Count(start, key, Connections)
  {
    var w := ActAll(World(start, map[], map[]), actions, ratios);
    RunKeeps(start, ratios, actions);
    forall key
      ensures Count(w.db, key, Logins) == Count(start, key, Logins)
              && Count(w.db, key, Connections) == Count(start, key, Connections)
    {
      assert Kept(start, w, ratios, key);
      assert LoggedInAs(w.users, key) == {} && Unauthenticated(w.controls, key) == {};
    }
  }
}
