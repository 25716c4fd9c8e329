/** What the quotas mean for the bytes that transfers move (lib/xferlimit.hh, src/xferlimituser.hh): every
    piece a transfer has moved is offered to the counter of its user's directory, over all sessions. */
module Quotas {
  import opened Accounts
  import opened ConfDBs
  import opened Sessions
  import opened Wrappers

  /** The bytes moved for one directory and direction: those booked, those whose booking was refused and how
      many bookings that were, and those of users who are not accounted for. */
  datatype Tally = Tally(booked: nat, refused: nat, refusals: nat, unaccounted: nat)

  /** Is this action a piece moved for the directory? */
  predicate MovesFor(w: World, a: Action, key: Key, dir: Direction) {
    a.Transferred? && a.dir == dir && OfTransfer(a.x) in w.users && w.users[OfTransfer(a.x)].conf == Some(key)
  }

  function Counted(t: Tally, w: World, a: Action, ratios: Key -> Ratio, key: Key, dir: Direction): Tally {
    if !MovesFor(w, a, key, dir) then t
    else
      var u := w.users[OfTransfer(a.x)];
      if !Accounting(u, dir) then t.(unaccounted := t.unaccounted + a.bytes)
      else if BookedXfer(u, w.db, a.bytes, dir, ratios(key)).1.Booked? then t.(booked := t.booked + a.bytes)
      else t.(refused := t.refused + a.bytes, refusals := t.refusals + 1)
  }

  /** The bytes moved in a run. */
  function Moved(w: World, actions: seq<Action>, ratios: Key -> Ratio, key: Key, dir: Direction): Tally {
    if actions == [] then Tally(0, 0, 0, 0)
    else
      var front, a := actions[..|actions| - 1], actions[|actions| - 1];
      Counted(Moved(w, front, ratios, key, dir), ActAll(w, front, ratios), a, ratios, key, dir)
  }

  /** No piece is larger than this; on the buffered path of a transfer that is its buffer, 2^24 bytes. */
  ghost predicate PiecesWithin(actions: seq<Action>, piece: nat) {
    forall i :: 0 <= i < |actions| && actions[i].Transferred? ==> actions[i].bytes <= piece
  }

  // --- steps ---

  lemma IncrementElsewhere(db: Db, base: Key, value: Field, max: Field, key: Key, f: Field)
    requires value != f
    ensures Count(BookedIncrement(db, base, value, max).0, key, f) == Count(db, key, f)
  {
    var n := (if DbKey(base, value) in db && db[DbKey(base, value)].Some? then db[DbKey(base, value)].value else 0) + 1;
    CountAfterSet(db, base, value, n);
  }

  lemma DecrementElsewhere(db: Db, base: Key, value: Field, key: Key, f: Field)
    requires value != f
    ensures Count(Decremented(db, DbKey(base, value), 1, 0).0, key, f) == Count(db, key, f)
  {
    var n := (if DbKey(base, value) in db && db[DbKey(base, value)].Some? then db[DbKey(base, value)].value else 0) - 1;
    CountAfterSet(db, base, value, n);
  }

  lemma LogoutElsewhere(w: World, id: UserId, key: Key, dir: Direction)
    requires id in w.users
    ensures Count(LogoutUser(w, id).db, key, BytesField(dir)) == Count(w.db, key, BytesField(dir))
  {
    if w.users[id].conf.Some? {
      DecrementElsewhere(w.db, w.users[id].conf.value, Logins, key, BytesField(dir));
    }
  }

  lemma LoginElsewhere(w: World, c: nat, id: UserId, name: string, exist: bool, passwordOk: bool, key: Key, dir: Direction)
    requires c in w.controls && id in w.users
    ensures Count(LoginUser(w, c, id, name, exist, passwordOk).db, key, BytesField(dir)) == Count(w.db, key, BytesField(dir))
  {
    var server := w.controls[c].server;
    var (u, db, r) := Authenticated(w.users[id], w.db, server + "/users", name, exist, passwordOk);
    IncrementElsewhere(w.db, server + "/users" + "/" + name, Logins, LoginsMax, key, BytesField(dir));
    DecrementElsewhere(db, server, Connections, key, BytesField(dir));
  }

  /** No step but a booking touches a byte counter. */
  lemma BytesStay(w: World, p: Prim, ratios: Key -> Ratio, key: Key, dir: Direction)
    requires !p.Book?
    ensures Count(Do(w, p, ratios).db, key, BytesField(dir)) == Count(w.db, key, BytesField(dir))
  {
    match p
    case Connect(c, server) => IncrementElsewhere(w.db, server, Connections, ConnectionsMax, key, BytesField(dir));
    case NewUser(id, c) =>
    case CopyUser(source, id) =>
    case Login(c, id, name, exist, passwordOk) =>
      if c in w.controls && id in w.users {
        LoginElsewhere(w, c, id, name, exist, passwordOk, key, dir);
      }
    case Logout(id) =>
      if id in w.users {
        LogoutElsewhere(w, id, key, dir);
      }
    case DropUser(id) =>
      if id in w.users {
        LogoutElsewhere(w, id, key, dir);
      }
    case Disconnect(c) =>
      if c in w.controls {
        DecrementElsewhere(w.db, w.controls[c].server, Connections, key, BytesField(dir));
      }
  }

  lemma {:induction false} ProgramBytesStay(w: World, ps: seq<Prim>, ratios: Key -> Ratio, key: Key, dir: Direction)
    requires forall i :: 0 <= i < |ps| ==> !ps[i].Book?
    ensures Count(DoAll(w, ps, ratios).db, key, BytesField(dir)) == Count(w.db, key, BytesField(dir))
  {
    if ps != [] {
      ProgramBytesStay(w, ps[..|ps| - 1], ratios, key, dir);
      BytesStay(DoAll(w, ps[..|ps| - 1], ratios), ps[|ps| - 1], ratios, key, dir);
    }
  }

  /** A booking adds its bytes to its own counter, or nothing to any. */
  lemma BookingCounts(w: World, a: Action, ratios: Key -> Ratio, key: Key, dir: Direction, t: Tally)
    requires a.Transferred?
    ensures Count(Do(w, Book(OfTransfer(a.x), a.bytes, a.dir), ratios).db, key, BytesField(dir)) - Count(w.db, key, BytesField(dir))
         == Counted(t, w, a, ratios, key, dir).booked - t.booked
  {
    var id := OfTransfer(a.x);
    if id in w.users && w.users[id].conf.Some? {
      var base, f := w.users[id].conf.value, BytesField(a.dir);
      CountAfterSet(w.db, base, f, Count(w.db, base, f) + a.bytes);
    }
  }

  lemma ActionCounts(w: World, a: Action, ratios: Key -> Ratio, key: Key, dir: Direction, t: Tally)
    ensures Count(Act(w, a, ratios).db, key, BytesField(dir)) - Count(w.db, key, BytesField(dir))
         == Counted(t, w, a, ratios, key, dir).booked - t.booked
  {
    if a.Transferred? {
      var ps := Program(w, a);
      assert ps[..0] == [] && DoAll(w, ps, ratios) == Do(DoAll(w, ps[..0], ratios), ps[0], ratios);
      BookingCounts(w, a, ratios, key, dir, t);
    } else {
      ProgramBytesStay(w, Program(w, a), ratios, key, dir);
    }
  }

  // --- whole runs ---

  /** A byte counter has grown by exactly the bytes booked, over all sessions of all users. */
  lemma {:induction false} CounterIsBooked(w: World, actions: seq<Action>, ratios: Key -> Ratio, key: Key, dir: Direction)
    ensures Count(ActAll(w, actions, ratios).db, key, BytesField(dir))
         == Count(w.db, key, BytesField(dir)) + Moved(w, actions, ratios, key, dir).booked
  {
    if actions != [] {
      var front, a := actions[..|actions| - 1], actions[|actions| - 1];
      CounterIsBooked(w, front, ratios, key, dir);
      ActionCounts(ActAll(w, front, ratios), a, ratios, key, dir, Moved(w, front, ratios, key, dir));
    }
  }

  /** A refused booking leaves at most one piece unbooked. */
  lemma {:induction false} RefusedPieces(w: World, actions: seq<Action>, ratios: Key -> Ratio, key: Key, dir: Direction,
                                         piece: nat)
    requires PiecesWithin(actions, piece)
    ensures RefusedWithin(Moved(w, actions, ratios, key, dir), piece)
  {
    if actions != [] {
      var front, a := actions[..|actions| - 1], actions[|actions| - 1];
      assert PiecesWithin(front, piece);
      assert a.Transferred? ==> a.bytes <= piece;
      RefusedPieces(w, front, ratios, key, dir, piece);
      RefusedPiece(Moved(w, front, ratios, key, dir), ActAll(w, front, ratios), a, ratios, key, dir, piece);
    }
  }

  ghost predicate RefusedWithin(t: Tally, piece: nat) {
    t.refused <= piece * t.refusals
  }

  lemma RefusedPiece(t: Tally, w: World, a: Action, ratios: Key -> Ratio, key: Key, dir: Direction, piece: nat)
    requires RefusedWithin(t, piece) && (a.Transferred? ==> a.bytes <= piece)
    ensures RefusedWithin(Counted(t, w, a, ratios, key, dir), piece)
  {
    OneMore(piece, t.refusals);
  }

  lemma OneMore(piece: nat, n: nat)
    ensures piece * (n + 1) == piece * n + piece
  {
  }

  lemma QuotasKept(start: Db, actions: seq<Action>, ratios: Key -> Ratio, key: Key)
    requires WellConfigured(start) && forall k :: Growing(ratios(k))
    ensures var end := ActAll(World(start, map[], map[]), actions, ratios);
            DownloadsWithin(start, end.db, key, ratios(key)) && Within(start, end.db, key, UploadBytes, UploadBytesMax)
  {
    RunKeeps(start, ratios, actions);
    assert Kept(start, ActAll(World(start, map[], map[]), actions, ratios), ratios, key);
  }

  /** What the maximum and the bonus for uploads leave for downloads is what has been booked at most. */
  lemma DownloadsBooked(start: Db, actions: seq<Action>, ratios: Key -> Ratio, key: Key)
    requires WellConfigured(start) && (forall k :: Growing(ratios(k)))
    requires 0 < Count(start, key, DownloadBytesMax)
    requires Count(start, key, DownloadBytes) <= Count(start, key, DownloadBytesMax) + Bonus(ratios(key), Count(start, key, UploadBytes))
    ensures var w := World(start, map[], map[]);
            var uploads := Count(start, key, UploadBytes) + Moved(w, actions, ratios, key, Upload).booked;
            Count(start, key, DownloadBytes) + Moved(w, actions, ratios, key, Download).booked
              <= Count(start, key, DownloadBytesMax) + Bonus(ratios(key), uploads)
  {
    var w := World(start, map[], map[]);
    var end := ActAll(w, actions, ratios);
    QuotasKept(start, actions, ratios, key);
    assert Count(end.db, key, DownloadBytes) == Count(start, key, DownloadBytes) + Moved(w, actions, ratios, key, Download).booked by {
      CounterIsBooked(w, actions, ratios, key, Download);
    }
    assert Count(end.db, key, UploadBytes) == Count(start, key, UploadBytes) + Moved(w, actions, ratios, key, Upload).booked by {
      CounterIsBooked(w, actions, ratios, key, Upload);
    }
  }

  /** All downloads of all sessions of a directory together, as far as they are accounted for, move at most
      what the maximum and the bonus for uploads leave, and one piece for every refused booking. */
  lemma DownloadsMoveWithinQuota(start: Db, actions: seq<Action>, ratios: Key -> Ratio, key: Key, piece: nat)
    requires WellConfigured(start) && (forall k :: Growing(ratios(k))) && PiecesWithin(actions, piece)
    requires 0 < Count(start, key, DownloadBytesMax)
    requires Count(start, key, DownloadBytes) <= Count(start, key, DownloadBytesMax) + Bonus(ratios(key), Count(start, key, UploadBytes))
    ensures var w := World(start, map[], map[]);
            var t, uploaded := Moved(w, actions, ratios, key, Download), Moved(w, actions, ratios, key, Upload).booked;
            t.booked + t.refused
              <= Count(start, key, DownloadBytesMax) + Bonus(ratios(key), Count(start, key, UploadBytes) + uploaded)
                 - Count(start, key, DownloadBytes) + piece * t.refusals
  {
    DownloadsBooked(start, actions, ratios, key);
    RefusedPieces(World(start, map[], map[]), actions, ratios, key, Download, piece);
  }

  lemma UploadsBooked(start: Db, actions: seq<Action>, ratios: Key -> Ratio, key: Key)
    requires WellConfigured(start) && (forall k :: Growing(ratios(k)))
    requires Count(start, key, UploadBytes) <= Count(start, key, UploadBytesMax) != 0
    ensures Count(start, key, UploadBytes) + Moved(World(start, map[], map[]), actions, ratios, key, Upload).booked
         <= Count(start, key, UploadBytesMax)
  {
    var w := World(start, map[], map[]);
    QuotasKept(start, actions, ratios, key);
    CounterIsBooked(w, actions, ratios, key, Upload);
  }

  /** Uploads likewise, within their own maximum. */
  lemma UploadsMoveWithinQuota(start: Db, actions: seq<Action>, ratios: Key -> Ratio, key: Key, piece: nat)
    requires WellConfigured(start) && (forall k :: Growing(ratios(k))) && PiecesWithin(actions, piece)
    requires Count(start, key, UploadBytes) <= Count(start, key, UploadBytesMax) != 0
    ensures var t := Moved(World(start, map[], map[]), actions, ratios, key, Upload);
            t.booked + t.refused
              <= Count(start, key, UploadBytesMax) - Count(start, key, UploadBytes) + piece * t.refusals
  {
    UploadsBooked(start, actions, ratios, key);
    RefusedPieces(World(start, map[], map[]), actions, ratios, key, Upload, piece);
  }

  /** All bytes that transfers offer to the counter of a directory and direction. */
  function Offered(w: World, actions: seq<Action>, ratios: Key -> Ratio, key: Key, dir: Direction): nat {
    if actions == [] then 0
    else
      var front, a := actions[..|actions| - 1], actions[|actions| - 1];
      Offered(w, front, ratios, key, dir) + if MovesFor(ActAll(w, front, ratios), a, key, dir) then a.bytes else 0
  }

  /** Each of them is booked, refused or not accounted for. */
  lemma {:induction false} TallyIsWhole(w: World, actions: seq<Action>, ratios: Key -> Ratio, key: Key, dir: Direction)
    ensures var t := Moved(w, actions, ratios, key, dir);
            t.booked + t.refused + t.unaccounted == Offered(w, actions, ratios, key, dir)
  {
    if actions != [] {
      TallyIsWhole(w, actions[..|actions| - 1], ratios, key, dir);
    }
  }
}
