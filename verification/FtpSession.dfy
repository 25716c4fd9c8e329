/** The FTP session machine (src/ftpcontrol.cc, src/ftpcontrol.hh, lib/iocontextcontrolled.hh,
    src/ftpdatalistener.hh): authentication, transfers, passive mode, restart, rename and quit. */
module FtpSessions {
  import opened Bytes
  import opened Paths
  import opened PortText

  /** A transfer, as far as the session sees it (IOContextControlled): does it still report to the session? */
  class Job {
    var attached: bool

    constructor ()
      ensures attached
    {
      attached := true;
    }
  }

  /** The listener of passive mode (FTPDataListener), which may hold a transfer waiting for its connection. */
  class Listener {
    var attached: bool
    var data: Job?
    var finished: bool

    constructor ()
      ensures attached && data == null && !finished
    {
      attached, data, finished := true, null, false;
    }

    method SetData(job: Job)
      modifies `data
      ensures data == job
    {
      data := job;
    }

    method ReleaseData()
      modifies `data, `finished
      ensures data == null && finished
    {
      data, finished := null, true;
    }

    /** A connection has come in: the waiting transfer goes to it, once. */
    method NewIoContext() returns (job: Job?)
      modifies `data, `finished
      ensures job == old(data) && data == null
      ensures finished <==> old(finished) || job != null
    {
      if data == null {
        return null;
      }
      job := data;
      ReleaseData();
    }

    /** A finished listener asks for its destruction; one with nothing waiting does not accept. */
    method WantRead() returns (want: bool, destroy: bool)
      ensures destroy <==> finished
      ensures want <==> !finished && data != null
    {
      if finished {
        return false, true;
      }
      if data == null {
        return false, false;
      }
      return true, false;
    }
  }

  /** Replies on the control connection: the opening one of a transfer, the final one that xfer_done
      issues for it, and all others. */
  datatype Reply = Opening(job: Job) | Final(job: Job, success: bool) | Other(code: string)

  /** The replies sent so far. */
  datatype Log = Start | Then(before: Log, last: Reply)

  datatype Bracket = Idle | Busy(job: Job) | Broken

  /** Reading a reply log: openings and final replies must alternate, each pair for one transfer. */
  function Bracketed(log: Log): Bracket {
    match log
    case Start => Idle
    case Then(before, Other(_)) => Bracketed(before)
    case Then(before, Opening(job)) => if Bracketed(before) == Idle then Busy(job) else Broken
    case Then(before, Final(job, _)) => if Bracketed(before) == Busy(job) then Idle else Broken
  }

  function Openings(log: Log): nat {
    if log == Start then 0 else Openings(log.before) + if log.last.Opening? then 1 else 0
  }

  function Finals(log: Log): nat {
    if log == Start then 0 else Finals(log.before) + if log.last.Final? then 1 else 0
  }

  function Length(log: Log): nat {
    if log == Start then 0 else Length(log.before) + 1
  }

  /** In a log that is well bracketed the 150 replies exceed the final ones by one or none. */
  lemma {:induction false} BracketCounts(log: Log)
    requires Bracketed(log) != Broken
    ensures Openings(log) - Finals(log) == if Bracketed(log) == Idle then 0 else 1
  {
    if log != Start {
      BracketCounts(log.before);
    }
  }

  /** What a login and the commands after it have set. */
  datatype Login = Login(authenticated: bool, username: string, path: seq<string>, renameFrom: seq<string>, restartPos: nat)

  const LOGGED_OUT := Login(false, "", [], [], 0)

  /** What goes wrong or right in a command that starts a transfer. */
  datatype StartEnv = StartEnv(allowed: bool, seekOk: bool, connectOk: bool)

  /** A log after some replies of the plain kind. */
  function Answered(log: Log, codes: seq<string>): Log {
    if codes == [] then log else Then(Answered(log, codes[..|codes| - 1]), Other(codes[|codes| - 1]))
  }

  lemma AnsweredAll(log: Log, codes: seq<string>)
    ensures |codes| == 1 ==> Answered(log, codes) == Then(log, Other(codes[0]))
    ensures |codes| == 2 ==> Answered(log, codes) == Then(Then(log, Other(codes[0])), Other(codes[1]))
  {
    if |codes| == 2 {
      assert codes[..1] == [codes[0]];
      assert Answered(log, [codes[0]]) == Then(log, Other(codes[0]));
    }
  }

  class Session {
    var authenticated: bool
    var username: string
    var path: seq<string>
    var renameFrom: seq<string>
    var restartPos: nat
    var quitting: bool
    var closing: bool
    var listener: Listener?
    var xfer: Job?
    var portAddr: SockAddr        // where active mode connects to
    var forgotten: set<Listener>  // listeners that xfer_done has let go without detaching them
    var replies: Log
    var crashed: bool             // the process has dereferenced a null listener
    ghost var jobs: set<Job>            // every transfer ever started
    ghost var listeners: set<Listener>  // every listener ever made

    ghost predicate Valid()
      reads this, listener, xfer, jobs, listeners
    {
      && LoginValid() && !crashed
      && (quitting ==> closing || xfer != null)
      && Bracketed(replies) == (if xfer == null then Idle else Busy(xfer))
      && Reporting(xfer) && ListenersValid()
    }

    /** Without a login there is no path, restart position or rename source. */
    ghost predicate LoginValid()
      reads this
    {
      && (!authenticated ==> path == [] && restartPos == 0 && renameFrom == [])
      && Normal(path) && Normal(renameFrom)
    }

    /** The one transfer that reports here. */
    ghost predicate Reporting(job: Job?)
      reads this, jobs
    {
      && (xfer != null ==> xfer in jobs)
      && forall j :: j in jobs ==> (j.attached <==> j == job)
    }

    /** The listeners that report here, and what they may hold. */
    ghost predicate ListenersValid()
      reads this, listener, listeners
    {
      && (listener != null ==> listener in listeners && (listener.data != null ==> listener.data == xfer))
      && listener !in forgotten && forgotten <= listeners
      && (forall l :: l in forgotten ==> l.data == null && l.finished)
      && forall l :: l in listeners ==> (l.attached <==> l == listener || l in forgotten)
    }

    function LoginState(): Login
      reads this
    {
      Login(authenticated, username, path, renameFrom, restartPos)
    }

    /** A transfer waits in the listener for its connection. */
    predicate Waiting()
      reads this, listener
    {
      listener != null && listener.data != null
    }

    constructor (peer: nat)
      ensures portAddr == SockAddr(true, peer, 20)
      ensures Valid() && !authenticated && !quitting && !closing && listener == null && xfer == null
      ensures replies == Then(Start, Other("220")) && username == ""
      ensures jobs == {} && listeners == {} && forgotten == {}
    {
      authenticated, username, path, renameFrom, restartPos := false, "", [], [], 0;
      quitting, closing, listener, xfer, crashed := false, false, null, null, false;
      forgotten, jobs, listeners := {}, {}, {};
      portAddr := SockAddr(true, peer, 20);
      replies := Then(Start, Other("220"));
    }

    method Respond(reply: Reply)
      modifies `replies
      ensures replies == Then(old(replies), reply)
    {
      replies := Then(replies, reply);
    }

    // --- transfers ---

    /** The transfer reports its end: one final reply, and quitting is completed. A listener that still holds
        the transfer is forgotten with it, and stays attached. */
    method XferDone(job: Job, success: bool)
      requires job == xfer && LoginValid() && !crashed && Bracketed(replies) == Busy(job)
      requires Reporting(null) && ListenersValid()
      modifies `xfer, `listener, `forgotten, `closing, `replies, listener
      ensures Valid() && xfer == null
      ensures replies == Then(old(replies), Final(job, success))
      ensures closing <==> old(closing) || quitting
      ensures if old(Waiting())
              then listener == null && forgotten == old(forgotten) + {old(listener)}
              else listener == old(listener) && forgotten == old(forgotten)
      ensures !old(Waiting()) && listener != null ==> listener.data == null && listener.finished == old(listener.finished)
    {
      xfer := null;
      if listener != null && listener.data != null {
        listener.ReleaseData();
        forgotten := forgotten + {listener};
        listener := null;
      }
      if quitting {
        closing := true;
      }
      Respond(Final(job, success));
    }

    /** The pending transfer completes, or is destroyed: it detaches itself and tells the session. */
    method Notify(success: bool)
      requires Valid() && xfer != null
      modifies `xfer, `listener, `forgotten, `closing, `replies, xfer, listener
      ensures Valid() && xfer == null && !old(xfer).attached
      ensures replies == Then(old(replies), Final(old(xfer), success))
      ensures closing <==> old(closing) || quitting
      ensures if old(Waiting())
              then listener == null && forgotten == old(forgotten) + {old(listener)}
              else listener == old(listener) && forgotten == old(forgotten)
    {
      var job := xfer;
      job.attached := false;
      XferDone(job, success);
    }

    /** The listener is destroyed by the event table: a transfer it holds is destroyed with it. */
    method ListenerDestroyed()
      requires Valid() && listener != null
      modifies `xfer, `listener, `forgotten, `closing, `replies, xfer, listener
      ensures Valid() && listener == null && !old(listener).attached && forgotten == old(forgotten)
      ensures if old(Waiting()) then xfer == null && replies == Then(old(replies), Final(old(xfer), false))
              else xfer == old(xfer) && replies == old(replies)
    {
      var l := listener;
      if l.data != null {
        Notify(false);
      }
      l.ReleaseData();
      if l.attached {
        l.attached := false;
        if listener == l {
          listener := null;
        }
        forgotten := forgotten - {l};
      }
    }

    /** A forgotten listener is destroyed by the event table: it still reports, and nothing comes of it. */
    method ForgottenDestroyed(l: Listener)
      requires Valid() && l in forgotten
      modifies `forgotten, l
      ensures Valid() && forgotten == old(forgotten) - {l} && !l.attached
    {
      l.attached := false;
      forgotten := forgotten - {l};
    }

    /** A connection arrives at the listener. */
    method Accepted() returns (job: Job?)
      requires Valid() && listener != null
      modifies listener
      ensures Valid() && job == old(listener.data) && !Waiting()
    {
      job := listener.NewIoContext();
    }

    /** Leaving passive mode. Destroying the transfer that waits in the listener makes the session forget the
        listener, which is then used: so the process crashes exactly when a transfer is waiting. */
    method PassiveOff()
      requires Valid()
      modifies `xfer, `listener, `forgotten, `closing, `replies, `crashed, xfer, listener
      ensures crashed <==> old(Waiting())
      ensures !crashed ==> Valid() && listener == null && xfer == old(xfer) && replies == old(replies)
      ensures !crashed ==> closing == old(closing) && forgotten == old(forgotten)
      ensures crashed ==> xfer == null && listener == null
    {
      if listener != null {
        var l := listener;
        if l.data != null {
          Notify(false);
        }
        l.ReleaseData();
        if listener == null {
          crashed := true;
          return;
        }
        listener.attached := false;
        listener := null;
      }
    }

    /** start_xfer: into the waiting listener, or over a new connection; false when that fails. */
    method StartXfer(job: Job, connectOk: bool) returns (ok: bool)
      requires Valid() && xfer == null && job.attached && job !in jobs
      modifies `xfer, `replies, `jobs, listener
      ensures Valid() && (ok <==> listener != null || connectOk)
      ensures xfer == (if ok then job else null) && jobs == old(jobs) + if ok then {job} else {}
      ensures ok && listener != null ==> Waiting() && listener.data == job && listener.finished == old(listener.finished)
      ensures replies == if ok then Then(old(replies), Opening(job)) else old(replies)
    {
      if listener != null {
        listener.SetData(job);
      } else if !connectOk {
        return false;
      }
      xfer := job;
      jobs := jobs + {job};
      Respond(Opening(job));
      return true;
    }

    // --- commands ---

    method MakeError()
      requires Valid()
      modifies `replies, `closing
      ensures Valid() && closing && replies == Then(old(replies), Other("421"))
    {
      Respond(Other("421"));
      closing := true;
    }

    /** A command without the login it needs is refused. */
    method AssertAuth() returns (ok: bool)
      requires Valid()
      modifies `replies
      ensures Valid() && ok == authenticated && replies == if ok then old(replies) else Then(old(replies), Other("530"))
    {
      if !authenticated {
        Respond(Other("530"));
      }
      return authenticated;
    }

    /** A second transfer is refused while one is pending. */
    method AssertNoXfer() returns (ok: bool)
      requires Valid()
      modifies `replies
      ensures Valid() && (ok <==> xfer == null) && replies == if ok then old(replies) else Then(old(replies), Other("451"))
    {
      if xfer != null {
        Respond(Other("451"));
      }
      return xfer == null;
    }

    method LoseAuth()
      requires Valid()
      modifies `authenticated, `username, `restartPos, `renameFrom, `path
      ensures Valid() && LoginState() == LOGGED_OUT
    {
      authenticated, username, restartPos, renameFrom, path := false, "", 0, [], [];
    }

    method CmdUser(argument: string)
      requires Valid()
      modifies `username, `replies
      ensures Valid() && username == argument && replies == Then(old(replies), Other("331"))
    {
      username := argument;
      Respond(Other("331"));
    }

    /** success is the outcome of user_login for the stored name. Any attempt first gives up the old login. */
    method CmdPass(success: bool)
      requires Valid()
      modifies `authenticated, `username, `restartPos, `renameFrom, `path, `replies
      ensures Valid()
      ensures old(username) == "" ==>
                && LoginState() == old(LoginState())
                && replies == Then(old(replies), Other("503"))
      ensures old(username) != "" ==>
                && LoginState() == LOGGED_OUT.(authenticated := success)
                && replies == Then(old(replies), Other(if success then "230" else "530"))
    {
      if username == "" {
        Respond(Other("503"));
        return;
      }
      LoseAuth();
      authenticated := success;
      Respond(Other(if success then "230" else "530"));
    }

    method CmdRein()
      requires Valid()
      modifies `authenticated, `username, `restartPos, `renameFrom, `path, `replies
      ensures Valid() && LoginState() == LOGGED_OUT && replies == Then(old(replies), Other("220"))
    {
      LoseAuth();
      Respond(Other("220"));
    }

    /** The connection closes after the reply, or after the pending transfer. */
    method CmdQuit()
      requires Valid()
      modifies `authenticated, `username, `restartPos, `renameFrom, `path, `replies, `closing, `quitting
      ensures Valid() && LoginState() == LOGGED_OUT && replies == Then(old(replies), Other("221"))
      ensures quitting && (closing <==> old(closing) || old(xfer) == null)
    {
      LoseAuth();
      Respond(Other("221"));
      if xfer == null {
        closing := true;
      }
      quitting := true;
    }

    /** CWD, and CDUP as CWD to "..". */
    method CmdCwd(argument: string, allowed: bool)
      requires Valid()
      modifies `path, `replies
      ensures Valid()
      ensures path == if authenticated && allowed then Chdired(old(path), argument) else old(path)
      ensures replies == Then(old(replies), Other(if !authenticated then "530" else if allowed then "250" else "550"))
    {
      var ok := AssertAuth();
      if !ok {
        return;
      }
      if !allowed {
        Respond(Other("550"));
        return;
      }
      ChdirIsNormal(path, argument);
      path := Chdired(path, argument);
      Respond(Other("250"));
    }

    method CmdRnfr(argument: string)
      requires Valid()
      modifies `renameFrom, `replies
      ensures Valid()
      ensures renameFrom == if authenticated then Chdired(path, argument) else old(renameFrom)
      ensures replies == Then(old(replies), Other(if authenticated then "350" else "530"))
    {
      var ok := AssertAuth();
      if !ok {
        return;
      }
      ChdirIsNormal(path, argument);
      renameFrom := Chdired(path, argument);
      Respond(Other("350"));
    }

    /** The source of a rename is used once, unless a name is missing or the rename is not permitted. */
    method CmdRnto(argument: string, permitted: bool, renamed: bool)
      requires Valid()
      modifies `renameFrom, `replies
      ensures Valid()
      ensures var tried := authenticated && Chdired(path, argument) != [] && old(renameFrom) != [];
              renameFrom == (if tried && permitted then [] else old(renameFrom))
              && replies == Then(old(replies), Other(if !authenticated then "530" else if !tried then "553"
                                                     else if !permitted || !renamed then "550" else "250"))
    {
      var ok := AssertAuth();
      if !ok {
        return;
      }
      var to := Chdired(path, argument);
      if to == [] || renameFrom == [] {
        Respond(Other("553"));
        return;
      }
      if !permitted {
        Respond(Other("550"));
        return;
      }
      Respond(Other(if renamed then "250" else "550"));
      renameFrom := [];
    }

    /** REST stores whatever strtoull makes of the argument, also when it answers 501. */
    method CmdRest(argument: string)
      requires Valid()
      modifies `restartPos, `replies
      ensures Valid()
      ensures restartPos == if authenticated then Strtoul(argument).0 else old(restartPos)
      ensures replies == Then(old(replies), Other(if !authenticated then "530"
                                                  else if Strtoul(argument).1 == 0 then "501" else "350"))
    {
      var ok := AssertAuth();
      if !ok {
        return;
      }
      var (pos, used) := Strtoul(argument);
      restartPos := pos;
      Respond(Other(if used == 0 then "501" else "350"));
    }

    /** A command has started a transfer: there was none, and it is announced. */
    twostate predicate Announced()
      reads this, listener
    {
      && old(xfer) == null && xfer != null && fresh(xfer) && jobs == old(jobs) + {xfer}
      && replies == Then(old(replies), Opening(xfer)) && (listener != null ==> Waiting())
      && closing == old(closing)
    }

    /** A command that wanted to start a transfer was refused: a pending one is not replaced. */
    twostate predicate Refused(code: string)
      reads this
    {
      && xfer == old(xfer) && jobs == old(jobs) && replies == Then(old(replies), Other(code))
      && (closing <==> old(closing) || code == "421")
    }

    /** RETR and STOR. The restart position is spent as soon as the file is open, also when seeking fails. */
    method CmdFile(env: StartEnv)
      requires Valid()
      modifies `xfer, `replies, `jobs, `closing, `restartPos, listener
      ensures Valid()
      ensures !authenticated ==> Refused("530")
      ensures authenticated && old(xfer) != null ==> Refused("451")
      ensures authenticated && old(xfer) == null && !env.allowed ==> Refused("550")
      ensures authenticated && old(xfer) == null && env.allowed ==>
                var seeks := old(restartPos) == 0 || env.seekOk;
                && (!seeks ==> Refused("553"))
                && (seeks && listener == null && !env.connectOk ==> Refused("421"))
                && (seeks && (listener != null || env.connectOk) ==> Announced())
      ensures restartPos == if authenticated && old(xfer) == null && env.allowed then 0 else old(restartPos)
    {
      var ok := AssertAuth();
      if !ok {
        return;
      }
      ok := AssertNoXfer();
      if !ok {
        return;
      }
      if !env.allowed {
        Respond(Other("550"));
        return;
      }
      var pos := restartPos;
      restartPos := 0;
      if pos != 0 && !env.seekOk {
        Respond(Other("553"));
      } else {
        NewXfer(env.connectOk);
      }
    }

    /** A new transfer, or the end of the connection when it cannot connect. */
    method NewXfer(connectOk: bool)
      requires Valid() && xfer == null
      modifies `xfer, `replies, `jobs, `closing, listener
      ensures Valid() && if listener != null || connectOk then Announced() else Refused("421")
    {
      var job := new Job();
      var ok := StartXfer(job, connectOk);
      if !ok {
        MakeError();
      }
    }

    /** LIST, NLST and MLSD: no restart position is involved. */
    method CmdList(env: StartEnv)
      requires Valid()
      modifies `xfer, `replies, `jobs, `closing, listener
      ensures Valid()
      ensures !authenticated ==> Refused("530")
      ensures authenticated && old(xfer) != null ==> Refused("451")
      ensures authenticated && old(xfer) == null && !env.allowed ==> Refused("550")
      ensures authenticated && old(xfer) == null && env.allowed ==>
                if listener != null || env.connectOk then Announced() else Refused("421")
    {
      var ok := AssertAuth();
      if !ok {
        return;
      }
      ok := AssertNoXfer();
      if !ok {
        return;
      }
      if !env.allowed {
        Respond(Other("550"));
        return;
      }
      NewXfer(env.connectOk);
    }

    /** ABOR completes the pending transfer, which is then to be destroyed. */
    method CmdAbor() returns (destroy: Job?)
      requires Valid()
      modifies `xfer, `listener, `forgotten, `closing, `replies, xfer, listener
      ensures Valid() && destroy == (if authenticated then old(xfer) else null)
      ensures authenticated ==> xfer == null
      ensures if authenticated && old(Waiting())
              then listener == null && forgotten == old(forgotten) + {old(listener)}
              else listener == old(listener) && forgotten == old(forgotten)
      ensures !authenticated ==> xfer == old(xfer)
      ensures replies == if !authenticated then Then(old(replies), Other("530"))
                         else if old(xfer) == null then Then(old(replies), Other("226"))
                         else Then(Then(old(replies), Other("426")), Final(old(xfer), true))
    {
      var ok := AssertAuth();
      if !ok {
        return null;
      }
      if xfer == null {
        Respond(Other("226"));
        return null;
      }
      Respond(Other("426"));
      destroy := xfer;
      Notify(true);
    }

    /** Leaving passive mode has brought the process down, or else only the listener has changed. */
    twostate predicate OffOrCrashed(crash: bool)
      reads this, listener, xfer, jobs, listeners
    {
      && (crashed <==> crash)
      && (crashed ==> xfer == null && listener == null)
      && (!crashed ==> Valid() && xfer == old(xfer) && closing == old(closing) && forgotten == old(forgotten))
    }

    /** Entering passive mode: the old listener goes first, and a new one is made unless that is forbidden or
        no port is free. */
    method PassiveOn(forbidden: bool, bindOk: bool, code: string) returns (ok: bool)
      requires Valid()
      modifies `xfer, `listener, `forgotten, `closing, `replies, `crashed, `listeners, xfer, listener
      ensures OffOrCrashed(old(Waiting()))
      ensures !crashed ==> (ok <==> !forbidden && bindOk)
      ensures !crashed ==> replies == if ok then Then(old(replies), Other(code)) else old(replies)
      ensures if !crashed && ok
              then listener != null && fresh(listener) && !Waiting() && listeners == old(listeners) + {listener}
              else listener == null && listeners == old(listeners)
    {
      ok := false;
      PassiveOff();
      if crashed || forbidden || !bindOk {
        return;
      }
      listener := new Listener();
      listeners := listeners + {listener};
      Respond(Other(code));
      return true;
    }

    method CmdPasv(forbidden: bool, bindOk: bool)
      requires Valid()
      modifies `xfer, `listener, `forgotten, `closing, `replies, `crashed, `listeners, xfer, listener
      ensures OffOrCrashed(authenticated && old(Waiting()))
      ensures !crashed ==>
                replies == Then(old(replies), Other(if !authenticated then "530" else if forbidden || !bindOk then "502" else "227"))
      ensures NewListener(authenticated, !forbidden && bindOk)
    {
      var ok := AssertAuth();
      if !ok {
        return;
      }
      ok := PassiveOn(forbidden, bindOk, "227");
      if !crashed && !ok {
        Respond(Other("502"));
      }
    }

    /** Whether passive mode was entered anew, was only left, or stayed as it was. */
    twostate predicate NewListener(left: bool, entered: bool)
      reads this, listener
    {
      && (crashed ==> listeners == old(listeners))
      && (!crashed ==>
        if !left then listener == old(listener) && listeners == old(listeners)
        else if !entered then listener == null && listeners == old(listeners)
        else listener != null && fresh(listener) && !Waiting() && listeners == old(listeners) + {listener})
    }

    /** EPSV answers as PASV does, but with silence when passive mode is not available. */
    method CmdEpsv(argument: string, forbidden: bool, bindOk: bool)
      requires Valid()
      modifies `xfer, `listener, `forgotten, `closing, `replies, `crashed, `listeners, xfer, listener
      ensures var enters := argument == "" || CString(argument) == "1";
              && OffOrCrashed(authenticated && enters && old(Waiting()))
              && NewListener(authenticated && enters, !forbidden && bindOk)
              && (!crashed ==>
                    if authenticated && enters && (forbidden || !bindOk) then replies == old(replies)
                    else replies == Then(old(replies), Other(
                           if !authenticated then "530" else if enters then "229"
                           else if SameIgnoringCase(CString(argument), "all") then "501" else "522")))
    {
      var ok := AssertAuth();
      if !ok {
        return;
      }
      if argument == "" || CString(argument) == "1" {
        ok := PassiveOn(forbidden, bindOk, "229");
        return;
      }
      Respond(Other(if SameIgnoringCase(CString(argument), "all") then "501" else "522"));
    }

    /** The check and the change of mode before an active address is taken. */
    method ActiveOn(forbidden: bool) returns (ok: bool)
      requires Valid()
      modifies `xfer, `listener, `forgotten, `closing, `replies, `crashed, xfer, listener
      ensures OffOrCrashed(!forbidden && old(Waiting()))
      ensures ok <==> !forbidden && !crashed
      ensures !crashed ==> listener == if forbidden then old(listener) else null
      ensures !crashed ==> replies == if forbidden then Then(old(replies), Other("502")) else old(replies)
    {
      if forbidden {
        Respond(Other("502"));
        return false;
      }
      PassiveOff();
      return !crashed;
    }

    /** PORT: a well-formed argument ends passive mode and becomes the address, unless active mode is forbidden. */
    method CmdPort(argument: string, forbidden: bool)
      requires Valid()
      modifies `xfer, `listener, `forgotten, `closing, `replies, `crashed, `portAddr, xfer, listener
      ensures var parsed := ParsedPort(argument);
              var accepted := authenticated && parsed.Some? && !forbidden;
              && OffOrCrashed(accepted && old(Waiting()))
              && (!crashed ==>
                    && listener == (if accepted then null else old(listener))
                    && portAddr == (if accepted then SockAddr(true, parsed.value.0, parsed.value.1) else old(portAddr))
                    && replies == Then(old(replies), Other(if !authenticated then "530" else if parsed.None? then "501"
                                                           else if forbidden then "502" else "200")))
    {
      var ok := AssertAuth();
      if !ok {
        return;
      }
      var parsed := ParsePort(argument);
      if parsed.None? {
        Respond(Other("501"));
        return;
      }
      TakePort(SockAddr(true, parsed.value.0, parsed.value.1), forbidden);
    }

    /** The part of PORT that follows a well-formed argument. */
    method TakePort(addr: SockAddr, forbidden: bool)
      requires Valid()
      modifies `xfer, `listener, `forgotten, `closing, `replies, `crashed, `portAddr, xfer, listener
      ensures OffOrCrashed(!forbidden && old(Waiting()))
      ensures !crashed ==>
                && listener == (if forbidden then old(listener) else null)
                && portAddr == (if forbidden then old(portAddr) else addr)
                && replies == Then(old(replies), Other(if forbidden then "502" else "200"))
    {
      var ok := ActiveOn(forbidden);
      if !ok {
        return;
      }
      portAddr := addr;
      Respond(Other("200"));
    }

    /** EPRT leaves passive mode and clears the address before it looks at its argument. What follows the
        argument in memory and what the system makes of an address are parameters. */
    method CmdEprt(argument: string, beyond: string, pton: Pton, forbidden: bool)
      requires Valid()
      modifies `xfer, `listener, `forgotten, `closing, `replies, `crashed, `portAddr, xfer, listener
      ensures var accepted := authenticated && argument != "" && !forbidden;
              var parsed := ParsedEprt(argument + "\0" + beyond, pton);
              && OffOrCrashed(accepted && old(Waiting()))
              && (!crashed && accepted ==>
                    listener == null && portAddr == parsed.addr && replies == Answered(old(replies), parsed.replies))
              && (!crashed && !accepted ==>
                    && listener == old(listener) && portAddr == old(portAddr)
                    && replies == Then(old(replies), Other(if !authenticated then "530" else if argument == "" then "501"
                                                           else "502")))
              && (!crashed ==> Length(replies) > Length(old(replies)))
    {
      var ok := AssertAuth();
      if !ok {
        return;
      }
      if argument == "" {
        Respond(Other("501"));
        return;
      }
      ok := ActiveOn(forbidden);
      if !ok {
        return;
      }
      TakeEprt(argument, beyond, pton);
    }

    /** The part of EPRT that looks at the argument. */
    method TakeEprt(argument: string, beyond: string, pton: Pton)
      requires Valid()
      modifies `replies, `portAddr
      ensures var parsed := ParsedEprt(argument + "\0" + beyond, pton);
              Valid() && portAddr == parsed.addr && replies == Answered(old(replies), parsed.replies)
      ensures Length(replies) > Length(old(replies))
    {
      var parsed := ParseEprt(argument, beyond, pton);
      portAddr := parsed.addr;
      EprtAnswersTwice(argument + "\0" + beyond, pton);
      AnsweredAll(replies, parsed.replies);
      Respond(Other(parsed.replies[0]));
      if |parsed.replies| > 1 {
        Respond(Other(parsed.replies[1]));
      }
    }

    /** All commands that only answer. */
    method CmdAnswer(needsAuth: bool, code: string)
      requires Valid()
      modifies `replies
      ensures Valid() && replies == Then(old(replies), Other(if needsAuth && !authenticated then "530" else code))
    {
      if needsAuth {
        var ok := AssertAuth();
        if !ok {
          return;
        }
      }
      Respond(Other(code));
    }

    /** The control connection is gone: passive mode ends first, so a waiting transfer brings the process
        down; any other pending transfer goes on without telling anyone. Then nothing is left that would
        report to the session, if and only if no listener had been forgotten. */
    method HangUp()
      requires Valid()
      modifies `xfer, `listener, `forgotten, `closing, `replies, `crashed, xfer, listener
      ensures crashed <==> old(Waiting())
      ensures !crashed ==> xfer == null && listener == null && replies == old(replies) && forgotten == old(forgotten)
      ensures !crashed ==> forall j :: j in jobs ==> !j.attached
      ensures !crashed ==> forall l :: l in listeners ==> (l.attached <==> l in forgotten)
      ensures !crashed ==> ((forall l :: l in listeners ==> !l.attached) <==> forgotten == {})
    {
      PassiveOff();
      if crashed {
        return;
      }
      if xfer != null {
        xfer.attached := false;
      }
      xfer := null;
      if forgotten != {} {
        var l :| l in forgotten;
        assert l in listeners && l.attached;
      }
    }
  }

  // --- whole runs ---

  datatype Event =
    | User(argument: string)
    | Pass(success: bool)
    | Rein
    | Quit
    | Cwd(argument: string, allowed: bool)
    | Rnfr(argument: string)
    | Rnto(argument: string, permitted: bool, renamed: bool)
    | Rest(argument: string)
    | File(env: StartEnv)
    | List(env: StartEnv)
    | Abor
    | Pasv(forbidden: bool, bindOk: bool)
    | Epsv(argument: string, forbidden: bool, bindOk: bool)
    | Port(argument: string, forbidden: bool)
    | Eprt(argument: string, beyond: string, pton: Pton, forbidden: bool)
    | Answer(needsAuth: bool, code: string)
    | LineTooLongOrTimeout
    | TransferEnds(success: bool)
    | ConnectionArrives
    | ListenerGone
    | ForgottenListenerGone
    | ConnectionGone

  /** Would this event bring the process down? */
  predicate Fatal(s: Session, e: Event)
    reads s, s.listener
  {
    && s.Waiting()
    && match e
       case Pasv(_, _) => s.authenticated
       case Epsv(argument, _, _) => s.authenticated && (argument == "" || CString(argument) == "1")
       case Port(argument, forbidden) => s.authenticated && ParsedPort(argument).Some? && !forbidden
       case Eprt(argument, _, _, forbidden) => s.authenticated && argument != "" && !forbidden
       case ConnectionGone => true
       case _ => false
  }

  predicate AboutLogin(e: Event) {
    match e
    case User(_) => true
    case Pass(_) => true
    case Rein => true
    case Quit => true
    case Cwd(_, _) => true
    case Rnfr(_) => true
    case Rnto(_, _, _) => true
    case Rest(_) => true
    case Answer(_, _) => true
    case LineTooLongOrTimeout => true
    case _ => false
  }

  predicate AboutMode(e: Event) {
    e.Pasv? || e.Epsv? || e.Port? || e.Eprt?
  }

  /** The commands that are always answered: all but EPSV, which keeps silent when passive mode is not available. */
  predicate Answers(e: Event) {
    AboutLogin(e) || e.File? || e.List? || e.Abor? || e.Pasv? || e.Port? || e.Eprt?
  }

  function CountAnswered(events: seq<Event>): nat {
    if events == [] then 0
    else CountAnswered(events[..|events| - 1]) + if Answers(events[|events| - 1]) then 1 else 0
  }

  /** What every event keeps: it brings the process down exactly when it is fatal, a pending transfer is never
      replaced by another, what is to be answered is, and whatever is new was made in this step. */
  twostate predicate Kept(s: Session, fatal: bool, answers: bool)
    reads s, s.listener, s.xfer, s.jobs, s.listeners
  {
    && (s.crashed <==> fatal) && (!s.crashed ==> s.Valid())
    && (s.xfer != null && old(s.xfer) != null ==> s.xfer == old(s.xfer))
    && (!s.crashed ==> Length(s.replies) >= Length(old(s.replies)) + if answers then 1 else 0)
    && (forall j :: j in s.jobs ==> j in old(s.jobs) || fresh(j))
    && (forall l :: l in s.listeners ==> l in old(s.listeners) || fresh(l))
  }

  /** What an event about the login does to it. */
  twostate predicate LoginEffect(s: Session, e: Event)
    requires AboutLogin(e)
    reads s
  {
    match e
    case User(argument) => s.LoginState() == old(s.LoginState()).(username := argument)
    case Pass(success) =>
      s.LoginState() == if old(s.username) == "" then old(s.LoginState()) else LOGGED_OUT.(authenticated := success)
    case Rein => s.LoginState() == LOGGED_OUT
    case Quit => s.LoginState() == LOGGED_OUT && s.quitting
    case Cwd(argument, allowed) =>
      s.LoginState() == if s.authenticated && allowed then old(s.LoginState()).(path := Chdired(old(s.path), argument))
                        else old(s.LoginState())
    case Rnfr(argument) =>
      s.LoginState() == if s.authenticated then old(s.LoginState()).(renameFrom := Chdired(s.path, argument))
                        else old(s.LoginState())
    case Rnto(_, _, _) => s.LoginState() == old(s.LoginState()) || s.LoginState() == old(s.LoginState()).(renameFrom := [])
    case Rest(argument) =>
      s.LoginState() == if s.authenticated then old(s.LoginState()).(restartPos := Strtoul(argument).0)
                        else old(s.LoginState())
    case Answer(_, _) => s.LoginState() == old(s.LoginState())
    case LineTooLongOrTimeout => s.LoginState() == old(s.LoginState()) && s.closing
  }

  /** What becomes of the pending transfer, and how that is answered: an end that succeeds or fails is reported
      as such, ABOR reports success, and a listener that goes takes its transfer along as failed. */
  twostate predicate TransferEffect(s: Session, e: Event)
    reads s
  {
    match e
    case File(_) => s.xfer == old(s.xfer) || (old(s.xfer) == null && s.replies == Then(old(s.replies), Opening(s.xfer)))
    case List(_) => s.xfer == old(s.xfer) || (old(s.xfer) == null && s.replies == Then(old(s.replies), Opening(s.xfer)))
    case Abor =>
      if s.authenticated && old(s.xfer) != null
      then s.xfer == null && s.replies == Then(Then(old(s.replies), Other("426")), Final(old(s.xfer), true))
      else s.xfer == old(s.xfer)
    case TransferEnds(success) =>
      s.xfer == null && s.replies == if old(s.xfer) == null then old(s.replies) else Then(old(s.replies), Final(old(s.xfer), success))
    case ConnectionArrives => s.xfer == old(s.xfer) && s.replies == old(s.replies)
    case ListenerGone =>
      if old(s.Waiting())
      then s.xfer == null && old(s.xfer) != null && s.replies == Then(old(s.replies), Final(old(s.xfer), false))
      else s.xfer == old(s.xfer) && s.replies == old(s.replies)
    case ForgottenListenerGone => s.xfer == old(s.xfer) && s.replies == old(s.replies)
    case _ => s.crashed || s.xfer == old(s.xfer)
  }

  method Step(s: Session, e: Event)
    requires s.Valid() && !e.ConnectionGone?
    modifies s, s.xfer, s.listener, s.forgotten
    ensures Kept(s, old(Fatal(s, e)), Answers(e)) && TransferEffect(s, e)
    ensures if AboutLogin(e) then LoginEffect(s, e)
            else s.authenticated == old(s.authenticated) && s.path == old(s.path) && s.renameFrom == old(s.renameFrom)
  {
    if AboutLogin(e) {
      LoginStep(s, e);
    } else if AboutMode(e) {
      ModeStep(s, e);
    } else {
      TransferStep(s, e);
    }
  }

  method LoginStep(s: Session, e: Event)
    requires s.Valid() && AboutLogin(e)
    modifies s
    ensures s.Valid() && s.listener == old(s.listener) && s.xfer == old(s.xfer)
    ensures s.jobs == old(s.jobs) && s.listeners == old(s.listeners) && s.forgotten == old(s.forgotten)
    ensures LoginEffect(s, e) && Length(s.replies) == Length(old(s.replies)) + 1
  {
    match e
    case User(argument) => s.CmdUser(argument);
    case Pass(success) => s.CmdPass(success);
    case Rein => s.CmdRein();
    case Quit => s.CmdQuit();
    case Cwd(argument, allowed) => s.CmdCwd(argument, allowed);
    case Rnfr(argument) => s.CmdRnfr(argument);
    case Rnto(argument, permitted, renamed) => s.CmdRnto(argument, permitted, renamed);
    case Rest(argument) => s.CmdRest(argument);
    case Answer(needsAuth, code) => s.CmdAnswer(needsAuth, code);
    case LineTooLongOrTimeout => s.MakeError();
  }

  method ModeStep(s: Session, e: Event)
    requires s.Valid() && AboutMode(e)
    modifies s, s.xfer, s.listener
    ensures Kept(s, old(Fatal(s, e)), Answers(e)) && (s.crashed || s.xfer == old(s.xfer))
    ensures s.LoginState() == old(s.LoginState())
  {
    if e.Pasv? || e.Epsv? {
      PassiveStep(s, e);
    } else {
      ActiveStep(s, e);
    }
  }

  method PassiveStep(s: Session, e: Event)
    requires s.Valid() && (e.Pasv? || e.Epsv?)
    modifies s, s.xfer, s.listener
    ensures Kept(s, old(Fatal(s, e)), Answers(e)) && (s.crashed || s.xfer == old(s.xfer))
    ensures s.LoginState() == old(s.LoginState())
  {
    match e
    case Pasv(forbidden, bindOk) => s.CmdPasv(forbidden, bindOk);
    case Epsv(argument, forbidden, bindOk) => s.CmdEpsv(argument, forbidden, bindOk);
  }

  method ActiveStep(s: Session, e: Event)
    requires s.Valid() && (e.Port? || e.Eprt?)
    modifies s, s.xfer, s.listener
    ensures Kept(s, old(Fatal(s, e)), Answers(e)) && (s.crashed || s.xfer == old(s.xfer))
    ensures s.LoginState() == old(s.LoginState())
  {
    match e
    case Port(argument, forbidden) => s.CmdPort(argument, forbidden);
    case Eprt(argument, beyond, pton, forbidden) => s.CmdEprt(argument, beyond, pton, forbidden);
  }

  method TransferStep(s: Session, e: Event)
    requires s.Valid() && !AboutLogin(e) && !AboutMode(e) && !e.ConnectionGone?
    modifies s, s.xfer, s.listener, s.forgotten
    ensures Kept(s, false, Answers(e)) && TransferEffect(s, e)
    ensures s.LoginState().(restartPos := 0) == old(s.LoginState()).(restartPos := 0)
  {
    match e
    case File(env) => s.CmdFile(env);
    case List(env) => s.CmdList(env);
    case Abor => var destroy := s.CmdAbor();
    case TransferEnds(success) =>
      if s.xfer != null {
        s.Notify(success);
      }
    case ConnectionArrives =>
      if s.listener != null {
        var job := s.Accepted();
      }
    case ListenerGone =>
      if s.listener != null {
        s.ListenerDestroyed();
      }
    case ForgottenListenerGone =>
      if s.forgotten != {} {
        var l :| l in s.forgotten;
        s.ForgottenDestroyed(l);
      }
  }

  /** Any session, up to its end. Unless the process has crashed, someone who is not logged in has an empty path,
      no restart position and no rename source; a session that is quitting is closing or has a transfer
      pending; and the 150 replies exceed the final ones by one while a transfer is pending and are as many
      otherwise. Once the connection is gone nothing reports to the session any more, if and only if no
      listener was forgotten. */
  method Serve(peer: nat, events: seq<Event>) returns (s: Session, gone: bool)
    ensures fresh(s)
    ensures !s.crashed && !gone ==>
              && s.Valid()
              && (!s.authenticated ==> s.path == [] && s.restartPos == 0 && s.renameFrom == [])
              && Normal(s.path) && Normal(s.renameFrom)
              && (s.quitting ==> s.closing || s.xfer != null)
              && Openings(s.replies) - Finals(s.replies) == (if s.xfer != null then 1 else 0)
              && Length(s.replies) >= 1 + CountAnswered(events)
    ensures !s.crashed && gone ==>
              && (forall j :: j in s.jobs ==> !j.attached)
              && ((forall l :: l in s.listeners ==> !l.attached) <==> s.forgotten == {})
  {
    s := new Session(peer);
    gone := false;
    var i := 0;
    while i < |events| && !s.crashed && !events[i].ConnectionGone?
      invariant fresh(s) && 0 <= i <= |events|
      invariant (forall j :: j in s.jobs ==> fresh(j)) && (forall l :: l in s.listeners ==> fresh(l))
      invariant !s.crashed ==> s.Valid() && Length(s.replies) >= 1 + CountAnswered(events[..i])
      decreases |events| - i
    {
      assert events[..i + 1][..i] == events[..i];
      Step(s, events[i]);
      i := i + 1;
    }
    if s.crashed {
      return;
    }
    if i < |events| {
      s.HangUp();
      gone := true;
    } else {
      assert events[..i] == events;
      BracketCounts(s.replies);
    }
  }

  // --- the inputs that show where it goes wrong ---

  /** A client that enters passive mode, starts a transfer and enters passive mode again, without having
      connected in between, brings the process down. */
  method PassiveModeTwice(peer: nat) returns (s: Session)
    ensures fresh(s) && s.crashed
  {
    s := WaitingSession(peer);
    s.CmdPasv(false, true);
  }

  /** A client that aborts a transfer that waits in the listener and then hangs up leaves the listener behind,
      which will report to a session that is gone. */
  method HangUpAfterAbort(peer: nat) returns (s: Session)
    ensures fresh(s) && !s.crashed && exists l :: l in s.listeners && l.attached
  {
    s := WaitingSession(peer);
    var destroy := s.CmdAbor();
    s.HangUp();
  }

  /** A session with a transfer that waits for its passive connection. */
  method WaitingSession(peer: nat) returns (s: Session)
    ensures fresh(s) && s.Valid() && s.authenticated && s.Waiting()
    ensures s.xfer != null && fresh(s.xfer) && fresh(s.listener)
  {
    s := new Session(peer);
    s.CmdUser("anonymous");
    s.CmdPass(true);
    s.CmdPasv(false, true);
    var start := StartEnv(true, true, true);
    s.CmdFile(start);
  }
}
