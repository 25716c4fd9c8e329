/** Walking a map in the order of its keys, as std::map does. */
module OrderedKeys {
  ghost predicate Ascending(s: seq<int>) {
    forall j, k :: 0 <= j < k < |s| ==> s[j] < s[k]
  }

  /** The order in which a map with these keys is walked. */
  ghost predicate InOrder(order: seq<int>, keys: set<int>) {
    Ascending(order) && forall k :: k in order <==> k in keys
  }

  method Ordered(keys: set<int>) returns (order: seq<int>)
    ensures InOrder(order, keys) && |order| == |keys|
  {
    order := [];
    var rest := keys;
    while rest != {}
      invariant rest <= keys && InOrder(order, keys - rest) && |order| + |rest| == |keys|
      invariant forall j, k :: 0 <= j < |order| && k in rest ==> order[j] < k
      decreases rest
    {
      var least := Least(rest);
      rest := rest - {least};
      order := order + [least];
    }
    assert keys - rest == keys;
  }

  method Least(s: set<int>) returns (least: int)
    requires s != {}
    ensures least in s && forall x :: x in s ==> least <= x
  {
    NonEmpty(s);
    least :| least in s;
    var rest := s - {least};
    while rest != {}
      invariant rest <= s && least in s
      invariant forall x :: x in s ==> x in rest || least <= x
      decreases rest
    {
      NonEmpty(rest);
      var x :| x in rest;
      rest := rest - {x};
      if x < least {
        least := x;
      }
    }
  }

  lemma NonEmpty(s: set<int>)
    requires s != {}
    ensures exists x :: x in s
  {
    assert (forall x: int :: x !in s) ==> s == {};
  }
}

/** The event table (lib/streamtable.cc, lib/streamtable.hh): the streams being polled, with additions and
    removals deferred so that the tables stay still while events are dispatched. */
module StreamTables {
  import opened OrderedKeys

  /** A stream, known by its identity; one over a file descriptor keeps it while it is in the table. */
  datatype Stream = FdStream(id: nat, fd: int) | OtherStream(id: nat)

  /** What a call into a consumer may throw: the wish to be destroyed, a closed stream, another
      std::exception, or anything else, which nobody catches. */
  datatype Thrown = Nothing | Destroy(target: nat) | ClosedStream | StdException | Uncaught

  /** What poll(2) reports of one descriptor. */
  datatype Revents = Revents(any: bool, hup: bool)

  /** One answer of poll(2): the number it returns and what it leaves in each entry. */
  datatype KernelAnswer = KernelAnswer(events: int, revents: nat -> Revents)

  datatype PollFd = PollFd(fd: int, pollIn: bool, pollOut: bool)

  datatype PassEnd = Continue | Stopped | Escaped

  // --- calls into consumers ---

  /** What a consumer is asked. */
  datatype Kind = Read | WantRead | Write | WantWrite | CheckTimeout

  /** A call into the consumer of a stream: its answer, what it threw, and whether the stream has a consumer
      after it. */
  datatype Call = Call(s: Stream, kind: Kind, answer: bool, thrown: Thrown, attached: bool)

  /** A visit to a stream: whether it had a consumer at first, what that is to be asked in turn, the calls made,
      and the streams queued for removal because of them. */
  datatype Visit = Visit(s: Stream, attached: bool, stages: seq<Kind>, calls: seq<Call>, dropped: set<Stream>)

  function Outcome(v: Visit): Thrown {
    LastThrown(v.calls)
  }

  function LastThrown(calls: seq<Call>): Thrown {
    if calls == [] then Nothing else calls[|calls| - 1].thrown
  }

  predicate StillAttached(v: Visit) {
    AttachedAfter(v.attached, v.calls)
  }

  predicate AttachedAfter(attached: bool, calls: seq<Call>) {
    if calls == [] then attached else calls[|calls| - 1].attached
  }

  predicate GoesOn(attached: bool, calls: seq<Call>) {
    LastThrown(calls) == Nothing && AttachedAfter(attached, calls)
  }

  predicate Asked(v: Visit) {
    AskedOf(v.s, v.attached, v.stages, v.calls)
  }

  /** The consumer of a stream is asked one thing after the other, until it throws or lets go of the stream. */
  predicate AskedOf(s: Stream, attached: bool, stages: seq<Kind>, calls: seq<Call>)
    decreases |stages|
  {
    if stages == [] then calls == []
    else
      var before := stages[..|stages| - 1];
      || (AskedOf(s, attached, before, calls) && !GoesOn(attached, calls))
      || (calls != [] && AskedOf(s, attached, before, calls[..|calls| - 1]) && GoesOn(attached, calls[..|calls| - 1])
          && calls[|calls| - 1].s == s && calls[|calls| - 1].kind == stages[|stages| - 1])
  }

  /** What it has answered yes to. */
  function Yes(calls: seq<Call>): set<Kind> {
    if calls == [] then {}
    else
      var last := calls[|calls| - 1];
      Yes(calls[..|calls| - 1]) + if last.thrown == Nothing && last.answer then {last.kind} else {}
  }

  predicate Says(v: Visit, kind: Kind) {
    kind in Yes(v.calls)
  }

  /** So the calls made are the first of those to be made, in order and each once; they stop short exactly where
      the consumer is not there, throws or lets go of the stream. */
  lemma {:induction false} AskedInTurn(s: Stream, attached: bool, stages: seq<Kind>, calls: seq<Call>)
    requires AskedOf(s, attached, stages, calls)
    ensures |calls| <= |stages| && (calls != [] ==> attached)
    ensures forall i :: 0 <= i < |calls| ==> calls[i].s == s && calls[i].kind == stages[i]
    ensures forall i :: 0 <= i < |calls| - 1 ==> calls[i].thrown == Nothing && calls[i].attached
    ensures |calls| < |stages| ==> !GoesOn(attached, calls)
    decreases |stages|
  {
    if stages != [] {
      var before := stages[..|stages| - 1];
      if AskedOf(s, attached, before, calls) && !GoesOn(attached, calls) {
        AskedInTurn(s, attached, before, calls);
      } else {
        AskedInTurn(s, attached, before, calls[..|calls| - 1]);
      }
    }
  }

  lemma {:induction false} YesMeans(calls: seq<Call>, kind: Kind)
    ensures kind in Yes(calls)
       <==> exists i :: 0 <= i < |calls| && calls[i].kind == kind && calls[i].thrown == Nothing && calls[i].answer
  {
    if calls != [] {
      var front := calls[..|calls| - 1];
      YesMeans(front, kind);
      assert forall i :: 0 <= i < |front| ==> front[i] == calls[i];
    }
  }

  /** What is asked when a stream is served: to read and to write; one without descriptor that is ready
      for either is also asked whether it wants more. */
  predicate ServeStages(s: Stream, stages: seq<Kind>) {
    || stages == [Read, Write]
    || (s.OtherStream? && (stages == [Read, WantRead, Write] || stages == [Read, Write, WantWrite]
                           || stages == [Read, WantRead, Write, WantWrite]))
  }

  predicate WantsMore(v: Visit) {
    GoesOn(v.attached, v.calls) && (Says(v, WantRead) || Says(v, WantWrite))
  }

  /** One more call, when the visit has not come to an end before. */
  lemma VisitCalls(v: Visit, c: Call)
    requires Asked(v) && GoesOn(v.attached, v.calls) && c.s == v.s
    ensures var w := v.(stages := v.stages + [c.kind], calls := v.calls + [c]);
            && Asked(w) && Outcome(w) == c.thrown && StillAttached(w) == c.attached
            && Yes(w.calls) == Yes(v.calls) + if c.thrown == Nothing && c.answer then {c.kind} else {}
  {
    assert (v.calls + [c])[..|v.calls|] == v.calls && (v.stages + [c.kind])[..|v.stages|] == v.stages;
  }

  /** One more thing that a visit which has come to an end does not ask. */
  lemma VisitOver(v: Visit, kind: Kind)
    requires Asked(v) && !GoesOn(v.attached, v.calls)
    ensures Asked(v.(stages := v.stages + [kind]))
  {
    assert (v.stages + [kind])[..|v.stages|] == v.stages;
  }

  function CallsOf(visits: seq<Visit>): seq<Call> {
    if visits == [] then [] else CallsOf(visits[..|visits| - 1]) + visits[|visits| - 1].calls
  }

  function DroppedBy(visits: seq<Visit>): set<Stream> {
    if visits == [] then {} else DroppedBy(visits[..|visits| - 1]) + visits[|visits| - 1].dropped
  }

  /** What the loop over the streams without descriptor does for one of them. */
  datatype Round = Round(serve: Visit, check: Visit)

  ghost predicate GoodRound(r: Round, s: Stream) {
    && Asked(r.serve) && r.serve.s == s && ServeStages(s, r.serve.stages)
    && if Outcome(r.serve) == Uncaught then r.check == Visit(s, false, [], [], {})
       else
         && Asked(r.check) && r.check.s == s && r.check.stages == [CheckTimeout] && r.check.dropped == {}
         && r.check.attached == StillAttached(r.serve)
  }

  predicate RoundEscapes(r: Round) {
    Outcome(r.serve) == Uncaught || Outcome(r.check) != Nothing
  }

  function RoundCalls(rounds: seq<Round>): seq<Call> {
    if rounds == [] then []
    else RoundCalls(rounds[..|rounds| - 1]) + rounds[|rounds| - 1].serve.calls + rounds[|rounds| - 1].check.calls
  }

  function RoundDrops(rounds: seq<Round>): set<Stream> {
    if rounds == [] then {} else RoundDrops(rounds[..|rounds| - 1]) + rounds[|rounds| - 1].serve.dropped
  }

  /** The rounds so far serve the streams of a list in order. */
  ghost predicate GoodRounds(rounds: seq<Round>, list: seq<Stream>) {
    rounds != [] ==>
      var n := |rounds| - 1;
      |rounds| <= |list| && GoodRound(rounds[n], list[n]) && GoodRounds(rounds[..n], list)
  }

  lemma {:induction false} GoodRoundsMeans(rounds: seq<Round>, list: seq<Stream>)
    requires GoodRounds(rounds, list)
    ensures |rounds| <= |list| && forall i :: 0 <= i < |rounds| ==> GoodRound(rounds[i], list[i])
  {
    if rounds != [] {
      GoodRoundsMeans(rounds[..|rounds| - 1], list);
    }
  }

  predicate LastEscapes(rounds: seq<Round>) {
    rounds != [] && RoundEscapes(rounds[|rounds| - 1])
  }

  ghost predicate SomeWantMore(rounds: seq<Round>) {
    exists i :: 0 <= i < |rounds| && WantsMore(rounds[i].serve)
  }

  lemma OneMoreRound(rounds: seq<Round>, r: Round, list: seq<Stream>, log: seq<Call>, deleted: set<Stream>)
    requires GoodRounds(rounds, list) && |rounds| < |list| && GoodRound(r, list[|rounds|])
    ensures GoodRounds(rounds + [r], list) && LastEscapes(rounds + [r]) == RoundEscapes(r)
    ensures log + RoundCalls(rounds + [r]) == log + RoundCalls(rounds) + r.serve.calls + r.check.calls
    ensures deleted + RoundDrops(rounds + [r]) == deleted + RoundDrops(rounds) + r.serve.dropped
    ensures SomeWantMore(rounds + [r]) <==> SomeWantMore(rounds) || WantsMore(r.serve)
  {
    OneMoreGoodRound(rounds, r, list);
    OneMoreRoundLogged(rounds, r);
    Append3(log, RoundCalls(rounds), r.serve.calls, r.check.calls);
    OneMoreWants(rounds, r);
  }

  lemma OneMoreGoodRound(rounds: seq<Round>, r: Round, list: seq<Stream>)
    requires GoodRounds(rounds, list) && |rounds| < |list| && GoodRound(r, list[|rounds|])
    ensures GoodRounds(rounds + [r], list) && LastEscapes(rounds + [r]) == RoundEscapes(r)
  {
    assert (rounds + [r])[..|rounds|] == rounds;
  }

  lemma OneMoreRoundLogged(rounds: seq<Round>, r: Round)
    ensures RoundCalls(rounds + [r]) == RoundCalls(rounds) + r.serve.calls + r.check.calls
    ensures RoundDrops(rounds + [r]) == RoundDrops(rounds) + r.serve.dropped
  {
    assert (rounds + [r])[..|rounds|] == rounds;
  }

  lemma OneMoreWants(rounds: seq<Round>, r: Round)
    ensures SomeWantMore(rounds + [r]) <==> SomeWantMore(rounds) || WantsMore(r.serve)
  {
    var all := rounds + [r];
    assert all[|rounds|] == r;
    if i :| 0 <= i < |rounds| && WantsMore(rounds[i].serve) {
      assert all[i] == rounds[i];
    }
  }

  lemma Append3<T>(a: seq<T>, b: seq<T>, c: seq<T>, d: seq<T>)
    ensures a + (b + c + d) == a + b + c + d
  {
  }

  lemma Append2<T>(a: seq<T>, b: seq<T>, c: seq<T>)
    ensures a + (b + c) == a + b + c
  {
  }

  /** Filling the poll array is ended by all but the wish to be destroyed. */
  predicate FillEscapes(v: Visit) {
    Outcome(v) != Nothing && !Outcome(v).Destroy?
  }

  /** Asking the consumer of a stream for the poll array: the entry asks for what it says it wants. */
  ghost predicate PollVisit(v: Visit, fd: int, table: map<int, Stream>, entry: PollFd) {
    && fd in table && v.s == table[fd] && Asked(v) && v.stages == [CheckTimeout, WantRead, WantWrite]
    && entry == PollFd(fd, Says(v, WantRead), Says(v, WantWrite))
  }

  /** The same for the streams of all these descriptors. */
  ghost predicate PollVisits(visits: seq<Visit>, order: seq<int>, table: map<int, Stream>, entries: seq<PollFd>) {
    |visits| == |order| == |entries|
    && (visits != [] ==>
          var n := |visits| - 1;
          PollVisit(visits[n], order[n], table, entries[n]) && PollVisits(visits[..n], order[..n], table, entries[..n]))
  }

  lemma {:induction false} PollVisitsMeans(visits: seq<Visit>, order: seq<int>, table: map<int, Stream>, entries: seq<PollFd>)
    requires PollVisits(visits, order, table, entries)
    ensures |visits| == |order| == |entries|
    ensures forall i :: 0 <= i < |visits| ==> PollVisit(visits[i], order[i], table, entries[i])
  {
    if visits != [] {
      var n := |visits| - 1;
      PollVisitsMeans(visits[..n], order[..n], table, entries[..n]);
      forall i | 0 <= i < n
        ensures PollVisit(visits[i], order[i], table, entries[i])
      {
        assert PollVisit(visits[..n][i], order[..n][i], table, entries[..n][i]);
      }
    }
  }

  lemma OneMorePoll(visits: seq<Visit>, order: seq<int>, table: map<int, Stream>, entries: seq<PollFd>, v: Visit,
                    fd: int, entry: PollFd)
    requires PollVisits(visits, order, table, entries) && PollVisit(v, fd, table, entry)
    ensures PollVisits(visits + [v], order + [fd], table, entries + [entry])
  {
    assert (visits + [v])[..|visits|] == visits && (order + [fd])[..|order|] == order;
    assert (entries + [entry])[..|entries|] == entries;
  }

  /** Does serving the stream end with its removal? */
  predicate Closes(v: Visit) {
    match Outcome(v)
    case Nothing => !StillAttached(v)
    case ClosedStream => true
    case StdException => true
    case _ => false
  }

  /** Serving a stream over a descriptor: to read and then to write; it is queued for removal when it is closed,
      fails, has lost its consumer or, unless an exception escapes, has hung up. */
  ghost predicate ServeVisit(v: Visit, s: Stream, hup: bool) {
    && v.s == s && Asked(v) && v.stages == [Read, Write]
    && (Closes(v) || (hup && Outcome(v) != Uncaught) ==> s in v.dropped)
  }

  /** Those of the entries below n that report something have been served, each once and in order: each stream is one of
      the live ones and over the descriptor of its entry. */
  ghost predicate ServedBelow(order: seq<int>, kernel: KernelAnswer, n: nat, served: seq<Stream>, visits: seq<Visit>,
                              live: set<Stream>)
    decreases n
  {
    && |served| == |visits|
    && if n == 0 then served == []
       else if !kernel.revents(n - 1).any then ServedBelow(order, kernel, n - 1, served, visits, live)
       else
         && served != [] && n <= |order|
         && ServedEntry(order[n - 1], kernel.revents(n - 1), served[|served| - 1], visits[|visits| - 1], live)
         && ServedBelow(order, kernel, n - 1, served[..|served| - 1], visits[..|visits| - 1], live)
  }

  lemma OneMoreServed(order: seq<int>, kernel: KernelAnswer, n: nat, served: seq<Stream>, visits: seq<Visit>,
                      live: set<Stream>, s: Stream, v: Visit)
    requires ServedBelow(order, kernel, n, served, visits, live) && n < |order| && kernel.revents(n).any
    requires ServedEntry(order[n], kernel.revents(n), s, v, live)
    ensures ServedBelow(order, kernel, n + 1, served + [s], visits + [v], live)
  {
    assert (served + [s])[..|served|] == served && (visits + [v])[..|visits|] == visits;
  }

  ghost predicate ServedEntry(fd: int, revents: Revents, s: Stream, v: Visit, live: set<Stream>) {
    s in live && s.FdStream? && s.fd == fd && ServeVisit(v, s, revents.hup)
  }

  /** The streams served and the visits to them are those of these entries. */
  ghost predicate ServedAt(order: seq<int>, kernel: KernelAnswer, at: seq<nat>, served: seq<Stream>, visits: seq<Visit>,
                           live: set<Stream>)
  {
    |at| == |served| == |visits|
    && forall k :: 0 <= k < |at| ==>
         at[k] < |order| && ServedEntry(order[at[k]], kernel.revents(at[k]), served[k], visits[k], live)
  }

  lemma {:induction false} ServedBelowMeans(order: seq<int>, kernel: KernelAnswer, n: nat, served: seq<Stream>,
                                            visits: seq<Visit>, live: set<Stream>)
    requires ServedBelow(order, kernel, n, served, visits, live)
    ensures ServedAt(order, kernel, Active(kernel.revents, n), served, visits, live)
    decreases n
  {
    if n > 0 {
      if kernel.revents(n - 1).any {
        ServedBelowMeans(order, kernel, n - 1, served[..|served| - 1], visits[..|visits| - 1], live);
        ServedAtMore(order, kernel, Active(kernel.revents, n - 1), served, visits, n - 1, live);
      } else {
        ServedBelowMeans(order, kernel, n - 1, served, visits, live);
      }
    }
  }

  lemma ServedAtMore(order: seq<int>, kernel: KernelAnswer, at: seq<nat>, served: seq<Stream>, visits: seq<Visit>,
                     i: nat, live: set<Stream>)
    requires |served| == |visits| > 0 && i < |order|
    requires ServedAt(order, kernel, at, served[..|served| - 1], visits[..|visits| - 1], live)
    requires ServedEntry(order[i], kernel.revents(i), served[|served| - 1], visits[|visits| - 1], live)
    ensures ServedAt(order, kernel, at + [i], served, visits, live)
  {
    var n := |served| - 1;
    forall k | 0 <= k < n + 1
      ensures (at + [i])[k] < |order|
              && ServedEntry(order[(at + [i])[k]], kernel.revents((at + [i])[k]), served[k], visits[k], live)
    {
      if k < n {
        assert served[..n][k] == served[k] && visits[..n][k] == visits[k];
      }
    }
  }

  /** What one turn of the poll loop does: the streams without descriptor, the rounds that serve them, the poll
      array, the visits that fill it and those that serve the streams due. */
  datatype Trace = Trace(others: seq<Stream>, rounds: seq<Round>, entries: seq<PollFd>, asked: seq<Visit>, served: seq<Visit>)

  /** The streams without descriptor in the table are served in the order of their list. */
  ghost predicate GoodTrace(trace: Trace, table: set<Stream>) {
    && (forall s :: s in trace.others <==> s in table && s.OtherStream?)
    && GoodRounds(trace.rounds, trace.others)
  }

  /** The turns so far: how each ended, the streams that were to be in the table during it, and what it did. */
  ghost predicate Turns(ends: seq<PassEnd>, tables: seq<set<Stream>>, traces: seq<Trace>) {
    |ends| == |tables| == |traces| && forall k :: 0 <= k < |traces| ==> GoodTrace(traces[k], tables[k])
  }

  function TraceCalls(traces: seq<Trace>): seq<Call> {
    if traces == [] then [] else TraceCalls(traces[..|traces| - 1]) + CallsIn(traces[|traces| - 1])
  }

  function CallsIn(trace: Trace): seq<Call> {
    RoundCalls(trace.rounds) + CallsOf(trace.asked) + CallsOf(trace.served)
  }

  lemma OneMoreTurn(ends: seq<PassEnd>, tables: seq<set<Stream>>, traces: seq<Trace>, end: PassEnd, table: set<Stream>,
                    trace: Trace, first: seq<Call>, start: seq<Call>, log: seq<Call>)
    requires Turns(ends, tables, traces) && GoodTrace(trace, table) && start == first + TraceCalls(traces)
    requires log == start + RoundCalls(trace.rounds) + CallsOf(trace.asked) + CallsOf(trace.served)
    ensures Turns(ends + [end], tables + [table], traces + [trace]) && log == first + TraceCalls(traces + [trace])
  {
    assert (traces + [trace])[..|traces|] == traces;
    Append3(start, RoundCalls(trace.rounds), CallsOf(trace.asked), CallsOf(trace.served));
    Append2(first, TraceCalls(traces), CallsIn(trace));
  }

  lemma OneMoreVisit(visits: seq<Visit>, v: Visit)
    ensures CallsOf(visits + [v]) == CallsOf(visits) + v.calls
    ensures DroppedBy(visits + [v]) == DroppedBy(visits) + v.dropped
  {
    assert (visits + [v])[..|visits|] == visits;
  }

  function Elems<T(!new)>(s: seq<T>): (r: set<T>)
    ensures forall x :: x in r <==> x in s
  {
    set x | x in s
  }

  ghost predicate NoDup<T(!new)>(s: seq<T>) {
    forall x :: multiset(s)[x] <= 1
  }

  /** list::remove: every occurrence goes. */
  function Without(s: seq<Stream>, x: Stream): (r: seq<Stream>)
    ensures x !in r && Elems(r) == Elems(s) - {x}
    ensures forall y :: y != x ==> multiset(r)[y] == multiset(s)[y]
  {
    if s == [] then []
    else
      var rest := Without(s[1..], x);
      assert s == [s[0]] + s[1..];
      if s[0] == x then rest else [s[0]] + rest
  }

  ghost function Twice(s: seq<Stream>): set<Stream> {
    set x | x in s && multiset(s)[x] > 1
  }

  lemma RepeatedAfterSow(before: seq<Stream>, after: seq<Stream>, added: set<Stream>)
    requires forall s :: multiset(after)[s] == multiset(before)[s] + if s in added then 1 else 0
    ensures Twice(after) == Twice(before) + (Elems(before) * added)
    ensures NoDup(before) && added !! Elems(before) ==> NoDup(after)
  {
    forall s
      ensures s in Twice(after) <==> s in Twice(before) || (s in before && s in added)
    {
      assert s in after <==> multiset(after)[s] > 0;
      assert s in before <==> multiset(before)[s] > 0;
    }
  }

  lemma RepeatedAfterReap(before: seq<Stream>, after: seq<Stream>, deleted: set<Stream>)
    requires Elems(after) == Elems(before) - deleted
    requires forall s :: s in after ==> multiset(after)[s] == multiset(before)[s]
    ensures Twice(after) == Twice(before) - deleted
    ensures NoDup(before) ==> NoDup(after)
  {
    forall s | s !in after
      ensures multiset(after)[s] == 0
    {
    }
  }

  class StreamTable {
    var streams: seq<Stream>
    var nonfd: seq<Stream>
    var fdToStream: map<int, Stream>
    var added: set<Stream>
    var deleted: set<Stream>
    var asyncNotify: bool
    var consumer: map<Stream, nat>   // the streams that have a consumer
    var destroyed: seq<Stream>       // the delete calls made so far
    ghost var ever: set<Stream>      // every stream ever added
    ghost var log: seq<Call>         // every call into a consumer
    ghost var readded: bool          // has a stream been added that was in the table already?
    ghost var again: set<Stream>     // the streams that entered the list while in it and have not left since

    /** The list is the disjoint union of the descriptor map and the other list; nothing in it is destroyed. */
    ghost predicate Tables()
      reads this
    {
      && (forall s :: s in streams && s.FdStream? ==> s.fd in fdToStream && fdToStream[s.fd] == s)
      && (forall fd :: fd in fdToStream ==>
            fdToStream[fd] in streams && fdToStream[fd].FdStream? && fdToStream[fd].fd == fd)
      && (forall s :: s in nonfd <==> s in streams && s.OtherStream?)
      && NoDup(destroyed) && Elems(destroyed) !! Elems(streams) + added
      && ever == Elems(streams) + added + Elems(destroyed)
      && DistinctFds(Elems(streams) + added)
    }

    ghost predicate Valid()
      reads this
    {
      && Tables() && deleted <= Elems(streams) + added && again == Twice(streams)
      && (!readded ==> NoDup(streams) && added !! Elems(streams))
    }

    /** Open descriptors are distinct. */
    static predicate DistinctFds(s: set<Stream>) {
      forall x, y :: x in s && y in s && x.FdStream? && y.FdStream? && x.fd == y.fd ==> x == y
    }

    constructor ()
      ensures Valid() && streams == [] && added == {} && deleted == {} && destroyed == [] && ever == {}
      ensures !readded && again == {} && log == []
    {
      streams, nonfd, fdToStream, added, deleted, asyncNotify := [], [], map[], {}, {}, false;
      consumer, destroyed, ever, readded, again := map[], [], {}, false, {};
      log := [];
    }

    // --- additions and removals ---

    method Add(s: Stream)
      requires Valid() && s !in destroyed && DistinctFds(Elems(streams) + added + {s})
      modifies `added, `ever, `readded
      ensures Valid() && added == old(added) + {s} && ever == old(ever) + {s}
      ensures readded <==> old(readded) || s in streams
    {
      readded := readded || s in streams;
      added := added + {s};
      ever := ever + {s};
      assert Elems(streams) + added == Elems(streams) + old(added) + {s};
    }

    /** Many additions, in any order. */
    method AddAll(more: set<Stream>)
      requires Valid() && (forall s :: s in more ==> s !in destroyed) && DistinctFds(Elems(streams) + added + more)
      modifies `added, `ever, `readded
      ensures Valid() && added == old(added) + more
    {
      assert Elems(streams) + (added + more) == Elems(streams) + added + more;
      readded := readded || !(more !! Elems(streams));
      added := added + more;
      ever := ever + more;
    }

    method Remove(s: Stream)
      requires Valid() && (s in streams || s in added)
      modifies `deleted
      ensures Valid() && deleted == old(deleted) + {s}
    {
      deleted := deleted + {s};
    }

    /** Streams to go when a consumer goes: its own, and those that have none. */
    predicate Orphaned(s: Stream, ioc: nat)
      reads this
    {
      s !in consumer || consumer[s] == ioc
    }

    method RemoveConsumer(ioc: nat)
      requires Valid()
      modifies `deleted
      ensures Valid()
      ensures deleted == old(deleted) + set s | s in Elems(streams) + added && (s in consumer ==> consumer[s] == ioc)
    {
      RemoveListed(ioc);
      RemovePending(ioc);
    }

    method RemoveListed(ioc: nat)
      requires Valid()
      modifies `deleted
      ensures Valid()
      ensures deleted == old(deleted) + set s | s in Elems(streams) && Orphaned(s, ioc)
    {
      var i := 0;
      while i < |streams|
        invariant 0 <= i <= |streams| && Valid()
        invariant deleted == old(deleted) + set s | s in Elems(streams[..i]) && Orphaned(s, ioc)
      {
        assert Elems(streams[..i + 1]) == Elems(streams[..i]) + {streams[i]};
        if Orphaned(streams[i], ioc) {
          Remove(streams[i]);
        }
        i := i + 1;
      }
      assert streams[..i] == streams;
    }

    method RemovePending(ioc: nat)
      requires Valid()
      modifies `deleted
      ensures Valid()
      ensures deleted == old(deleted) + set s | s in added && Orphaned(s, ioc)
    {
      var rest := added;
      while rest != {}
        invariant rest <= added && Valid()
        invariant deleted == old(deleted) + set s | s in added - rest && Orphaned(s, ioc)
        decreases rest
      {
        var s :| s in rest;
        assert added - (rest - {s}) == (added - rest) + {s};
        rest := rest - {s};
        if Orphaned(s, ioc) {
          Remove(s);
        }
      }
      assert added - rest == added;
    }

    /** Destruction of a stream or consumer may let go of other consumers. */
    method Delete(s: Stream)
      requires s !in destroyed && NoDup(destroyed)
      modifies `destroyed, `consumer
      ensures destroyed == old(destroyed) + [s] && NoDup(destroyed)
    {
      destroyed := destroyed + [s];
      consumer := *;
      assert forall x :: multiset(destroyed)[x] == multiset(old(destroyed))[x] + multiset([s])[x];
    }

    method DoAdd(s: Stream)
      requires Tables() && s in added
      modifies `streams, `nonfd, `fdToStream
      ensures Tables() && streams == old(streams) + [s]
    {
      streams := streams + [s];
      match s
      case FdStream(_, fd) => fdToStream := fdToStream[fd := s];
      case OtherStream(_) => nonfd := nonfd + [s];
      assert Elems(streams) + added == Elems(old(streams)) + added;
    }

    method DoRemove(s: Stream)
      requires Tables() && added == {} && s in streams
      modifies `streams, `nonfd, `fdToStream, `destroyed, `consumer
      ensures Tables() && streams == Without(old(streams), s) && destroyed == old(destroyed) + [s]
    {
      streams := Without(streams, s);
      match s {
        case FdStream(_, fd) =>
          if fd in fdToStream {
            fdToStream := fdToStream - {fd};
          }
        case OtherStream(_) =>
          nonfd := Without(nonfd, s);
      }
      Delete(s);
    }

    /** Carries out what is pending: exactly the deleted streams leave, each destroyed once, whatever order
        the sets are walked in and also when they were added in the same pass. */
    method SowAndReap()
      requires Valid()
      modifies this
      ensures Valid() && added == {} && deleted == {} && ever == old(ever) && readded == old(readded) && log == old(log)
      ensures Elems(streams) == Elems(old(streams)) + old(added) - old(deleted)
      ensures old(destroyed) <= destroyed
      ensures Elems(destroyed) == Elems(old(destroyed)) + old(deleted)
      ensures again == old(again) + (Elems(old(streams)) * old(added)) - old(deleted)
    {
      Sow();
      Reap();
    }

    /** The first loop: the added streams enter the tables. */
    method Sow()
      requires Valid()
      modifies `streams, `nonfd, `fdToStream, `added, `again
      ensures Valid() && added == {}
      ensures Elems(streams) == Elems(old(streams)) + old(added)
      ensures again == old(again) + (Elems(old(streams)) * old(added))
    {
      SowAll();
      RepeatedAfterSow(old(streams), streams, added);
      again := again + (Elems(old(streams)) * added);
      assert Elems(streams) + added == Elems(streams);
      added := {};
      assert Elems(streams) + added == Elems(streams);
    }

    method SowAll()
      requires Tables()
      modifies `streams, `nonfd, `fdToStream
      ensures Tables()
      ensures Elems(streams) == Elems(old(streams)) + added
      ensures forall s :: multiset(streams)[s] == multiset(old(streams))[s] + if s in added then 1 else 0
    {
      var rest := added;
      while rest != {}
        invariant rest <= added && Tables()
        invariant Elems(streams) == Elems(old(streams)) + (added - rest)
        invariant forall s :: multiset(streams)[s] == multiset(old(streams))[s] + if s in added - rest then 1 else 0
        decreases rest
      {
        var s :| s in rest;
        rest := rest - {s};
        DoAdd(s);
      }
      assert added - rest == added;
    }

    /** The second loop: the deleted streams leave the tables and are destroyed. */
    method Reap()
      requires Valid() && added == {}
      modifies `streams, `nonfd, `fdToStream, `deleted, `destroyed, `consumer, `again
      ensures Valid() && deleted == {}
      ensures Elems(streams) == Elems(old(streams)) - old(deleted)
      ensures old(destroyed) <= destroyed && Elems(destroyed) == Elems(old(destroyed)) + old(deleted)
      ensures again == old(again) - old(deleted)
    {
      ReapAll();
      RepeatedAfterReap(old(streams), streams, deleted);
      again := again - deleted;
      deleted := {};
    }

    method ReapAll()
      requires Tables() && added == {} && deleted <= Elems(streams)
      modifies `streams, `nonfd, `fdToStream, `destroyed, `consumer
      ensures Tables()
      ensures Elems(streams) == Elems(old(streams)) - deleted
      ensures old(destroyed) <= destroyed && Elems(destroyed) == Elems(old(destroyed)) + deleted
      ensures forall s :: s in streams ==> multiset(streams)[s] == multiset(old(streams))[s]
    {
      var rest := deleted;
      while rest != {}
        invariant rest <= deleted && rest <= Elems(streams) && Tables()
        invariant Elems(streams) == Elems(old(streams)) - (deleted - rest)
        invariant old(destroyed) <= destroyed && Elems(destroyed) == Elems(old(destroyed)) + (deleted - rest)
        invariant forall s :: s in streams ==> multiset(streams)[s] == multiset(old(streams))[s]
        decreases rest
      {
        var s :| s in rest;
        rest := rest - {s};
        DoRemove(s);
      }
      assert deleted - rest == deleted;
    }

    /** The destructor. Every stream ever added has then been destroyed, and each exactly once if and only
        if none is left in the list twice, which takes adding a stream while it is in the list and not
        removing it before the end. */
    method Free()
      requires Valid()
      modifies this
      ensures streams == [] && nonfd == [] && fdToStream == map[] && added == {} && deleted == {}
      ensures ever == old(ever) && readded == old(readded) && forall s :: s in destroyed <==> s in ever
      ensures again == old(again) + (Elems(old(streams)) * old(added)) - old(deleted)
      ensures (forall s :: s in ever ==> multiset(destroyed)[s] == 1) <==> again == {}
      ensures !old(readded) ==> again == {}
    {
      SowAndReap();
      ghost var left, before := streams, destroyed;
      assert Elems(streams) + added == Elems(streams);
      var i := 0;
      while i < |streams|
        invariant 0 <= i <= |streams| && streams == left && added == {} && deleted == {} && ever == old(ever)
        invariant readded == old(readded) && again == Twice(left)
        invariant destroyed == before + left[..i]
      {
        destroyed := destroyed + [streams[i]];
        consumer := *;
        i := i + 1;
      }
      assert left[..i] == left;
      DestroyedOnce(before, left, ever);
      streams, fdToStream, nonfd := [], map[], [];
    }

    // --- events ---

    predicate Empty()
      reads this
    {
      added == {} && streams == []
    }

    predicate TablesModified()
      reads this
    {
      added != {} || deleted != {}
    }

    /** Any call into a consumer. It may queue new streams, attach and detach consumers as it likes, ask
        for the loop to stop and throw; it has no way to reach the tables themselves. */
    method Callback(s: Stream, kind: Kind) returns (answer: bool, thrown: Thrown)
      requires Valid() && s in streams && s in consumer
      modifies `added, `consumer, `ever, `readded, `asyncNotify, `log
      ensures Valid() && old(added) <= added
      ensures log == old(log) + [Call(s, kind, answer, thrown, s in consumer)]
    {
      var more: set<Stream> := *;
      if (forall s :: s in more ==> s !in destroyed) && DistinctFds(Elems(streams) + added + more) {
        AddAll(more);
      }
      consumer := *;
      asyncNotify := *;
      answer := *;
      thrown := *;
      log := log + [Call(s, kind, answer, thrown, s in consumer)];
    }

    /** A visit so far: its calls are at the end of the log, and the stream has a consumer as the last one left it. */
    ghost predicate Visiting(v: Visit, before: seq<Call>)
      reads this
    {
      && Asked(v) && log == before + v.calls && v.dropped == {}
      && (StillAttached(v) <==> v.s in consumer)
    }

    /** One thing asked, unless the consumer has thrown before or let go of the stream. */
    method Ask(s: Stream, kind: Kind, before: Thrown, ghost v: Visit, ghost start: seq<Call>)
      returns (answer: bool, thrown: Thrown, ghost w: Visit)
      requires Valid() && s in streams && s == v.s && Visiting(v, start) && before == Outcome(v)
      modifies `added, `consumer, `ever, `readded, `asyncNotify, `log
      ensures Valid() && old(added) <= added
      ensures Visiting(w, start) && w.s == s && w.attached == v.attached && w.stages == v.stages + [kind]
      ensures thrown == Outcome(w)
      ensures Says(w, WantRead) <==> Says(v, WantRead) || (kind == WantRead && answer)
      ensures Says(w, WantWrite) <==> Says(v, WantWrite) || (kind == WantWrite && answer)
    {
      if before != Nothing || s !in consumer {
        VisitOver(v, kind);
        return false, before, v.(stages := v.stages + [kind]);
      }
      answer, thrown := Callback(s, kind);
      ghost var c := Call(s, kind, answer, thrown, s in consumer);
      VisitCalls(v, c);
      w := v.(stages := v.stages + [kind], calls := v.calls + [c]);
      assert start + v.calls + [c] == start + (v.calls + [c]);
      answer := answer && thrown == Nothing;
    }

    /** The beginning of a visit. */
    ghost method BeginVisit(s: Stream) returns (v: Visit)
      ensures Visiting(v, log) && v == Visit(s, s in consumer, [], [], {}) && Outcome(v) == Nothing
    {
      v := Visit(s, s in consumer, [], [], {});
      assert log + [] == log;
    }

    /** The try block of do_events. The stream is to go when it has no consumer at the end. */
    method TryEvents(s: Stream) returns (wantmore: bool, thrown: Thrown, ghost v: Visit)
      requires Valid() && s in streams
      modifies `added, `deleted, `consumer, `ever, `readded, `asyncNotify, `log
      ensures Valid() && old(added) <= added
      ensures Visiting(v, old(log)) && v.s == s && (v.attached <==> s in old(consumer)) && ServeStages(s, v.stages)
      ensures thrown == Outcome(v) && (thrown == Nothing ==> (wantmore <==> WantsMore(v)))
      ensures deleted == old(deleted) + if thrown == Nothing && !StillAttached(v) then {s} else {}
    {
      var readyToRead: bool, readyToWrite: bool := *, *;
      wantmore, thrown, v := AskEvents(s, s.OtherStream? && readyToRead, s.OtherStream? && readyToWrite);
      if thrown == Nothing && s !in consumer {
        Remove(s);
        wantmore := false;
      }
    }

    /** What it asks. A stream over a descriptor is never ready in this sense. */
    method AskEvents(s: Stream, readyToRead: bool, readyToWrite: bool)
      returns (wantmore: bool, thrown: Thrown, ghost v: Visit)
      requires Valid() && s in streams
      modifies `added, `consumer, `ever, `readded, `asyncNotify, `log
      ensures Valid() && old(added) <= added
      ensures Visiting(v, old(log)) && v.s == s && (v.attached <==> s in old(consumer))
      ensures v.stages == [Read] + (if readyToRead then [WantRead] else []) + [Write] + (if readyToWrite then [WantWrite] else [])
      ensures thrown == Outcome(v) && (wantmore <==> Says(v, WantRead) || Says(v, WantWrite))
    {
      var readMore, writeMore;
      v := BeginVisit(s);
      assert [] + [Read] == [Read];
      readMore, thrown, v := AskTwice(s, Read, WantRead, readyToRead, Nothing, v, old(log));
      writeMore, thrown, v := AskTwice(s, Write, WantWrite, readyToWrite, thrown, v, old(log));
      wantmore := readMore || writeMore;
    }

    /** To read, or to write, and then whether it wants more of that. */
    method AskTwice(s: Stream, kind: Kind, want: Kind, ready: bool, before: Thrown, ghost v: Visit, ghost start: seq<Call>)
      returns (more: bool, thrown: Thrown, ghost w: Visit)
      requires Valid() && s in streams && s == v.s && Visiting(v, start) && before == Outcome(v)
      requires (kind == Read && want == WantRead) || (kind == Write && want == WantWrite)
      modifies `added, `consumer, `ever, `readded, `asyncNotify, `log
      ensures Valid() && old(added) <= added
      ensures Visiting(w, start) && w.s == s && w.attached == v.attached
      ensures w.stages == v.stages + [kind] + if ready then [want] else []
      ensures thrown == Outcome(w)
      ensures Says(w, WantRead) <==> Says(v, WantRead) || (want == WantRead && more)
      ensures Says(w, WantWrite) <==> Says(v, WantWrite) || (want == WantWrite && more)
    {
      var answer;
      more := false;
      answer, thrown, w := Ask(s, kind, before, v, start);
      if ready {
        more, thrown, w := Ask(s, want, thrown, w, start);
      }
    }

    /** The streams that a visit queues for removal: the one visited when it is closed, fails or has lost its
        consumer, and all that the consumer leaves behind when it wishes to be destroyed. */
    ghost function Drops(v: Visit): set<Stream>
      reads this
    {
      match Outcome(v)
      case Nothing => if StillAttached(v) then {} else {v.s}
      case Destroy(target) => set s | s in Elems(streams) + added && Orphaned(s, target)
      case ClosedStream => {v.s}
      case StdException => {v.s}
      case Uncaught => {}
    }

    /** Dispatch to one stream: its consumer, if it has one, is asked to read, then to write. */
    method DoEvents(s: Stream) returns (wantmore: bool, escaped: bool, ghost v: Visit)
      requires Valid() && s in streams && s !in destroyed
      modifies `added, `deleted, `consumer, `ever, `readded, `asyncNotify, `log
      ensures Valid() && old(added) <= added
      ensures Asked(v) && log == old(log) + v.calls
      ensures v.s == s && (v.attached <==> s in old(consumer)) && ServeStages(s, v.stages)
      ensures v.dropped == Drops(v) && deleted == old(deleted) + v.dropped
      ensures Outcome(v) == ClosedStream || Outcome(v) == StdException || (Outcome(v) == Nothing && s !in consumer) ==> s in deleted
      ensures Outcome(v).Destroy? ==>
                forall x :: x in Elems(streams) + added && (x in consumer ==> consumer[x] == Outcome(v).target) ==> x in deleted
      ensures (escaped <==> Outcome(v) == Uncaught) && (wantmore <==> WantsMore(v))
      ensures StillAttached(v) <==> s in consumer
    {
      var thrown;
      wantmore, thrown, v := TryEvents(s);
      v := v.(dropped := Drops(v));
      match thrown
      case Nothing => return wantmore, false, v;
      case Destroy(target) =>
        RemoveConsumer(target);
        return false, false, v;
      case ClosedStream =>
        Remove(s);
        return false, false, v;
      case StdException =>
        Remove(s);
        return false, false, v;
      case Uncaught =>
        return false, true, v;
    }

    /** One turn of the loop over the streams without descriptor: the stream is served, and then its consumer,
        if it has one, checks its timeout. The check is outside any try block, so whatever it throws escapes. */
    method NonfdTurn(s: Stream) returns (more: bool, escaped: bool, ghost r: Round)
      requires Valid() && s in streams && s !in destroyed
      modifies `added, `deleted, `consumer, `ever, `readded, `asyncNotify, `log
      ensures Valid() && old(added) <= added
      ensures GoodRound(r, s) && (r.serve.attached <==> s in old(consumer))
      ensures log == old(log) + r.serve.calls + r.check.calls && deleted == old(deleted) + r.serve.dropped
      ensures (escaped <==> RoundEscapes(r)) && (more <==> WantsMore(r.serve))
    {
      ghost var v, c;
      more, escaped, v := DoEvents(s);
      if escaped {
        return more, true, Round(v, Visit(s, false, [], [], {}));
      }
      ghost var start := log;
      c := BeginVisit(s);
      var answer, thrown;
      answer, thrown, c := Ask(s, CheckTimeout, Nothing, c, start);
      return more, thrown != Nothing, Round(v, c);
    }

    method NonfdEvents() returns (pending: bool, escaped: bool, ghost rounds: seq<Round>)
      requires Valid()
      modifies `added, `deleted, `consumer, `ever, `readded, `asyncNotify, `log
      ensures Valid() && old(added) <= added
      ensures GoodRounds(rounds, nonfd) && (!escaped ==> |rounds| == |nonfd|)
      ensures log == old(log) + RoundCalls(rounds) && deleted == old(deleted) + RoundDrops(rounds)
      ensures (escaped <==> LastEscapes(rounds)) && (pending <==> SomeWantMore(rounds))
    {
      pending, escaped, rounds := false, false, [];
      assert log + [] == log;
      var i := 0;
      while i < |nonfd| && !escaped
        invariant 0 <= i == |rounds| <= |nonfd| && Valid() && old(added) <= added
        invariant Rounded(rounds, pending, old(log), old(deleted)) && (escaped <==> LastEscapes(rounds))
        decreases |nonfd| - i
      {
        assert nonfd[i] in nonfd;
        pending, escaped, rounds := NextRound(i, pending, rounds, old(log), old(deleted));
        i := i + 1;
      }
    }

    /** The rounds so far, and the calls and removals on the way. */
    ghost predicate Rounded(rounds: seq<Round>, pending: bool, start: seq<Call>, before: set<Stream>)
      reads this
    {
      && GoodRounds(rounds, nonfd) && (pending <==> SomeWantMore(rounds))
      && log == start + RoundCalls(rounds) && deleted == before + RoundDrops(rounds)
    }

    method NextRound(i: nat, pendingBefore: bool, ghost roundsBefore: seq<Round>, ghost start: seq<Call>,
                     ghost before: set<Stream>) returns (pending: bool, escaped: bool, ghost rounds: seq<Round>)
      requires Valid() && i == |roundsBefore| < |nonfd| && nonfd[i] in streams
      requires Rounded(roundsBefore, pendingBefore, start, before)
      modifies `added, `deleted, `consumer, `ever, `readded, `asyncNotify, `log
      ensures Valid() && old(added) <= added && |rounds| == i + 1
      ensures Rounded(rounds, pending, start, before) && (escaped <==> LastEscapes(rounds))
    {
      var more;
      ghost var r;
      more, escaped, r := NonfdTurn(nonfd[i]);
      OneMoreRound(roundsBefore, r, nonfd, start, before);
      pending, rounds := pendingBefore || more, roundsBefore + [r];
    }

    /** Fills the poll array: one entry per key of the descriptor map, in the map's order, with what the
        consumer wants. */
    method FillPollArray() returns (fds: array<PollFd>, escaped: bool, ghost order: seq<int>, ghost visits: seq<Visit>)
      requires Valid()
      modifies `added, `deleted, `consumer, `ever, `readded, `asyncNotify, `log
      ensures Valid() && old(added) <= added
      ensures fresh(fds) && InOrder(order, fdToStream.Keys) && |order| == |fdToStream|
      ensures |visits| <= |order| == fds.Length && PollVisits(visits, order[..|visits|], fdToStream, fds[..|visits|])
      ensures log == old(log) + CallsOf(visits) && deleted == old(deleted) + DroppedBy(visits)
      ensures (escaped <==> visits != [] && FillEscapes(visits[|visits| - 1])) && (!escaped ==> |visits| == |order|)
    {
      var keys := Ordered(fdToStream.Keys);
      fds := new PollFd[|keys|](_ => PollFd(0, false, false));
      order := keys;
      forall i | 0 <= i < |keys|
        ensures keys[i] in fdToStream
      {
        assert keys[i] in keys;
      }
      escaped, visits := FillLoop(fds, keys);
    }

    method FillLoop(fds: array<PollFd>, keys: seq<int>) returns (escaped: bool, ghost visits: seq<Visit>)
      requires Valid() && fds.Length == |keys| && forall i :: 0 <= i < |keys| ==> keys[i] in fdToStream
      modifies `added, `deleted, `consumer, `ever, `readded, `asyncNotify, `log, fds
      ensures Valid() && old(added) <= added
      ensures |visits| <= |keys| && Filled(visits, keys, fds[..|visits|], old(log), old(deleted), escaped)
      ensures !escaped ==> |visits| == |keys|
    {
      visits, escaped := [], false;
      assert log + [] == log && keys[..0] == [] && fds[..0] == [];
      var i := 0;
      while i < |keys| && !escaped
        invariant 0 <= i == |visits| <= |keys| && Valid() && old(added) <= added
        invariant Filled(visits, keys, fds[..i], old(log), old(deleted), escaped)
        decreases |keys| - i
      {
        escaped, visits := Fill(fds, keys, i, visits, old(log), old(deleted));
        i := i + 1;
      }
    }

    /** The entries made so far, and the calls and removals on the way; the last one may end it all. */
    ghost predicate Filled(visits: seq<Visit>, keys: seq<int>, entries: seq<PollFd>, start: seq<Call>, before: set<Stream>,
                           escaped: bool)
      reads this
    {
      && |visits| <= |keys| && PollVisits(visits, keys[..|visits|], fdToStream, entries)
      && log == start + CallsOf(visits) && deleted == before + DroppedBy(visits)
      && (escaped <==> visits != [] && FillEscapes(visits[|visits| - 1]))
    }

    /** One turn of the filling loop. */
    method Fill(fds: array<PollFd>, keys: seq<int>, i: nat, ghost tried: seq<Visit>, ghost start: seq<Call>,
                ghost before: set<Stream>) returns (escaped: bool, ghost visits: seq<Visit>)
      requires Valid() && i == |tried| < |keys| == fds.Length && keys[i] in fdToStream
      requires Filled(tried, keys, fds[..i], start, before, false)
      modifies `added, `deleted, `consumer, `ever, `readded, `asyncNotify, `log, fds
      ensures Valid() && old(added) <= added
      ensures |visits| == i + 1 && Filled(visits, keys, fds[..i + 1], start, before, escaped)
    {
      var entry;
      ghost var v;
      ghost var entries := fds[..i];
      entry, escaped, v := Entry(keys[i]);
      fds[i] := entry;
      visits := tried + [v];
      assert fds[..i + 1] == entries + [entry] && keys[..i + 1] == keys[..i] + [keys[i]];
      OneMorePoll(tried, keys[..i], fdToStream, entries, v, keys[i], entry);
      OneMoreVisit(tried, v);
      Append2(start, CallsOf(tried), v.calls);
    }

    /** The entry for one descriptor. */
    method Entry(fd: int) returns (entry: PollFd, escaped: bool, ghost v: Visit)
      requires Valid() && fd in fdToStream
      modifies `added, `deleted, `consumer, `ever, `readded, `asyncNotify, `log
      ensures Valid() && old(added) <= added
      ensures PollVisit(v, fd, fdToStream, entry) && (v.attached <==> fdToStream[fd] in old(consumer))
      ensures log == old(log) + v.calls && deleted == old(deleted) + v.dropped
      ensures v.dropped == if Outcome(v).Destroy? then Drops(v) else {}
      ensures escaped <==> FillEscapes(v)
    {
      var wantIn, wantOut, thrown;
      wantIn, wantOut, thrown, v := AskStream(fdToStream[fd]);
      v := v.(dropped := if thrown.Destroy? then Drops(v) else {});
      escaped := Caught(thrown);
      entry := PollFd(fd, wantIn, wantOut);
    }

    /** The catch clause of the filling loop: it knows the wish to be destroyed only. */
    method Caught(thrown: Thrown) returns (escaped: bool)
      requires Valid()
      modifies `deleted
      ensures Valid()
      ensures escaped <==> thrown != Nothing && !thrown.Destroy?
      ensures deleted == old(deleted) + if thrown.Destroy? then set s | s in Elems(streams) + added && Orphaned(s, thrown.target) else {}
    {
      match thrown
      case Nothing => return false;
      case Destroy(target) =>
        RemoveConsumer(target);
        return false;
      case ClosedStream => return true;
      case StdException => return true;
      case Uncaught => return true;
    }

    /** The try block of the filling loop: timeout, want_read, want_write. */
    method AskStream(s: Stream) returns (wantIn: bool, wantOut: bool, thrown: Thrown, ghost v: Visit)
      requires Valid() && s in streams
      modifies `added, `consumer, `ever, `readded, `asyncNotify, `log
      ensures Valid() && old(added) <= added
      ensures Asked(v) && log == old(log) + v.calls && v.dropped == {}
      ensures v.s == s && (v.attached <==> s in old(consumer)) && v.stages == [CheckTimeout, WantRead, WantWrite]
      ensures thrown == Outcome(v) && (wantIn <==> Says(v, WantRead)) && (wantOut <==> Says(v, WantWrite))
    {
      var answer;
      v := BeginVisit(s);
      answer, thrown, v := Ask(s, CheckTimeout, Nothing, v, old(log));
      assert v.stages == [CheckTimeout];
      wantIn, thrown, v := Ask(s, WantRead, thrown, v, old(log));
      assert v.stages == [CheckTimeout, WantRead];
      wantOut, thrown, v := Ask(s, WantWrite, thrown, v, old(log));
    }

    /** The dispatching loop after poll(2). Every lookup finds a live stream, and the streams served are
        those of the entries with events, in the order of the array: all of them, each once, when the
        number that poll returned is not smaller than theirs, else the first so many. */
    method Dispatch(fds: array<PollFd>, kernel: KernelAnswer, ghost order: seq<int>)
      returns (served: seq<Stream>, escaped: bool, ghost visits: seq<Visit>)
      requires Valid() && Keyed(fds, order) && forall j :: 0 <= j < |order| ==> order[j] in fdToStream
      modifies `added, `deleted, `consumer, `ever, `readded, `asyncNotify, `log
      ensures Valid() && old(added) <= added
      ensures |served| <= |Due(kernel, |order|)|
      ensures ServedAt(order, kernel, Due(kernel, |order|)[..|served|], served, visits, Elems(streams) - Elems(destroyed))
      ensures log == old(log) + CallsOf(visits) && deleted == old(deleted) + DroppedBy(visits)
      ensures escaped <==> visits != [] && Outcome(visits[|visits| - 1]) == Uncaught
      ensures !escaped ==> |served| == |Due(kernel, |order|)|
    {
      ghost var scanned;
      served, escaped, scanned, visits := DispatchLoop(fds, kernel, order);
      ServedBelowMeans(order, kernel, scanned, served, visits, Elems(streams) - Elems(destroyed));
      DuePrefix(kernel, scanned, |order|);
    }

    method DispatchLoop(fds: array<PollFd>, kernel: KernelAnswer, ghost order: seq<int>)
      returns (served: seq<Stream>, escaped: bool, ghost scanned: nat, ghost visits: seq<Visit>)
      requires Valid() && Keyed(fds, order) && forall j :: 0 <= j < |order| ==> order[j] in fdToStream
      modifies `added, `deleted, `consumer, `ever, `readded, `asyncNotify, `log
      ensures Valid() && old(added) <= added
      ensures scanned <= |order| && Dispatched(order, kernel, scanned, served, visits, old(log), old(deleted))
      ensures escaped <==> visits != [] && Outcome(visits[|visits| - 1]) == Uncaught
      ensures kernel.events >= 0 ==> |served| <= kernel.events
      ensures !escaped ==> scanned == |order| || |served| == kernel.events
    {
      served, visits := [], [];
      assert log + [] == log;
      var events := kernel.events;
      var i := 0;
      escaped := false;
      while i < fds.Length && events != 0 && !escaped
        invariant 0 <= i <= fds.Length && Valid() && old(added) <= added
        invariant events == kernel.events - |served| && (kernel.events >= 0 ==> events >= 0)
        invariant Dispatched(order, kernel, i, served, visits, old(log), old(deleted))
        invariant escaped <==> visits != [] && Outcome(visits[|visits| - 1]) == Uncaught
        decreases fds.Length - i
      {
        served, escaped, events, visits := DispatchTurn(fds, kernel, i, order, served, events, visits, old(log), old(deleted));
        i := i + 1;
      }
      scanned := i;
    }

    /** One turn of the dispatching loop. */
    method DispatchTurn(fds: array<PollFd>, kernel: KernelAnswer, i: nat, ghost order: seq<int>, before: seq<Stream>,
                        eventsBefore: int, ghost tried: seq<Visit>, ghost start: seq<Call>, ghost deletedBefore: set<Stream>)
      returns (served: seq<Stream>, escaped: bool, events: int, ghost visits: seq<Visit>)
      requires Valid() && i < |order| && Keyed(fds, order) && order[i] in fdToStream
      requires Dispatched(order, kernel, i, before, tried, start, deletedBefore)
      modifies `added, `deleted, `consumer, `ever, `readded, `asyncNotify, `log
      ensures Valid() && old(added) <= added
      ensures Dispatched(order, kernel, i + 1, served, visits, start, deletedBefore)
      ensures |served| == |before| + (if kernel.revents(i).any then 1 else 0) && events == eventsBefore - (|served| - |before|)
      ensures if kernel.revents(i).any then visits != [] && (escaped <==> Outcome(visits[|visits| - 1]) == Uncaught)
              else visits == tried && !escaped
    {
      served, escaped, events, visits := before, false, eventsBefore, tried;
      if kernel.revents(i).any {
        var s;
        ghost var v;
        s, escaped, v := ServeEntry(fds, kernel, i, order, served, visits, start, deletedBefore);
        served, visits, events := served + [s], visits + [v], events - 1;
      }
    }

    /** The entries below n that have been served, and the calls and removals on the way. */
    ghost predicate Dispatched(order: seq<int>, kernel: KernelAnswer, n: nat, served: seq<Stream>, visits: seq<Visit>,
                               start: seq<Call>, before: set<Stream>)
      reads this
    {
      && ServedBelow(order, kernel, n, served, visits, Elems(streams) - Elems(destroyed))
      && log == start + CallsOf(visits) && deleted == before + DroppedBy(visits)
    }

    /** One turn of the dispatching loop, for an entry with events. */
    method ServeEntry(fds: array<PollFd>, kernel: KernelAnswer, i: nat, ghost order: seq<int>, ghost served: seq<Stream>,
                      ghost visits: seq<Visit>, ghost start: seq<Call>, ghost before: set<Stream>)
      returns (s: Stream, escaped: bool, ghost v: Visit)
      requires Valid() && i < |order| && Keyed(fds, order) && order[i] in fdToStream && kernel.revents(i).any
      requires Dispatched(order, kernel, i, served, visits, start, before)
      modifies `added, `deleted, `consumer, `ever, `readded, `asyncNotify, `log
      ensures Valid() && old(added) <= added
      ensures Dispatched(order, kernel, i + 1, served + [s], visits + [v], start, before)
      ensures escaped <==> Outcome(v) == Uncaught
    {
      s, escaped, v := Serve(fds[i].fd, kernel.revents(i).hup);
      OneMoreVisit(visits, v);
      Append2(start, CallsOf(visits), v.calls);
      OneMoreServed(order, kernel, i, served, visits, Elems(streams) - Elems(destroyed), s, v);
    }

    /** One entry with events: its stream is looked up, served and, after a hangup, removed. */
    method Serve(fd: int, hup: bool) returns (s: Stream, escaped: bool, ghost v: Visit)
      requires Valid() && fd in fdToStream
      modifies `added, `deleted, `consumer, `ever, `readded, `asyncNotify, `log
      ensures Valid() && old(added) <= added
      ensures s in streams && s !in destroyed && s.FdStream? && s.fd == fd
      ensures ServeVisit(v, s, hup) && (v.attached <==> s in old(consumer))
      ensures log == old(log) + v.calls && deleted == old(deleted) + v.dropped
      ensures v.dropped == Drops(v) + if hup && !escaped then {s} else {}
      ensures escaped <==> Outcome(v) == Uncaught
    {
      s := fdToStream[fd];
      var more;
      more, escaped, v := DoEvents(s);
      if !escaped && hup {
        Remove(s);
        v := v.(dropped := v.dropped + {s});
      }
    }

    /** The first part of a turn of the poll loop: the streams without descriptor are served. */
    method ServeOthers() returns (escaped: bool, wait: bool, ghost others: seq<Stream>, ghost rounds: seq<Round>)
      requires Valid()
      modifies this
      ensures Valid() && old(ever) <= ever && old(destroyed) <= destroyed
      ensures log == old(log) + RoundCalls(rounds) && (wait <==> !SomeWantMore(rounds))
      ensures GoodRounds(rounds, others) && (escaped <==> LastEscapes(rounds)) && (!escaped ==> |rounds| == |others|)
      ensures forall s :: s in others <==> s in old(Elems(streams) + added - deleted) && s.OtherStream?
    {
      SowAndReap();
      others := nonfd;
      var pending;
      pending, escaped, rounds := NonfdEvents();
      wait := !pending;
    }

    /** The second part: the poll array is filled. */
    method AskAll() returns (escaped: bool, fds: array<PollFd>, ghost order: seq<int>, ghost asked: seq<Visit>)
      requires Valid()
      modifies this
      ensures Valid() && old(ever) <= ever && old(destroyed) <= destroyed && fresh(fds)
      ensures log == old(log) + CallsOf(asked) && deleted == DroppedBy(asked)
      ensures !escaped ==>
                && InOrder(order, fdToStream.Keys) && |order| == |fdToStream|
                && PollVisits(asked, order, fdToStream, fds[..])
    {
      SowAndReap();
      fds, escaped, order, asked := FillPollArray();
      if !escaped {
        WholeOrder(order, fds[..]);
        assert fds[..|order|] == fds[..][..|order|];
      }
    }

    lemma WholeOrder(order: seq<int>, entries: seq<PollFd>)
      requires |order| == |entries|
      ensures order[..|order|] == order && entries[..|order|] == entries
    {
    }

    /** One turn of the poll loop. The poll array lists the keys of the descriptor map in order. When filling it
        leaves nothing pending and nobody asks to stop, poll(2) is called, to wait unless a stream wants more
        at once, and the streams due are served. */
    method Pass(kernel: KernelAnswer)
      returns (end: PassEnd, ghost order: seq<int>, served: seq<Stream>, polled: bool, wait: bool, ghost trace: Trace)
      requires Valid()
      modifies this
      ensures Valid() && old(ever) <= ever && old(destroyed) <= destroyed
      ensures log == old(log) + RoundCalls(trace.rounds) + CallsOf(trace.asked) + CallsOf(trace.served)
      ensures GoodTrace(trace, old(Elems(streams) + added - deleted)) && (wait <==> !SomeWantMore(trace.rounds))
      ensures polled ==>
                && Polled(kernel, order, served, trace, end.Escaped?) && deleted == DroppedBy(trace.served)
                && |trace.rounds| == |trace.others|
      ensures !polled ==> served == [] && trace.served == []
      ensures end.Continue? && !polled ==> TablesModified()
      ensures end.Stopped? ==> asyncNotify && !polled && !TablesModified()
    {
      served, polled, order := [], false, [];
      var escaped;
      ghost var others, rounds;
      escaped, wait, others, rounds := ServeOthers();
      trace := Trace(others, rounds, [], [], []);
      if escaped {
        end := Escaped;
      } else {
        ghost var rest;
        end, order, served, polled, rest := PassRest(kernel);
        trace := rest.(others := others, rounds := rounds);
        Append2(old(log) + RoundCalls(rounds), CallsOf(rest.asked), CallsOf(rest.served));
      }
    }

    /** What poll(2) was given and what came of its answer: the array lists the keys of the descriptor map in
        order with what the consumers want, and the streams served are those due. */
    ghost predicate Polled(kernel: KernelAnswer, order: seq<int>, served: seq<Stream>, trace: Trace, escaped: bool)
      reads this
    {
      && InOrder(order, fdToStream.Keys) && |order| == |fdToStream|
      && PollVisits(trace.asked, order, fdToStream, trace.entries)
      && |served| <= |Due(kernel, |order|)|
      && ServedAt(order, kernel, Due(kernel, |order|)[..|served|], served, trace.served, Elems(streams) - Elems(destroyed))
      && (!escaped ==> |served| == |Due(kernel, |order|)|)
    }

    /** A turn of the poll loop after its first part. */
    method PassRest(kernel: KernelAnswer)
      returns (end: PassEnd, ghost order: seq<int>, served: seq<Stream>, polled: bool, ghost trace: Trace)
      requires Valid()
      modifies this
      ensures Valid() && old(ever) <= ever && old(destroyed) <= destroyed
      ensures log == old(log) + (CallsOf(trace.asked) + CallsOf(trace.served))
      ensures polled ==> Polled(kernel, order, served, trace, end.Escaped?) && deleted == DroppedBy(trace.served)
      ensures !polled ==> served == [] && trace.served == []
      ensures end.Continue? && !polled ==> TablesModified()
      ensures end.Stopped? ==> asyncNotify && !polled && !TablesModified()
    {
      served, polled := [], false;
      var escaped, fds;
      ghost var asked, visits;
      escaped, fds, order, asked := AskAll();
      trace := Trace([], [], fds[..], asked, []);
      assert CallsOf(asked) + [] == CallsOf(asked);
      if escaped {
        end := Escaped;
      } else if TablesModified() {
        end := Continue;
      } else if asyncNotify {
        end := Stopped;
      } else {
        polled := true;
        served, escaped, visits := PollOnce(fds, kernel, order, asked);
        trace := trace.(served := visits);
        Append2(old(log), CallsOf(asked), CallsOf(visits));
        end := if escaped then Escaped else Continue;
      }
    }

    /** poll(2) and what follows it. */
    method PollOnce(fds: array<PollFd>, kernel: KernelAnswer, ghost order: seq<int>, ghost asked: seq<Visit>)
      returns (served: seq<Stream>, escaped: bool, ghost visits: seq<Visit>)
      requires Valid() && InOrder(order, fdToStream.Keys) && deleted == {}
      requires fds.Length == |order| && PollVisits(asked, order, fdToStream, fds[..])
      modifies `added, `deleted, `consumer, `ever, `readded, `asyncNotify, `log
      ensures Valid() && old(added) <= added
      ensures |served| <= |Due(kernel, |order|)|
      ensures ServedAt(order, kernel, Due(kernel, |order|)[..|served|], served, visits, Elems(streams) - Elems(destroyed))
      ensures log == old(log) + CallsOf(visits) && deleted == DroppedBy(visits)
      ensures !escaped ==> |served| == |Due(kernel, |order|)|
    {
      PollVisitsMeans(asked, order, fdToStream, fds[..]);
      forall j | 0 <= j < |order|
        ensures order[j] in fdToStream && fds[j].fd == order[j]
      {
        assert PollVisit(asked[j], order[j], fdToStream, fds[..][j]);
      }
      served, escaped, visits := Dispatch(fds, kernel, order);
    }

    /** The poll loop, for as many turns as there are answers of the kernel: it goes on until the table is empty,
        someone asks to stop or an exception escapes, and every call into a consumer belongs to one of its turns. */
    method Poll(answers: seq<KernelAnswer>)
      returns (escaped: bool, ghost ends: seq<PassEnd>, ghost tables: seq<set<Stream>>, ghost traces: seq<Trace>)
      requires Valid()
      modifies this
      ensures Valid() && old(ever) <= ever && old(destroyed) <= destroyed
      ensures Turns(ends, tables, traces) && log == old(log) + TraceCalls(traces)
      ensures |ends| == |answers| || (|ends| < |answers| && (Empty() || (ends != [] && !ends[|ends| - 1].Continue?)))
      ensures escaped <==> ends != [] && ends[|ends| - 1].Escaped?
      ensures forall k :: 0 <= k < |ends| - 1 ==> ends[k].Continue?
      ensures tables != [] ==> tables[0] == old(Elems(streams) + added - deleted)
    {
      ends, tables, traces, escaped := [], [], [], false;
      assert log + [] == log;
      var i, stop := 0, false;
      while i < |answers| && !stop && !Empty()
        invariant 0 <= i == |ends| <= |answers| && Valid() && old(ever) <= ever && old(destroyed) <= destroyed
        invariant Turned(ends, tables, traces, old(log)) && (stop ==> ends != [])
        invariant ends != [] ==> (stop <==> !ends[i - 1].Continue?) && (escaped <==> ends[i - 1].Escaped?)
        invariant ends == [] ==> !escaped
        invariant if tables == [] then Elems(streams) + added - deleted == old(Elems(streams) + added - deleted)
                  else tables[0] == old(Elems(streams) + added - deleted)
        decreases |answers| - i
      {
        var end;
        end, ends, tables, traces := Turn(answers[i], ends, tables, traces, old(log));
        stop, escaped := !end.Continue?, end.Escaped?;
        i := i + 1;
      }
    }

    /** The turns so far, none of which but the last has ended the loop. */
    ghost predicate Turned(ends: seq<PassEnd>, tables: seq<set<Stream>>, traces: seq<Trace>, start: seq<Call>)
      reads this
    {
      && Turns(ends, tables, traces) && log == start + TraceCalls(traces)
      && forall k :: 0 <= k < |ends| - 1 ==> ends[k].Continue?
    }

    method Turn(answer: KernelAnswer, ghost endsBefore: seq<PassEnd>, ghost tablesBefore: seq<set<Stream>>,
                ghost tracesBefore: seq<Trace>, ghost start: seq<Call>)
      returns (end: PassEnd, ghost ends: seq<PassEnd>, ghost tables: seq<set<Stream>>, ghost traces: seq<Trace>)
      requires Valid() && Turned(endsBefore, tablesBefore, tracesBefore, start)
      requires endsBefore != [] ==> endsBefore[|endsBefore| - 1].Continue?
      modifies this
      ensures Valid() && old(ever) <= ever && old(destroyed) <= destroyed
      ensures Turned(ends, tables, traces, start) && ends == endsBefore + [end]
      ensures tables == tablesBefore + [old(Elems(streams) + added - deleted)]
    {
      ghost var before := log;
      var served, polled, wait;
      ghost var order, trace;
      end, order, served, polled, wait, trace := Pass(answer);
      ghost var table := old(Elems(streams) + added - deleted);
      OneMoreTurn(endsBefore, tablesBefore, tracesBefore, end, table, trace, start, before, log);
      ends, tables, traces := endsBefore + [end], tablesBefore + [table], tracesBefore + [trace];
    }
  }

  /** A whole life of a table: streams are added, polled for as many passes as the kernel answers, and the
      table is freed, also when an exception escapes from poll. Every stream ever added is destroyed in
      the end, and each exactly once if and only if none entered the list while in it and was still there
      at the end. */
  method Lifetime(initial: set<Stream>, answers: seq<KernelAnswer>) returns (t: StreamTable)
    requires StreamTable.DistinctFds(initial)
    ensures fresh(t) && t.streams == [] && t.added == {} && initial <= t.ever
    ensures forall s :: s in t.destroyed <==> s in t.ever
    ensures (forall s :: s in t.ever ==> multiset(t.destroyed)[s] == 1) <==> t.again == {}
    ensures !t.readded ==> t.again == {}
  {
    t := new StreamTable();
    var rest := initial;
    while rest != {}
      invariant rest <= initial && fresh(t) && t.Valid() && t.streams == [] && t.destroyed == []
      invariant t.added == initial - rest && t.ever == initial - rest
      decreases rest
    {
      var s :| s in rest;
      rest := rest - {s};
      t.Add(s);
    }
    assert initial - rest == initial;
    var escaped, ends, tables, traces := t.Poll(answers);
    t.Free();
  }

  /** A stream that is added while it is in the table is deleted twice. */
  method AddedAgain(s: Stream) returns (t: StreamTable)
    ensures fresh(t) && s in t.ever && multiset(t.destroyed)[s] >= 2
  {
    t := new StreamTable();
    t.Add(s);
    t.SowAndReap();
    assert s in t.streams;
    t.Add(s);
    ghost var again := Elems(t.streams) * t.added;
    assert s in again;
    t.Free();
    assert t.ever == {s};
  }

  /** The entries are for these descriptors, in this order. */
  ghost predicate Keyed(fds: array<PollFd>, order: seq<int>)
    reads fds
  {
    fds.Length == |order| && forall j :: 0 <= j < |order| ==> fds[j].fd == order[j]
  }

  /** The entries below n that report something. */
  function Active(revents: nat -> Revents, n: nat): (r: seq<nat>)
    ensures forall k :: 0 <= k < |r| ==> r[k] < n
  {
    if n == 0 then []
    else if revents(n - 1).any then Active(revents, n - 1) + [n - 1]
    else Active(revents, n - 1)
  }

  /** They are listed in ascending order, so each once, and none is missing. */
  lemma {:induction false} ActiveIsExact(revents: nat -> Revents, n: nat)
    ensures Ascending(Active(revents, n))
    ensures forall i: nat :: i in Active(revents, n) <==> i < n && revents(i).any
  {
    if n > 0 {
      ActiveIsExact(revents, n - 1);
    }
  }

  /** The entries to be served: poll(2) answers how many report something, -1 meaning no limit. */
  function Due(kernel: KernelAnswer, n: nat): seq<nat> {
    var active := Active(kernel.revents, n);
    if 0 <= kernel.events < |active| then active[..kernel.events] else active
  }

  lemma {:induction false} ActivePrefix(revents: nat -> Revents, m: nat, n: nat)
    requires m <= n
    ensures Active(revents, m) <= Active(revents, n)
    decreases n - m
  {
    if m < n {
      ActivePrefix(revents, m, n - 1);
    }
  }

  lemma DuePrefix(kernel: KernelAnswer, m: nat, n: nat)
    requires m <= n
    ensures kernel.events < 0 || |Active(kernel.revents, m)| <= kernel.events ==>
              Active(kernel.revents, m) <= Due(kernel, n)
    ensures m == n && (kernel.events < 0 || |Active(kernel.revents, m)| <= kernel.events) ==>
              Active(kernel.revents, m) == Due(kernel, n)
    ensures kernel.events == |Active(kernel.revents, m)| ==> Active(kernel.revents, m) == Due(kernel, n)
  {
    ActivePrefix(kernel.revents, m, n);
  }

  lemma DestroyedOnce(before: seq<Stream>, left: seq<Stream>, ever: set<Stream>)
    requires NoDup(before) && Elems(before) !! Elems(left) && ever == Elems(left) + Elems(before)
    ensures forall s :: s in before + left <==> s in ever
    ensures (forall s :: s in ever ==> multiset(before + left)[s] == 1)
       <==> Twice(left) == {}
  {
    assert forall s :: multiset(before + left)[s] == multiset(before)[s] + multiset(left)[s];
    var repeated := Twice(left);
    if s :| s in repeated {
      assert s in ever && multiset(before + left)[s] > 1;
    }
    if repeated == {} {
      forall s | s in ever
        ensures multiset(before + left)[s] == 1
      {
        assert s !in repeated;
        assert s in before || s in left;
      }
    }
  }
}
