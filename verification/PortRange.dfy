/** Looking for a free port in a range (lib/stream.cc, listen_ipv4_range). */
module PortRange {
  /** What binding and listening on one port comes to. */
  datatype Attempt = Listening | Failed(errno: int)

  datatype Outcome = Bound(port: int) | Rethrown(errno: int)

  const EADDRINUSE := 98

  /** The k-th port tried: the ports from the start upwards, then those from the bottom of the range. */
  function Turn(portMin: int, portMax: int, start: int, k: nat): int
    requires portMin <= start <= portMax
  {
    if start + k <= portMax then start + k else start + k - (portMax - portMin + 1)
  }

  ghost predicate Distinct(s: seq<int>) {
    forall i, j :: 0 <= i < j < |s| ==> s[i] != s[j]
  }

  /** Every port of the range has its turn exactly once. */
  lemma TurnsCoverOnce(portMin: int, portMax: int, start: int, port: int) returns (turn: nat)
    requires portMin <= start <= portMax && portMin <= port <= portMax
    ensures turn <= portMax - portMin && Turn(portMin, portMax, start, turn) == port
    ensures forall k: nat :: k <= portMax - portMin && k != turn ==> Turn(portMin, portMax, start, k) != port
  {
    turn := if port >= start then port - start else port - start + (portMax - portMin + 1);
  }

  /** The search; start is the port that rand() has picked in the range. */
  method ListenRange(portMin: int, portMax: int, start: int, attempt: int -> Attempt)
    returns (outcome: Outcome, tried: seq<int>)
    requires 0 <= portMin <= start <= portMax < 0x1_0000
    // the ports are tried in turn, each at most once
    ensures 1 <= |tried| <= portMax - portMin + 1
    ensures Distinct(tried) && forall k :: 0 <= k < |tried| ==> portMin <= tried[k] <= portMax
    ensures forall k :: 0 <= k < |tried| ==> tried[k] == Turn(portMin, portMax, start, k)
    // all but the last one tried are in use
    ensures forall k :: 0 <= k < |tried| - 1 ==> attempt(tried[k]) == Failed(EADDRINUSE)
    // the last one decides
    ensures outcome.Bound? ==> outcome.port == tried[|tried| - 1] && attempt(outcome.port).Listening?
    ensures outcome.Rethrown? ==> attempt(tried[|tried| - 1]) == Failed(outcome.errno)
    // giving up because ports are in use happens exactly when all of them are
    ensures outcome == Rethrown(EADDRINUSE)
       <==> forall port :: portMin <= port <= portMax ==> attempt(port) == Failed(EADDRINUSE)
    ensures outcome == Rethrown(EADDRINUSE) ==> |tried| == portMax - portMin + 1
  {
    var n := portMax - portMin + 1;
    var tries := n;
    var port := start;
    tried := [];
    while tries >= 0
      invariant 1 <= tries <= n && |tried| == n - tries
      invariant port == Turn(portMin, portMax, start, |tried|)
      invariant forall k :: 0 <= k < |tried| ==> tried[k] == Turn(portMin, portMax, start, k)
      invariant forall k :: 0 <= k < |tried| ==> attempt(tried[k]) == Failed(EADDRINUSE)
    {
      tried := tried + [port];
      match attempt(port)
      case Listening =>
        return Bound(port), tried;
      case Failed(errno) =>
        if errno != EADDRINUSE || tries == 1 {
          if errno == EADDRINUSE {
            AllTried(portMin, portMax, start, tried);
            forall p | portMin <= p <= portMax
              ensures attempt(p) == Failed(EADDRINUSE)
            {
              assert p in tried;
            }
          }
          return Rethrown(errno), tried;
        }
        port := port + 1;
        if port > portMax {
          port := portMin;
        }
        tries := tries - 1;
    }
    assert false; // the loop is left by a return only
  }

  lemma AllTried(portMin: int, portMax: int, start: int, tried: seq<int>)
    requires portMin <= start <= portMax && |tried| == portMax - portMin + 1
    requires forall k :: 0 <= k < |tried| ==> tried[k] == Turn(portMin, portMax, start, k)
    ensures forall port :: portMin <= port <= portMax ==> port in tried
  {
    forall port | portMin <= port <= portMax
      ensures port in tried
    {
      var turn := TurnsCoverOnce(portMin, portMax, start, port);
      assert tried[turn] == port;
    }
  }
}
