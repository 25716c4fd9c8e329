/** The transfer engine (lib/sendfile.cc, lib/iocontextxfer.hh): bytes go from one stream to another by the
    kernel's sendfile or, when that fails, through a buffer. */
module Transfers {
  import opened Bytes

  const BUFFER_SIZE: nat := 0x100_0000
  const SENDFILE_MAX: nat := 0xffff_ffff

  /** What the operating system makes of a call: not now (-1), go ahead with up to n bytes, or an error. */
  datatype Choice = Wait | Go(n: nat) | Fail

  function Min(a: nat, b: nat): nat {
    if a < b then a else b
  }

  /** How much of what is left a read or sendfile takes: at least one byte, if there is any. */
  function Piece(choice: Choice, max: nat, left: nat): nat {
    if !choice.Go? then 0 else Min(if choice.n == 0 then 1 else choice.n, Min(max, left))
  }

  /** Does a write leave nothing of so many bytes? */
  predicate TakesAll(write: Choice, n: nat) {
    n == 0 || (write.Go? && write.n >= n)
  }

  /** A round goes over the kernel path, or first drains what waits in the buffer and then reads, books and
      writes. It finishes when that finds the source at its end. */
  predicate Finishes(direct: bool, waiting: nat, left: string, env: IoEnv) {
    if direct then env.sys.Go? && left == ""
    else TakesAll(env.write, waiting) && env.accepted && env.read.Go? && left == ""
  }

  /** It ends early when the booking is refused. */
  predicate Refuses(direct: bool, waiting: nat, left: string, env: IoEnv) {
    !env.accepted && if direct then env.sys.Go? && left != "" else TakesAll(env.write, waiting) && !env.read.Fail?
  }

  /** On the buffered path it fails with either stream. */
  predicate Fails(direct: bool, waiting: nat, left: string, env: IoEnv) {
    !direct && ((waiting > 0 && env.write.Fail?)
                || (TakesAll(env.write, waiting)
                    && (env.read.Fail? || (env.accepted && env.read.Go? && left != "" && env.write2.Fail?))))
  }

  /** How many bytes it takes from the source. */
  function Takes(direct: bool, waiting: nat, left: string, env: IoEnv): nat {
    if direct then Piece(env.sys, SENDFILE_MAX, |left|)
    else if TakesAll(env.write, waiting) then Piece(env.read, BUFFER_SIZE, |left|)
    else 0
  }

  /** How many bytes it gives to the sink. */
  function Gives(direct: bool, waiting: nat, left: string, env: IoEnv): nat {
    if direct then Piece(env.sys, SENDFILE_MAX, |left|)
    else if !TakesAll(env.write, waiting) then if env.write.Go? then env.write.n else 0
    else waiting + if env.accepted && env.write2.Go? then Min(env.write2.n, Piece(env.read, BUFFER_SIZE, |left|)) else 0
  }

  /** The two ends of a transfer as far as it sees them. */
  class Stream {
    const isFd: bool
    var ours: bool          // is its consumer the transfer?
    var remaining: string   // what it will still yield before it reports the end
    var received: string    // what has been written to it

    constructor (isFd: bool, remaining: string)
      ensures this.isFd == isFd && this.remaining == remaining && received == "" && ours
    {
      this.isFd, this.remaining, received, ours := isFd, remaining, "", true;
    }
  }

  datatype IoOutcome =
    | Finished        // the source is exhausted and everything delivered
    | More
    | LimitExceeded   // the booking was refused
    | Threw           // a stream failed

  /** What do_io leads to: nothing special, an exception, or the transfer's own destruction. */
  datatype Outcome = Quiet | Raised | Destroy

  class Transfer {
    var input: Stream?
    var output: Stream?
    var buffer: array?<char>
    var len: nat
    var pos: nat
    var total: nat             // what the limit has booked
    var attached: bool         // does a controller wait for the result?
    var reported: seq<bool>    // what the controller has been told
    ghost var consumed: string
    ghost var delivered: string
    ghost var refused: nat          // bytes whose booking was refused
    ghost var refusals: nat         // refused bookings on the buffered path
    ghost var directRefusals: nat   // refused bookings on the kernel path

    predicate HasBuf()
      reads this
    {
      buffer != null
    }

    predicate DataBuffered()
      reads this
    {
      buffer != null && pos < len
    }

    ghost function Buffered(): string
      requires buffer != null ==> len <= buffer.Length
      reads this, buffer
    {
      if DataBuffered() then buffer[pos..len] else ""
    }

    ghost predicate Valid()
      reads this, buffer
    {
      && (buffer != null ==> buffer.Length == BUFFER_SIZE && pos <= len <= BUFFER_SIZE)
      && (input != null ==> input != output)
      // in order, nothing lost, nothing twice
      && delivered + Buffered() == consumed
      // every byte consumed was booked or refused
      && |consumed| == total + refused
      && refused <= BUFFER_SIZE * refusals + SENDFILE_MAX * directRefusals
      // the controller hears at most once
      && |reported| <= 1 && (attached ==> reported == [])
    }

    constructor (input: Stream?, output: Stream?)
      requires input != null ==> input != output
      ensures Valid() && this.input == input && this.output == output && attached && reported == []
      ensures consumed == "" && delivered == "" && !HasBuf() && total == 0
      ensures refused == 0 && refusals == 0 && directRefusals == 0
    {
      this.input, this.output := input, output;
      buffer, len, pos, total := null, 0, 0, 0;
      attached, reported := true, [];
      consumed, delivered, refused, refusals, directRefusals := "", "", 0, 0, 0;
    }

    // --- Sendfile ---

    /** One write of what is buffered; false when the stream throws. given is what the stream took. */
    method WriteOut(choice: Choice) returns (ok: bool, ghost given: string)
      requires Valid() && DataBuffered() && output != null
      modifies `pos, `delivered, output
      ensures Valid() && delivered == old(delivered) + given
      ensures output.received == old(output.received) + given && output.remaining == old(output.remaining)
      ensures |given| == if choice.Go? then Min(choice.n, |old(Buffered())|) else 0
      ensures ok <==> !choice.Fail?
    {
      given := "";
      match choice
      case Wait => return true, given;
      case Fail => return false, given;
      case Go(n) =>
        var ret := Min(n, len - pos);
        var chunk := buffer[pos..pos + ret];
        output.received := output.received + chunk;
        ghost var rest := buffer[pos + ret..len];
        assert buffer[pos..len] == chunk + rest;
        Regroup(delivered, chunk, rest);
        delivered := delivered + chunk;
        pos := pos + ret;
        assert Buffered() == rest;
        return true, chunk;
    }

    /** One read into the empty buffer. ended: the stream has reported its end; failed: it threw otherwise. */
    method ReadIn(choice: Choice) returns (ended: bool, failed: bool)
      requires buffer != null && buffer.Length == BUFFER_SIZE && input != null
      modifies `pos, `len, `consumed, buffer, input
      ensures pos == 0 && len <= BUFFER_SIZE
      ensures consumed == old(consumed) + buffer[..len]
      ensures old(input.remaining) == buffer[..len] + input.remaining
      ensures ended ==> input.remaining == "" && len == 0
      ensures len == Piece(choice, BUFFER_SIZE, |old(input.remaining)|)
      ensures ended <==> choice.Go? && old(input.remaining) == ""
      ensures failed <==> choice.Fail?
      ensures failed ==> len == 0
      ensures input.received == old(input.received)
    {
      pos, len := 0, 0;
      assert buffer[..0] == "";
      match choice
      case Wait => return false, false;
      case Fail => return false, true;
      case Go(n) =>
        if input.remaining == "" {
          return true, false;
        }
        var ret := Min(if n == 0 then 1 else n, Min(BUFFER_SIZE, |input.remaining|));
        var chunk := input.remaining[..ret];
        forall i | 0 <= i < ret {
          buffer[i] := chunk[i];
        }
        input.remaining := input.remaining[ret..];
        len := ret;
        assert buffer[..len] == chunk;
        consumed := consumed + chunk;
        return false, false;
    }

    /** The booking of bytes just moved; false when the limit throws. */
    method LimitXfer(bytes: nat, accepted: bool, ghost direct: bool)
      modifies `total, `refused, `refusals, `directRefusals
      ensures accepted ==>
                && total == old(total) + bytes && refused == old(refused)
                && refusals == old(refusals) && directRefusals == old(directRefusals)
      ensures !accepted ==>
                && total == old(total) && refused == old(refused) + bytes
                && refusals == old(refusals) + (if direct then 0 else 1)
                && directRefusals == old(directRefusals) + (if direct then 1 else 0)
    {
      if !accepted {
        refused := refused + bytes;
        if direct {
          directRefusals := directRefusals + 1;
        } else {
          refusals := refusals + 1;
        }
        return;
      }
      total := total + bytes;
    }

    /** The kernel path: the bytes go from stream to stream. None: sendfile failed and moved nothing.
        A result of 0 means the end of the file. */
    method SystemSendfile(choice: Choice) returns (moved: int)
      requires Valid() && buffer == null && input != null && output != null
      modifies `consumed, `delivered, input, output
      ensures -2 <= moved <= SENDFILE_MAX
      ensures moved == -2 <==> choice.Fail?
      ensures moved == -1 <==> choice.Wait?
      ensures moved == 0 <==> choice.Go? && old(input.remaining) == ""
      ensures delivered == consumed
      ensures moved <= 0 ==> consumed == old(consumed) && input.remaining == old(input.remaining)
      ensures moved > 0 ==>
                && moved == Piece(choice, SENDFILE_MAX, |old(input.remaining)|) <= |old(input.remaining)|
                && consumed == old(consumed) + old(input.remaining)[..moved]
                && input.remaining == old(input.remaining)[moved..]
      ensures moved <= 0 ==> output.received == old(output.received)
      ensures moved > 0 ==> output.received == old(output.received) + old(input.remaining)[..moved]
    {
      match choice
      case Wait => return -1;
      case Fail => return -2;
      case Go(n) =>
        if input.remaining == "" {
          return 0;
        }
        moved := Min(if n == 0 then 1 else n, Min(SENDFILE_MAX, |input.remaining|));
        var chunk := input.remaining[..moved];
        output.received := output.received + chunk;
        input.remaining := input.remaining[moved..];
        consumed, delivered := consumed + chunk, delivered + chunk;
    }

    /** One round of the engine; taken are the bytes consumed by it, given those delivered. */
    method Io(env: IoEnv) returns (outcome: IoOutcome, ghost taken: string, ghost given: string)
      requires Valid() && input != null && output != null
      modifies `buffer, `pos, `len, `total, `consumed, `delivered, `refused, `refusals, `directRefusals
      modifies buffer, input, output
      ensures Valid() && (buffer == old(buffer) || fresh(buffer))
      // bytes move from the front of the source to the end of what was consumed and delivered
      ensures consumed == old(consumed) + taken && old(input.remaining) == taken + input.remaining
      ensures delivered == old(delivered) + given && output.received == old(output.received) + given
      // done means exhausted and delivered
      ensures outcome.Finished? ==> input.remaining == "" && delivered == consumed && !DataBuffered()
      // the kernel path is taken until it fails
      ensures var left, waiting := old(input.remaining), |old(Buffered())|;
              var direct := !old(HasBuf()) && input.isFd && output.isFd && !env.sys.Fail?;
              && (HasBuf() <==> !direct)
              && (outcome.Finished? <==> Finishes(direct, waiting, left, env))
              && (outcome.LimitExceeded? <==> Refuses(direct, waiting, left, env))
              && (outcome.Threw? <==> Fails(direct, waiting, left, env))
              && |taken| == Takes(direct, waiting, left, env) && |given| == Gives(direct, waiting, left, env)
      ensures total == old(total) + if env.accepted then |taken| else 0
      ensures outcome.LimitExceeded? ==> refusals + directRefusals == old(refusals + directRefusals) + 1
      ensures !outcome.LimitExceeded? ==>
                refused == old(refused) && refusals == old(refusals) && directRefusals == old(directRefusals)
      ensures old(HasBuf()) || !input.isFd || !output.isFd ==> directRefusals == old(directRefusals)
    {
      if buffer == null && input.isFd && output.isFd {
        var moved;
        moved, outcome, taken := DirectIo(env.sys, env.accepted);
        given := taken;
        if moved {
          return;
        }
      }
      outcome, taken, given := OverBuffer(env);
    }

    /** The buffer is made once and then stays. */
    method OverBuffer(env: IoEnv) returns (outcome: IoOutcome, ghost taken: string, ghost given: string)
      requires Valid() && input != null && output != null
      modifies `buffer, `pos, `len, `total, `consumed, `delivered, `refused, `refusals, `directRefusals
      modifies buffer, input, output
      ensures Valid() && HasBuf() && (buffer == old(buffer) || fresh(buffer))
      ensures consumed == old(consumed) + taken && old(input.remaining) == taken + input.remaining
      ensures delivered == old(delivered) + given && output.received == old(output.received) + given
      ensures outcome.Finished? ==> input.remaining == "" && delivered == consumed && !DataBuffered()
      ensures var left, waiting := old(input.remaining), |old(Buffered())|;
              && (outcome.Finished? <==> Finishes(false, waiting, left, env))
              && (outcome.LimitExceeded? <==> Refuses(false, waiting, left, env))
              && (outcome.Threw? <==> Fails(false, waiting, left, env))
              && |taken| == Takes(false, waiting, left, env) && |given| == Gives(false, waiting, left, env)
      ensures total == old(total) + if env.accepted then |taken| else 0
      ensures outcome.LimitExceeded? ==> refusals == old(refusals) + 1 && directRefusals == old(directRefusals)
      ensures !outcome.LimitExceeded? ==>
                refused == old(refused) && refusals == old(refusals) && directRefusals == old(directRefusals)
    {
      if buffer == null {
        NewBuf();
      }
      outcome, taken, given := BufferedIo(env);
    }

    method NewBuf()
      requires Valid() && buffer == null
      modifies `buffer, `len, `pos
      ensures Valid() && HasBuf() && fresh(buffer) && !DataBuffered()
    {
      buffer := new char[BUFFER_SIZE];
      len, pos := 0, 0;
    }

    /** The part of a round that uses the kernel's sendfile; false when sendfile failed and moved nothing. */
    method DirectIo(sys: Choice, accepted: bool) returns (ok: bool, outcome: IoOutcome, ghost taken: string)
      requires Valid() && !HasBuf() && input != null && output != null
      modifies `total, `consumed, `delivered, `refused, `refusals, `directRefusals, input, output
      ensures Valid()
      ensures consumed == old(consumed) + taken && old(input.remaining) == taken + input.remaining
      ensures delivered == old(delivered) + taken && output.received == old(output.received) + taken
      ensures (ok <==> !sys.Fail?) && |taken| == Piece(sys, SENDFILE_MAX, |old(input.remaining)|)
      ensures ok ==>
                && !outcome.Threw? && (outcome.Finished? <==> sys.Go? && old(input.remaining) == "")
                && (outcome.LimitExceeded? <==> !accepted && sys.Go? && old(input.remaining) != "")
      ensures total == old(total) + if accepted then |taken| else 0
      ensures ok && outcome.LimitExceeded? ==> directRefusals == old(directRefusals) + 1 && refusals == old(refusals)
      ensures !ok || !outcome.LimitExceeded? ==>
                refused == old(refused) && refusals == old(refusals) && directRefusals == old(directRefusals)
      ensures !ok ==> consumed == old(consumed) && delivered == old(delivered)
      ensures !ok ==> input.remaining == old(input.remaining) && output.received == old(output.received)
    {
      taken := "";
      ghost var before := input.remaining;
      var ret := SystemSendfile(sys);
      if ret == 0 {
        return true, Finished, "";
      }
      if ret > 0 {
        taken := before[..ret];
        LimitXfer(ret, accepted, true);
        return true, if accepted then More else LimitExceeded, taken;
      }
      return ret == -1, More, "";
    }

    /** The part of a round that uses the buffer. */
    method BufferedIo(env: IoEnv) returns (outcome: IoOutcome, ghost taken: string, ghost given: string)
      requires Valid() && HasBuf() && input != null && output != null
      modifies `pos, `len, `total, `consumed, `delivered, `refused, `refusals, `directRefusals, buffer, input, output
      ensures Valid()
      ensures consumed == old(consumed) + taken && old(input.remaining) == taken + input.remaining
      ensures delivered == old(delivered) + given && output.received == old(output.received) + given
      ensures outcome.Finished? ==> input.remaining == "" && delivered == consumed && !DataBuffered()
      ensures var left, waiting := old(input.remaining), |old(Buffered())|;
              && (outcome.Finished? <==> Finishes(false, waiting, left, env))
              && (outcome.LimitExceeded? <==> Refuses(false, waiting, left, env))
              && (outcome.Threw? <==> Fails(false, waiting, left, env))
              && |taken| == Takes(false, waiting, left, env) && |given| == Gives(false, waiting, left, env)
      ensures total == old(total) + if env.accepted then |taken| else 0
      ensures outcome.LimitExceeded? ==> refusals == old(refusals) + 1 && directRefusals == old(directRefusals)
      ensures !outcome.LimitExceeded? ==>
                refused == old(refused) && refusals == old(refusals) && directRefusals == old(directRefusals)
    {
      taken, given := "", "";
      ghost var first := "";
      if DataBuffered() {
        var ok: bool;
        ok, first := WriteOut(env.write);
        if !ok {
          return Threw, taken, first;
        }
        if DataBuffered() {
          return More, taken, first;
        }
      }
      ghost var second;
      outcome, taken, second := RefillIo(env.read, env.write2, env.accepted);
      given := first + second;
      Regroup(old(delivered), first, second);
      Regroup(old(output.received), first, second);
    }

    /** The rest of a round: the buffer is empty, so read, book what was read and write it. */
    method RefillIo(read: Choice, write: Choice, accepted: bool)
      returns (outcome: IoOutcome, ghost taken: string, ghost given: string)
      requires Valid() && HasBuf() && !DataBuffered() && input != null && output != null
      modifies `pos, `len, `total, `consumed, `delivered, `refused, `refusals, `directRefusals, buffer, input, output
      ensures Valid()
      ensures consumed == old(consumed) + taken && old(input.remaining) == taken + input.remaining
      ensures delivered == old(delivered) + given && output.received == old(output.received) + given
      ensures outcome.Finished? ==> input.remaining == "" && delivered == consumed && !DataBuffered()
      ensures outcome.Finished? <==> accepted && read.Go? && old(input.remaining) == ""
      ensures outcome.LimitExceeded? <==> !accepted && !read.Fail?
      ensures outcome.Threw? <==> read.Fail? || (accepted && read.Go? && old(input.remaining) != "" && write.Fail?)
      ensures |taken| == Piece(read, BUFFER_SIZE, |old(input.remaining)|)
      ensures |given| == if accepted && write.Go? then Min(write.n, |taken|) else 0
      ensures total == old(total) + if accepted then |taken| else 0
      ensures outcome.LimitExceeded? ==> refusals == old(refusals) + 1 && directRefusals == old(directRefusals)
      ensures !outcome.LimitExceeded? ==>
                refused == old(refused) && refusals == old(refusals) && directRefusals == old(directRefusals)
    {
      given := "";
      var ended, failed := ReadIn(read);
      taken := buffer[..len];
      assert Buffered() == taken;
      if failed {
        return Threw, taken, given;
      }
      LimitXfer(len, accepted, false);
      if !accepted {
        return LimitExceeded, taken, given;
      }
      if DataBuffered() {
        var ok: bool;
        ok, given := WriteOut(write);
        if !ok {
          return Threw, taken, given;
        }
      }
      return if ended && !DataBuffered() then Finished else More, taken, given;
    }

    // --- IOContextXfer ---

    /** The controller hears of the end of the transfer, once. */
    method Notify(happy: bool)
      requires |reported| <= 1 && (attached ==> reported == [])
      modifies `attached, `reported
      ensures !attached && |reported| <= 1
      ensures reported == if old(attached) then [happy] else old(reported)
    {
      if !attached {
        return;
      }
      attached := false;
      reported := reported + [happy];
    }

    method Detach()
      requires Valid()
      modifies `attached
      ensures Valid() && !attached
    {
      attached := false;
    }

    /** The destructor: both streams lose their consumer, and a controller that has heard nothing hears of failure. */
    method Destruct()
      requires Valid()
      modifies `attached, `reported, input, output
      ensures !attached && reported == if old(attached) then [false] else old(reported)
      ensures (input != null ==> !input.ours) && (output != null ==> !output.ours)
      ensures Valid()
      ensures input != null ==> input.remaining == old(input.remaining) && input.received == old(input.received)
      ensures output != null ==> output.remaining == old(output.remaining) && output.received == old(output.received)
    {
      if output != null && output.ours {
        output.ours := false;
      }
      if input != null && input.ours {
        input.ours := false;
      }
      Notify(false);
    }

    /** Buffered bytes always have somewhere to go. */
    predicate Drainable()
      reads this
    {
      DataBuffered() ==> output != null
    }

    /** One turn. The transfer reports success and asks for its destruction exactly when nothing is left:
        the source is exhausted, or gone, and everything consumed is delivered. */
    method DoIo(env: IoEnv) returns (outcome: Outcome, ghost taken: string, ghost given: string)
      requires Valid() && Drainable()
      modifies this, buffer, input, output
      ensures Valid() && Drainable() && input == old(input) && output == old(output)
      ensures buffer == old(buffer) || fresh(buffer)
      ensures consumed == old(consumed) + taken && delivered == old(delivered) + given
      ensures if input == null then taken == "" else old(input.remaining) == taken + input.remaining
      ensures if output == null then given == "" else output.received == old(output.received) + given
      ensures outcome.Destroy? ==>
                && delivered == consumed && (input != null ==> input.remaining == "")
                && !attached && reported == if old(attached) then [true] else old(reported)
      ensures !outcome.Destroy? ==> attached == old(attached) && reported == old(reported)
      ensures input == null && old(DataBuffered()) ==>
                && (outcome.Destroy? <==> TakesAll(env.write, |old(Buffered())|)) && (outcome.Destroy? <==> !DataBuffered())
                && (outcome.Raised? <==> env.write.Fail?)
      ensures input == null && !old(DataBuffered()) ==> outcome.Quiet? && !DataBuffered()
      ensures input != null && output == null ==> outcome.Quiet? && taken == ""
      ensures input != null && output != null ==>
                var left, waiting := old(input.remaining), |old(Buffered())|;
                var direct := !old(HasBuf()) && input.isFd && output.isFd && !env.sys.Fail?;
                && (HasBuf() <==> !direct)
                && (outcome.Destroy? <==> Finishes(direct, waiting, left, env))
                && (outcome.Raised? <==> Refuses(direct, waiting, left, env) || Fails(direct, waiting, left, env))
                && |taken| == Takes(direct, waiting, left, env) && |given| == Gives(direct, waiting, left, env)
      ensures total == old(total) + if env.accepted then |taken| else 0
      ensures input == null || output == null || !input.isFd || !output.isFd ==> directRefusals == old(directRefusals)
    {
      taken, given := "", "";
      if input == null && DataBuffered() {
        var ok;
        ok, given := WriteOut(env.write);
        if !ok {
          return Raised, taken, given;
        }
        if !DataBuffered() {
          Notify(true);
          return Destroy, taken, given;
        }
        return Quiet, taken, given;
      }
      if input == null || output == null {
        return Quiet, taken, given;
      }
      var result;
      result, taken, given := Io(env);
      if result.Finished? {
        Notify(true);
        return Destroy, taken, given;
      }
      return if result.More? then Quiet else Raised, taken, given;
    }

    /** A stream that has no role yet takes the free one, unless it already has the other. */
    method Adopt(stream: Stream, asInput: bool)
      requires Valid() && Drainable()
      modifies `input, `output
      ensures Valid() && Drainable()
      ensures input == if asInput && old(input) == null && output != stream then stream else old(input)
      ensures output == if !asInput && old(output) == null && input != stream then stream else old(output)
    {
      if asInput {
        if input == null && output != stream {
          input := stream;
        }
      } else {
        if output == null && input != stream {
          output := stream;
        }
      }
    }

    method WantWrite(stream: Stream) returns (want: bool)
      requires Valid() && Drainable()
      modifies `input, `output
      ensures Valid() && Drainable() && input == old(input)
      ensures output == if old(output) == null && input != stream then stream else old(output)
      ensures want <==> output == stream && (HasBuf() ==> DataBuffered())
    {
      Adopt(stream, false);
      if HasBuf() && !DataBuffered() {
        return false;
      }
      return stream == output;
    }

    method WantRead(stream: Stream) returns (want: bool)
      requires Valid() && Drainable()
      modifies `input, `output
      ensures Valid() && Drainable() && output == old(output)
      ensures input == if old(input) == null && output != stream then stream else old(input)
      ensures want <==> input == stream && HasBuf() && !DataBuffered()
    {
      Adopt(stream, true);
      if DataBuffered() {
        return false;
      }
      if stream != input {
        return false;
      }
      return HasBuf();
    }

    /** A stream is being destroyed. The transfer lives on only when it was the source and bytes are buffered. */
    method StreamHungup(stream: Stream) returns (dead: bool)
      requires Valid() && Drainable()
      modifies `input, `output, input, output
      ensures Valid() && consumed == old(consumed) && delivered == old(delivered)
      ensures attached == old(attached) && reported == old(reported)
      ensures !dead <==> stream == old(input) && old(output) != null && DataBuffered()
      ensures !dead ==> Drainable() && input == null && output == old(output)
      ensures dead ==> input == null && output == null
      ensures old(input) != null ==> old(input).remaining == old(input.remaining) && old(input).received == old(input.received)
      ensures old(output) != null ==> old(output).remaining == old(output.remaining) && old(output).received == old(output.received)
    {
      if input != null && input.ours {
        input.ours := false;
      }
      if output != null && stream == input && stream != output {
        if DataBuffered() {
          input := null;
          return false;
        }
      }
      if output != null && output.ours {
        output.ours := false;
      }
      output := null;
      input := null;
      return true;
    }
  }

  /** What the streams and the limit do during one turn. */
  datatype IoEnv = IoEnv(sys: Choice, write: Choice, read: Choice, write2: Choice, accepted: bool)

  // --- whole runs ---

  /** The two streams call back in any order and may hang up at any time, and the controller may leave. */
  datatype Event = SourceReady(env: IoEnv) | SinkReady(env: IoEnv) | SourceGone | SinkGone | ControllerGone

  /** How far a run has come: the source has hung up, the transfer has been destroyed, because it had completed
      or not, and the controller has left before that. */
  datatype Progress = Progress(sourceGone: bool, ended: bool, completed: bool, controllerGone: bool)

  /** Streams that go ahead and a limit that is not reached. */
  predicate Helps(env: IoEnv) {
    env.accepted && !env.sys.Wait? && env.read.Go? && env.write2.Go? && env.write2.n >= BUFFER_SIZE
  }

  /** The stream that joins calls back, and all goes ahead. */
  predicate Helping(events: seq<Event>, download: bool) {
    forall i :: 0 <= i < |events| ==>
      if download then events[i].SinkReady? && Helps(events[i].env) else events[i].SourceReady? && Helps(events[i].env)
  }

  /** A run: a download starts with its source set, an upload with its sink, and the other stream joins at
      its first event. At every moment what has been received, what is buffered and what the source still
      holds are, in this order, the whole source; a transfer that completed with its source alive has
      delivered all of it, one that completed after a hangup all that was read. The controller hears once,
      when the transfer ends, whether it completed. What was received exceeds the booked total by at most one
      buffer per refused booking, and by at most one sendfile call per booking refused on the kernel path,
      which is taken only between two file descriptors. When all goes ahead, one event more than the source
      has bytes is enough to complete. */
  method Run(source: string, sourceFd: bool, sinkFd: bool, download: bool, events: seq<Event>)
    returns (received: string, buffered: string, left: string, reported: seq<bool>, p: Progress, total: nat,
             ghost refusals: nat, ghost directRefusals: nat)
    ensures received + buffered + left == source
    ensures p.completed ==> p.ended && buffered == "" && (!p.sourceGone ==> received == source)
    ensures reported == if p.ended && !p.controllerGone then [p.completed] else []
    ensures |received| <= total + BUFFER_SIZE * refusals + SENDFILE_MAX * directRefusals
    ensures !sourceFd || !sinkFd ==> directRefusals == 0
    ensures refusals == 0 && directRefusals == 0 && buffered == "" ==> |received| == total
    ensures Helping(events, download) && |events| > |source| ==> p.completed && received == source && reported == [true]
  {
    var from := new Stream(sourceFd, source);
    var to := new Stream(sinkFd, "");
    var t := new Transfer(if download then from else null, if download then null else to);
    p := Progress(false, false, false, false);
    var i := 0;
    assert t.Buffered() == "";
    while i < |events| && !p.ended
      invariant 0 <= i <= |events|
      invariant fresh(t) && fresh(from) && fresh(to) && (t.buffer != null ==> fresh(t.buffer))
      invariant if p.ended then Ended(t, from, to, p, source) else Running(t, from, to, p, source)
      invariant Helping(events, download) ==> GoingAhead(t, from, to, p, download, |source| - i)
      decreases |events| - i
    {
      assert Helping(events, download) ==> Helping([events[i]], download);
      p := Happen(t, from, to, events[i], p, source, download, |source| - i);
      i := i + 1;
    }
    received, left, reported := to.received, from.remaining, t.reported;
    buffered := if t.DataBuffered() then t.buffer[t.pos..t.len] else "";
    total, refusals, directRefusals := t.total, t.refusals, t.directRefusals;
  }

  /** Received, buffered and unread bytes make up the source. */
  ghost predicate Conserved(t: Transfer, from: Stream, to: Stream, source: string)
    reads t, t.buffer, from, to
  {
    && t.Valid() && to.received == t.delivered && t.consumed + from.remaining == source
    && (!from.isFd || !to.isFd ==> t.directRefusals == 0)
  }

  /** What a run keeps while the transfer lives. */
  ghost predicate Running(t: Transfer, from: Stream, to: Stream, p: Progress, source: string)
    reads t, t.buffer, from, to
  {
    && Conserved(t, from, to, source) && t.Drainable()
    && from != to && t.input in {null, from} && t.output in {null, to}
    && (p.sourceGone ==> t.input == null)
    && (!p.sourceGone && t.input == null ==> !t.DataBuffered())
    && !p.ended && !p.completed && t.reported == [] && (t.attached <==> !p.controllerGone)
  }

  /** What holds when it has been destroyed. */
  ghost predicate Ended(t: Transfer, from: Stream, to: Stream, p: Progress, source: string)
    reads t, t.buffer, from, to
  {
    && Conserved(t, from, to, source)
    && (p.completed ==> t.Buffered() == "" && (!p.sourceGone ==> from.remaining == ""))
    && t.reported == if p.controllerGone then [] else [p.completed]
  }

  /** A run in which all goes ahead is complete, or has no more than so many bytes left. */
  ghost predicate GoingAhead(t: Transfer, from: Stream, to: Stream, p: Progress, download: bool, left: int)
    reads t, t.buffer, from, to
  {
    && !p.sourceGone && !p.controllerGone && (p.ended ==> p.completed)
    && (!p.ended ==> t.Valid() && t.Buffered() == "" && |from.remaining| <= left
                     && if download then t.input == from else t.output == to)
  }

  /** One event of a run; a transfer that asks for its destruction, or loses a stream it needs, is destroyed. */
  method Happen(t: Transfer, from: Stream, to: Stream, event: Event, before: Progress, ghost source: string,
                ghost download: bool, ghost left: int)
    returns (p: Progress)
    requires Running(t, from, to, before, source)
    modifies t, t.buffer, from, to
    ensures if p.ended then Ended(t, from, to, p, source) else Running(t, from, to, p, source)
    ensures t.buffer == old(t.buffer) || fresh(t.buffer)
    ensures p.completed ==> event.SourceReady? || event.SinkReady?
    ensures event.SinkGone? ==> p.ended
    ensures event.SourceGone? ==> p.sourceGone && (!before.sourceGone && !old(t.DataBuffered()) ==> p.ended)
    ensures p.controllerGone <==> before.controllerGone || event.ControllerGone?
    ensures Helping([event], download) && old(GoingAhead(t, from, to, before, download, left)) ==>
              GoingAhead(t, from, to, p, download, left - 1)
  {
    p := before;
    assert [event][0] == event;
    match event {
      case SourceReady(env) =>
        if !p.sourceGone {
          p := Turn(t, from, to, true, env, p, source, left);
        }
      case SinkReady(env) =>
        p := Turn(t, from, to, false, env, p, source, left);
      case SourceGone =>
        if !p.sourceGone {
          p := Loses(t, from, to, true, p, source);
        }
      case SinkGone =>
        p := Loses(t, from, to, false, p, source);
      case ControllerGone =>
        t.Detach();
        p := p.(controllerGone := true);
    }
  }

  /** A stream is ready. */
  method Turn(t: Transfer, from: Stream, to: Stream, sourceReady: bool, env: IoEnv, before: Progress, ghost source: string,
              ghost left: int)
    returns (p: Progress)
    requires Running(t, from, to, before, source) && (sourceReady ==> !before.sourceGone)
    modifies t, t.buffer, from, to
    ensures if p.ended then Ended(t, from, to, p, source) else Running(t, from, to, p, source)
    ensures t.buffer == old(t.buffer) || fresh(t.buffer)
    ensures p == before.(ended := p.completed, completed := p.completed)
    ensures Helps(env) && old(GoingAhead(t, from, to, before, !sourceReady, left)) ==>
              GoingAhead(t, from, to, p, !sourceReady, left - 1)
  {
    t.Adopt(if sourceReady then from else to, sourceReady);
    var outcome := IoTurn(t, from, to, env, before, source);
    p := before;
    if outcome.Destroy? {
      t.Destruct();
      p := p.(ended := true, completed := true);
    }
  }

  /** One round of the transfer. */
  method IoTurn(t: Transfer, from: Stream, to: Stream, env: IoEnv, ghost p: Progress, ghost source: string)
    returns (outcome: Outcome)
    requires Running(t, from, to, p, source)
    modifies t, t.buffer, from, to
    ensures t.buffer == old(t.buffer) || fresh(t.buffer)
    ensures t.input == old(t.input) && t.output == old(t.output)
    ensures Conserved(t, from, to, source) && t.Drainable()
    ensures !outcome.Destroy? ==> Running(t, from, to, p, source)
    ensures outcome.Destroy? ==>
              && t.Buffered() == "" && (!p.sourceGone ==> from.remaining == "")
              && !t.attached && t.reported == if p.controllerGone then [] else [true]
    ensures Helps(env) && t.input == from && t.output == to && old(t.Buffered()) == "" ==>
              && (outcome.Destroy? <==> old(from.remaining) == "")
              && (!outcome.Destroy? ==> t.Buffered() == "" && |from.remaining| < |old(from.remaining)|)
  {
    ghost var taken, given;
    outcome, taken, given := t.DoIo(env);
    Regroup(old(t.consumed), taken, from.remaining);
  }

  /** A stream is being destroyed. */
  method Loses(t: Transfer, from: Stream, to: Stream, fromSource: bool, before: Progress, ghost source: string)
    returns (p: Progress)
    requires Running(t, from, to, before, source) && (fromSource ==> !before.sourceGone)
    modifies t, from, to
    ensures if p.ended then Ended(t, from, to, p, source) else Running(t, from, to, p, source)
    ensures t.buffer == old(t.buffer) && !p.completed && p.controllerGone == before.controllerGone
    ensures p.sourceGone <==> before.sourceGone || fromSource
    ensures !p.ended ==> fromSource && old(t.DataBuffered())
  {
    var dead := t.StreamHungup(if fromSource then from else to);
    p := before.(sourceGone := before.sourceGone || fromSource);
    if dead {
      t.Destruct();
      p := p.(ended := true);
    }
  }
}
