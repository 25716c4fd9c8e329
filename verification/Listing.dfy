/** Directory listings written entry by entry (lib/iocontextlist.hh, src/ftplist.hh, src/httplist.cc). */
module Listings {
  import opened FileListers
  import opened Bytes
  import Lines

  /** The text of the entries of a list of names. */
  function Entries(entry: string -> string, names: seq<string>): string {
    if names == [] then "" else entry(names[0]) + Entries(entry, names[1..])
  }

  /** An FTP listing has neither header nor footer; an HTTP listing has both. The text of an entry is a
      parameter: for FTP it is FtpEntry, for HTTP it also depends on the file system. */
  datatype Format = Ftp(entry: string -> string) | Http(entry: string -> string, header: string, footer: string)

  function FtpEntry(name: string): string {
    name + "\r\n"
  }

  function Whole(format: Format, names: seq<string>): string {
    match format
    case Ftp(entry) => Entries(entry, names)
    case Http(entry, header, footer) => header + Entries(entry, names) + footer
  }

  class ListWriter {
    const format: Format
    const lister: Lister
    var buf: string
    var writeBufSet: bool
    var writeBufPos: nat
    var finished: bool     // an HTTP listing has queued its footer
    var completed: bool    // the controller has been told and the listing is to be destroyed
    var sent: string       // what the stream has taken so far
    ghost const whole: string

    predicate WriteBufEmpty()
      reads this
    {
      !writeBufSet || |buf| == 0 || writeBufPos >= |buf|
    }

    ghost function Unsent(): string
      reads this
    {
      if WriteBufEmpty() then "" else buf[writeBufPos..]
    }

    /** What is to follow the buffered text. */
    ghost function Rest(): string
      requires lister.Valid()
      reads `finished, lister
    {
      Entries(format.entry, lister.Remaining()) + if format.Http? && !finished then format.footer else ""
    }

    /** Everything still to be sent. */
    ghost function Pending(): string
      requires lister.Valid()
      reads this, lister
    {
      Unsent() + Rest()
    }

    /** How many more times the buffer is to be filled. */
    ghost function Fillings(): nat
      requires lister.Valid()
      reads this, lister
    {
      |lister.Remaining()| + if format.Http? && !finished then 1 else 0
    }

    /** Nothing is skipped or repeated. */
    ghost predicate Valid()
      reads this, lister
    {
      && lister.Valid() && |buf| < UNSIGNED_LIMIT && sent + Pending() == whole
      && (completed ==> WriteBufEmpty() && lister.Last() && (format.Http? ==> finished))
    }

    constructor (format: Format, lister: Lister)
      requires lister.Valid() && (format.Http? ==> |format.header| < UNSIGNED_LIMIT)
      ensures Valid() && !completed && sent == "" && whole == Whole(format, lister.Remaining())
      ensures this.format == format && this.lister == lister
    {
      this.format, this.lister := format, lister;
      buf := if format.Http? then format.header else "";
      writeBufSet, writeBufPos := format.Http?, 0;
      finished, completed, sent := false, false, "";
      whole := Whole(format, lister.Remaining());
      new;
      assert buf[0..] == buf;
      assert Pending() == whole;
    }

    method SetEntry(s: string)
      modifies `buf, `writeBufSet, `writeBufPos
      ensures buf == s && writeBufSet && writeBufPos == 0 && Unsent() == s
    {
      buf, writeBufSet, writeBufPos := s, true, 0;
      assert buf[0..] == buf;
    }

    /** The listing has nothing buffered and is still alive. */
    ghost predicate Drained()
      reads this, lister
    {
      lister.Valid() && |buf| < UNSIGNED_LIMIT && WriteBufEmpty() && !completed
    }

    /** What the listing does when nothing is left in the buffer: next entry, or footer, or completion. */
    method FinishedWriting()
      requires Drained() && SmallEntries(format)
      modifies this, lister
      ensures lister.Valid() && |buf| < UNSIGNED_LIMIT && sent == old(sent) && Pending() == old(Pending())
      ensures completed ==> WriteBufEmpty() && lister.Last() && (format.Http? ==> finished)
      ensures (completed <==> old(Fillings()) == 0) && (!completed ==> Fillings() == old(Fillings()) - 1)
    {
      if lister.Last() {
        FinishedListing();
        return;
      }
      assert lister.Remaining() == [lister.Name()] + lister.Remaining()[1..];
      ghost var tail := if format.Http? && !finished then format.footer else "";
      ghost var rest := Entries(format.entry, lister.Remaining()[1..]);
      assert old(Pending()) == format.entry(lister.Name()) + (rest + tail);
      SetEntry(format.entry(lister.Name()));
      lister.Next();
    }

    method FinishedListing()
      requires Drained() && lister.Last() && SmallEntries(format)
      modifies this
      ensures |buf| < UNSIGNED_LIMIT && sent == old(sent) && Pending() == old(Pending())
      ensures completed ==> WriteBufEmpty() && (format.Http? ==> finished)
      ensures (completed <==> old(Fillings()) == 0) && (!completed ==> Fillings() == old(Fillings()) - 1)
    {
      if format.Http? && !finished {
        SetEntry(format.footer);
        finished := true;
      } else {
        completed := true;
      }
    }

    method WantWrite() returns (want: bool)
      requires Valid() && !completed && SmallEntries(format)
      modifies this, lister
      ensures Valid() && sent == old(sent) && (want <==> !WriteBufEmpty())
      ensures completed ==> sent == whole
    {
      if WriteBufEmpty() {
        FinishedWriting();
      }
      want := !WriteBufEmpty();
    }

    /** The stream is offered the unsent bytes and the position moves by its answer. */
    method Advance(taken: int)
      requires lister.Valid() && !WriteBufEmpty() && |buf| < UNSIGNED_LIMIT && taken >= -1
      modifies `sent, `writeBufPos
      ensures taken >= 0 ==> sent + Pending() == old(sent + Pending())
      ensures taken >= 0 ==> old(sent) <= sent && |sent| <= |old(sent)| + taken
      ensures taken >= 1 ==> |sent| > |old(sent)|
      ensures taken < 0 ==> |sent + Pending()| != |old(sent + Pending())|
    {
      var unsent := buf[writeBufPos..];
      var ret := if taken > |unsent| then |unsent| else taken;
      writeBufPos := Advanced(writeBufPos, ret);
      if ret >= 0 {
        sent := sent + unsent[..ret];
        Moved(old(sent), unsent, ret, Rest());
        assert Unsent() == unsent[ret..];
      }
    }

    /** One write. The stream takes at most the given number of bytes, or answers -1; wrote tells whether
        there was anything to offer. Nothing is skipped or repeated exactly when the answer is not -1. */
    method WriteOut(taken: int) returns (wrote: bool)
      requires Valid() && !completed && SmallEntries(format) && taken >= -1
      modifies this, lister
      ensures Valid() <==> !wrote || taken >= 0
      ensures taken >= 0 ==> old(sent) <= sent && |sent| <= |old(sent)| + taken
      ensures taken >= 0 && completed ==> sent == whole
      ensures wrote && taken >= 1 ==> |sent| > |old(sent)|
      ensures !wrote ==> sent == old(sent) && (completed || WriteBufEmpty())
      ensures taken >= 0 ==> Fillings() <= old(Fillings()) && (!wrote && !completed ==> Fillings() < old(Fillings()))
    {
      if WriteBufEmpty() {
        FinishedWriting();
        if WriteBufEmpty() {
          return false;
        }
      }
      Advance(taken);
      if WriteBufEmpty() {
        FinishedWriting();
      }
      return true;
    }
  }

  lemma Moved(sent: string, unsent: string, n: nat, rest: string)
    requires n <= |unsent|
    ensures sent + unsent[..n] + (unsent[n..] + rest) == sent + (unsent + rest)
  {
    assert unsent == unsent[..n] + unsent[n..];
  }

  ghost predicate SmallEntries(format: Format) {
    && (forall name :: |format.entry(name)| < UNSIGNED_LIMIT)
    && (format.Http? ==> |format.footer| < UNSIGNED_LIMIT)
  }

  /** A whole run: whatever the stream takes at each turn, what it has been sent is a prefix of the
      listing, and all of it once the listing reports completion, as it does when the stream has taken
      something often enough. */
  method Send(format: Format, lister: Lister, takes: seq<nat>) returns (sent: string, completed: bool)
    requires lister.Valid() && SmallEntries(format) && (format.Http? ==> |format.header| < UNSIGNED_LIMIT)
    modifies lister
    ensures sent <= Whole(format, old(lister.Remaining()))
    ensures completed ==> sent == Whole(format, old(lister.Remaining()))
    ensures (forall i :: 0 <= i < |takes| ==> takes[i] > 0) ==>
              |takes| > |Whole(format, old(lister.Remaining()))| + |old(lister.Remaining())| + 1 ==> completed
  {
    var w := new ListWriter(format, lister);
    ghost var whole := w.whole;
    var i := 0;
    while i < |takes| && !w.completed
      invariant 0 <= i <= |takes| && fresh(w) && w.lister == lister && w.format == format
      invariant w.Valid() && w.whole == whole
      invariant w.completed ==> w.sent == whole
      invariant (forall k :: 0 <= k < |takes| ==> takes[k] > 0) && !w.completed ==>
                  |w.Pending()| + w.Fillings() + i <= |whole| + |old(lister.Remaining())| + 1
    {
      assert |w.sent| + |w.Pending()| == |whole|;
      var wrote := w.WriteOut(takes[i]);
      i := i + 1;
    }
    return w.sent, w.completed;
  }

  /** A client that splits an FTP listing into lines gets the names back, in order. */
  lemma FtpListingLines(before: string, names: seq<string>)
    requires Lines.Partial(before) == "" && forall i :: 0 <= i < |names| ==> Lines.OneLine(names[i])
    ensures Lines.LinesOf(before + Whole(Ftp(FtpEntry), names)) == Lines.LinesOf(before) + names
    ensures Lines.Partial(before + Whole(Ftp(FtpEntry), names)) == ""
  {
    FtpTextIs(names);
    FtpTextLines(before, names);
  }

  /** The text of an FTP listing. */
  function FtpText(names: seq<string>): string {
    if names == [] then "" else FtpEntry(names[0]) + FtpText(names[1..])
  }

  lemma {:induction false} FtpTextIs(names: seq<string>)
    ensures Entries(FtpEntry, names) == FtpText(names)
  {
    if names != [] {
      FtpTextIs(names[1..]);
    }
  }

  lemma {:induction false} FtpTextLines(before: string, names: seq<string>)
    requires Lines.Partial(before) == "" && forall i :: 0 <= i < |names| ==> Lines.OneLine(names[i])
    ensures Lines.LinesOf(before + FtpText(names)) == Lines.LinesOf(before) + names
    ensures Lines.Partial(before + FtpText(names)) == ""
    decreases |names|
  {
    if names == [] {
      assert before + "" == before;
    } else {
      FtpEntryLine(before, names);
      FtpTextLines(before + FtpEntry(names[0]), names[1..]);
      assert [names[0]] + names[1..] == names;
    }
  }

  lemma FtpEntryLine(before: string, names: seq<string>)
    requires names != [] && Lines.Partial(before) == "" && Lines.OneLine(names[0])
    ensures Lines.LinesOf(before + FtpEntry(names[0])) == Lines.LinesOf(before) + [names[0]]
    ensures Lines.Partial(before + FtpEntry(names[0])) == ""
    ensures before + FtpText(names) == before + FtpEntry(names[0]) + FtpText(names[1..])
  {
    Lines.LineSent(before, names[0]);
    Regroup(before, names[0], "\r\n");
    Regroup(before, FtpEntry(names[0]), FtpText(names[1..]));
  }

  /** An HTTP listing is its header, the text of each entry in order, and its footer. */
  lemma HttpListing(entry: string -> string, header: string, footer: string, a: seq<string>, name: string, b: seq<string>)
    ensures Whole(Http(entry, header, footer), a + [name] + b)
         == header + (Entries(entry, a) + entry(name) + Entries(entry, b)) + footer
    ensures Whole(Http(entry, header, footer), []) == header + footer
  {
    EntriesConcat(entry, a + [name], b);
    EntriesConcat(entry, a, [name]);
    assert Entries(entry, [name]) == entry(name) + Entries(entry, [name][1..]);
    assert entry(name) + "" == entry(name);
    assert header + "" + footer == header + footer;
  }

  lemma {:induction false} EntriesConcat(entry: string -> string, a: seq<string>, b: seq<string>)
    ensures Entries(entry, a + b) == Entries(entry, a) + Entries(entry, b)
  {
    if a == [] {
      assert a + b == b;
    } else {
      assert (a + b)[1..] == a[1..] + b;
      EntriesConcat(entry, a[1..], b);
      Regroup(entry(a[0]), Entries(entry, a[1..]), Entries(entry, b));
    }
  }
}
