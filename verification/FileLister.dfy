/** Listers: the names of a directory, one after the other (lib/filelister.hh, lib/filelisterdir.hh). */
module FileListers {
  /** A directory listing being walked through (lib/filelister.hh). */
  class Lister {
    const names: seq<string>
    var pos: nat

    ghost predicate Valid()
      reads this
    {
      pos <= |names|
    }

    /** The names still to come. */
    ghost function Remaining(): seq<string>
      requires Valid()
      reads this
    {
      names[pos..]
    }

    constructor (names: seq<string>)
      ensures Valid() && Remaining() == names
    {
      this.names := names;
      pos := 0;
    }

    predicate Last()
      reads this
    {
      pos >= |names|
    }

    method Next()
      requires Valid()
      modifies this
      ensures Valid() && Remaining() == if old(Remaining()) == [] then [] else old(Remaining())[1..]
    {
      if pos < |names| {
        pos := pos + 1;
      }
    }

    function Name(): (name: string)
      requires Valid()
      reads this
      ensures Remaining() != [] ==> name == Remaining()[0]
    {
      if pos < |names| then names[pos] else ""
    }
  }
}
