/** The part of POSIX the dumper relies on: a file opened for writing with
    O_WRONLY | O_TRUNC | O_CREAT, `write()` and `close()`.

    What `write()` does on each call is not something the dumper controls: it
    may be interrupted (EINTR), fail for good, or take fewer bytes than it was
    offered. The file carries a script of those outcomes, one per call; once
    the script is exhausted every call takes all the bytes it is given. */
module Posix {
  import opened Encoding

  /** The errno values a failing `write()` may leave. */
  datatype Errno = EINTR | EBADF | EIO | ENOSPC | EFBIG

  /** The outcome of one `write()` call: it fails with `err`, or it takes at
      most `limit` bytes (0 meaning it took none and returned 0). */
  datatype WriteEvent = Fail(err: Errno) | Accept(limit: nat)

  /** What `write()` returns: a count of bytes, or -1 with errno set. */
  datatype Reply = Wrote(n: nat) | Failed(err: Errno)

  function Min(a: nat, b: nat): nat
  {
    if a <= b then a else b
  }

  /** The reply of a `write(fd, buf, len)` call on a descriptor that is open
      or not, when the remaining outcomes are `evs`. */
  function WriteCall(isOpen: bool, evs: seq<WriteEvent>, len: nat): (r: Reply)
    ensures r.Wrote? ==> r.n <= len
    ensures !isOpen ==> r == Failed(EBADF)
  {
    if !isOpen then Failed(EBADF)
    else if evs == [] then Wrote(len)
    else match evs[0]
      case Fail(e) => Failed(e)
      case Accept(limit) => Wrote(Min(limit, len))
  }

  /** How many scripted outcomes one call uses up: a call on a closed
      descriptor never reaches the file. */
  function Consumed(isOpen: bool, evs: seq<WriteEvent>): (c: nat)
    ensures c <= |evs|
  {
    if isOpen && evs != [] then 1 else 0
  }

  /** How many bytes a reply says were written. */
  function Written(r: Reply): nat
  {
    if r.Wrote? then r.n else 0
  }

  /** An outcome a caller that retries can get past: an interrupted call,
      or one that takes at least one byte. */
  predicate Harmless(e: WriteEvent)
  {
    e == Fail(EINTR) || (e.Accept? && e.limit > 0)
  }

  /** A script under which no call fails for good and every call that is not
      interrupted takes at least one byte. */
  predicate Benign(evs: seq<WriteEvent>)
  {
    forall j {:trigger Harmless(evs[j])} :: 0 <= j < |evs| ==> Harmless(evs[j])
  }

  /** A file the dumper writes through a descriptor. */
  class OutputFile {
    /** The bytes of the file. */
    var contents: seq<Byte>
    /** Whether the descriptor refers to the file; -1 after a failed open. */
    var isOpen: bool
    /** The outcomes of the `write()` calls still to come. */
    var faults: seq<WriteEvent>
    /** Whether `open(..., O_CREAT, 0644)` succeeds on this path. */
    const creatable: bool

    constructor (initial: seq<Byte>, creatable: bool, faults: seq<WriteEvent>)
      ensures this.contents == initial && this.creatable == creatable && this.faults == faults
      ensures !isOpen
    {
      this.contents := initial;
      this.creatable := creatable;
      this.faults := faults;
      this.isOpen := false;
    }

    /** `open(fn, O_WRONLY | O_TRUNC | O_CREAT, 0644)`: on success the file is
        emptied; on failure the descriptor is -1 and the file is left alone. */
    method Open()
      modifies this
      ensures isOpen == creatable
      ensures contents == if creatable then [] else old(contents)
      ensures faults == old(faults)
    {
      if creatable {
        contents := [];
        isOpen := true;
      } else {
        isOpen := false;
      }
    }

    /** `write(fd, buf, len)`: the reply is the next scripted outcome, and the
        bytes it accepts are appended to the file. */
    method Write(buf: seq<Byte>) returns (r: Reply)
      modifies this
      ensures r == WriteCall(old(isOpen), old(faults), |buf|)
      ensures contents == old(contents) + buf[..Written(r)]
      ensures faults == old(faults)[Consumed(old(isOpen), old(faults))..]
      ensures isOpen == old(isOpen)
    {
      r := WriteCall(isOpen, faults, |buf|);
      contents := contents + buf[..Written(r)];
      faults := faults[Consumed(isOpen, faults)..];
    }

    /** `close(fd)`; closing -1 fails harmlessly. */
    method Close()
      modifies this
      ensures !isOpen
      ensures contents == old(contents) && faults == old(faults)
    {
      isOpen := false;
    }
  }
}
