/** The `c_write` calls CreateElfCore makes (elfcore.c:243-374), in the order
    it makes them, and what a run of them leaves behind. Every call goes
    through `c_write`, and the first call whose result is not the length it
    was given ends the run: the `goto done` after every test of
    `c_write(...) != n`. */
module CoreWrites {
  import opened Encoding
  import opened Elf32
  import opened Slices
  import opened CoreLayout
  import opened Posix
  import opened Retry

  // ---- A run of calls ----------------------------------------------------------

  /** What a run of calls leaves: the bytes it appended to the file, the
      `write()` outcomes it did not use, and whether every call completed. */
  datatype Run = Run(written: seq<Byte>, rest: seq<WriteEvent>, ok: bool)

  /** The calls `calls` made one after the other through `c_write`, on a
      descriptor that is open or not, when the `write()` calls meet the
      outcomes `evs` in turn. The run ends after the first call whose result
      is not its length; a call that completes has appended all its bytes. */
  function Emit(isOpen: bool, evs: seq<WriteEvent>, calls: seq<seq<Byte>>): Run
    decreases |calls|
  {
    if calls == [] then Run([], evs, true)
    else
      var o := CWriteRun(isOpen, evs, |calls[0]|);
      if o.rc != |calls[0]| then Run(calls[0][..o.written], evs[o.used..], false)
      else
        var r := Emit(isOpen, evs[o.used..], calls[1..]);
        Run(calls[0] + r.written, r.rest, r.ok)
  }

  /** The run `r`, followed by the calls `more` when all of `r` completed. */
  function Then(isOpen: bool, r: Run, more: seq<seq<Byte>>): Run
  {
    if !r.ok then r
    else
      var s := Emit(isOpen, r.rest, more);
      Run(r.written + s.written, s.rest, s.ok)
  }

  /** Running `a` and then `b` is running `a`, and `b` only if `a` completed. */
  lemma {:induction false} EmitAppend(isOpen: bool, evs: seq<WriteEvent>, a: seq<seq<Byte>>, b: seq<seq<Byte>>)
    ensures Emit(isOpen, evs, a + b) == Then(isOpen, Emit(isOpen, evs, a), b)
    decreases |a|
  {
    if a == [] {
      assert a + b == b;
    } else {
      var ab := a + b;
      assert ab[0] == a[0] && ab[1..] == a[1..] + b;
      var o := CWriteRun(isOpen, evs, |a[0]|);
      if o.rc == |a[0]| {
        var rest := evs[o.used..];
        EmitAppend(isOpen, rest, a[1..], b);
        var r := Emit(isOpen, rest, a[1..]);
        assert Emit(isOpen, evs, ab) == Run(a[0] + Emit(isOpen, rest, a[1..] + b).written,
                                             Emit(isOpen, rest, a[1..] + b).rest, Emit(isOpen, rest, a[1..] + b).ok);
        if r.ok {
          var s := Emit(isOpen, r.rest, b);
          assert a[0] + (r.written + s.written) == (a[0] + r.written) + s.written;
        }
      }
    }
  }

  /** Once a call has not completed, the calls after it change nothing: they
      write no byte and use no outcome. */
  lemma {:induction false} EmitIgnoresLater(isOpen: bool, evs: seq<WriteEvent>, a: seq<seq<Byte>>, b: seq<seq<Byte>>)
    requires !Emit(isOpen, evs, a).ok
    ensures Emit(isOpen, evs, a + b) == Emit(isOpen, evs, a)
  {
    EmitAppend(isOpen, evs, a, b);
  }

  /** One call on its own: it appends what `c_write` wrote, uses the
      outcomes `c_write` used, and completes when `c_write` returns its length. */
  lemma {:induction false} EmitOne(isOpen: bool, evs: seq<WriteEvent>, bytes: seq<Byte>)
    ensures Emit(isOpen, evs, [bytes]).written == bytes[..CWriteRun(isOpen, evs, |bytes|).written]
    ensures Emit(isOpen, evs, [bytes]).rest == evs[CWriteRun(isOpen, evs, |bytes|).used..]
    ensures Emit(isOpen, evs, [bytes]).ok <==> CWriteRun(isOpen, evs, |bytes|).rc == |bytes|
  {
    var o := CWriteRun(isOpen, evs, |bytes|);
    assert [bytes][0] == bytes && [bytes][1..] == [];
    if o.rc == |bytes| {
      assert bytes[..o.written] == bytes;
    }
  }

  // ---- What a run leaves -------------------------------------------------------

  /** A run appends a prefix of its calls' bytes laid end to end, and all of
      them exactly when every call completed. */
  lemma {:induction false} EmitPrefix(isOpen: bool, evs: seq<WriteEvent>, calls: seq<seq<Byte>>)
    ensures Emit(isOpen, evs, calls).written <= Concat(calls)
    ensures Emit(isOpen, evs, calls).ok <==> Emit(isOpen, evs, calls).written == Concat(calls)
    decreases |calls|
  {
    if calls != [] {
      var c := calls[0];
      var o := CWriteRun(isOpen, evs, |c|);
      assert calls == [c] + calls[1..];
      ConcatAppend([c], calls[1..]);
      ConcatOne(c);
      EmitPrefix(isOpen, evs[o.used..], calls[1..]);
      var r := Emit(isOpen, evs[o.used..], calls[1..]);
      if o.rc != |c| {
        assert |c[..o.written]| < |c|;
        assert c[..o.written] <= c + Concat(calls[1..]);
      } else {
        PrefixAfter(c, r.written, Concat(calls[1..]));
      }
    }
  }

  /** When no `write()` fails for good and none takes zero bytes, every call
      completes and the outcomes left are as benign. */
  lemma {:induction false} EmitBenign(evs: seq<WriteEvent>, calls: seq<seq<Byte>>)
    requires Benign(evs)
    ensures Emit(true, evs, calls).ok && Benign(Emit(true, evs, calls).rest)
    decreases |calls|
  {
    if calls != [] {
      CWriteRunCompletes(evs, |calls[0]|);
      var o := CWriteRun(true, evs, |calls[0]|);
      EmitBenign(evs[o.used..], calls[1..]);
    }
  }

  /** On the descriptor -1 that a failed `open()` leaves, a run writes
      nothing and uses no outcome. */
  lemma {:induction false} EmitClosed(evs: seq<WriteEvent>, calls: seq<seq<Byte>>)
    ensures Emit(false, evs, calls).written == [] && Emit(false, evs, calls).rest == evs
    ensures calls != [] && calls[0] != [] ==> !Emit(false, evs, calls).ok
    decreases |calls|
  {
    if calls != [] {
      CWriteRunBadDescriptor(evs, |calls[0]|);
      assert evs[0..] == evs;
      EmitClosed(evs, calls[1..]);
    }
  }

  /** When the first call has bytes to write and the first `write()` fails
      for good, the run ends at once with nothing written. */
  lemma {:induction false} EmitFirstLasting(evs: seq<WriteEvent>, calls: seq<seq<Byte>>)
    requires calls != [] && calls[0] != [] && evs != [] && Lasting(evs[0])
    ensures Emit(true, evs, calls) == Run([], evs[1..], false)
  {
    CWriteRunFirstFails(evs, |calls[0]|);
  }

  // ---- A run in the dumper's terms -----------------------------------------------

  /** A file that held `c0`, with the outcomes `evs` ahead, holds `c1` with
      `evs1` ahead after the calls `calls`; `ok` says whether all of them
      completed. */
  predicate Ran(c0: seq<Byte>, isOpen: bool, evs: seq<WriteEvent>, calls: seq<seq<Byte>>,
                c1: seq<Byte>, evs1: seq<WriteEvent>, ok: bool)
  {
    c1 == c0 + Emit(isOpen, evs, calls).written && evs1 == Emit(isOpen, evs, calls).rest
    && ok == Emit(isOpen, evs, calls).ok
  }

  /** No calls leave the file as it was. */
  lemma RanNone(c0: seq<Byte>, isOpen: bool, evs: seq<WriteEvent>)
    ensures Ran(c0, isOpen, evs, [], c0, evs, true)
  {
    assert c0 + [] == c0;
  }

  /** The calls `a`, all completed, then the calls `b`. */
  lemma RanSeq(c0: seq<Byte>, isOpen: bool, evs: seq<WriteEvent>, a: seq<seq<Byte>>, c1: seq<Byte>, evs1: seq<WriteEvent>,
               b: seq<seq<Byte>>, c2: seq<Byte>, evs2: seq<WriteEvent>, ok: bool)
    requires Ran(c0, isOpen, evs, a, c1, evs1, true) && Ran(c1, isOpen, evs1, b, c2, evs2, ok)
    ensures Ran(c0, isOpen, evs, a + b, c2, evs2, ok)
  {
    EmitAppend(isOpen, evs, a, b);
    assert c0 + Emit(isOpen, evs, a).written + Emit(isOpen, evs1, b).written
        == c0 + (Emit(isOpen, evs, a).written + Emit(isOpen, evs1, b).written);
  }

  /** The calls `a`, one of which did not complete, leave the file as any
      longer list of calls starting with `a` does. */
  lemma RanStop(c0: seq<Byte>, isOpen: bool, evs: seq<WriteEvent>, a: seq<seq<Byte>>, c1: seq<Byte>, evs1: seq<WriteEvent>,
                whole: seq<seq<Byte>>)
    requires Ran(c0, isOpen, evs, a, c1, evs1, false) && a <= whole
    ensures Ran(c0, isOpen, evs, whole, c1, evs1, false)
  {
    assert whole == a + whole[|a|..];
    EmitIgnoresLater(isOpen, evs, a, whole[|a|..]);
  }

  /** Call `i` of a loop that makes the calls `calls` one per turn: the
      turns so far grow by one, or the loop stops where the whole run would. */
  lemma RanNext(c0: seq<Byte>, isOpen: bool, evs: seq<WriteEvent>, calls: seq<seq<Byte>>, i: nat,
                c1: seq<Byte>, evs1: seq<WriteEvent>, c2: seq<Byte>, evs2: seq<WriteEvent>, ok: bool)
    requires i < |calls|
    requires Ran(c0, isOpen, evs, calls[..i], c1, evs1, true) && Ran(c1, isOpen, evs1, [calls[i]], c2, evs2, ok)
    ensures ok ==> Ran(c0, isOpen, evs, calls[..i + 1], c2, evs2, true)
    ensures !ok ==> Ran(c0, isOpen, evs, calls, c2, evs2, false)
  {
    assert calls[..i] + [calls[i]] == calls[..i + 1];
    RanSeq(c0, isOpen, evs, calls[..i], c1, evs1, [calls[i]], c2, evs2, ok);
    if !ok {
      RanStop(c0, isOpen, evs, calls[..i + 1], c2, evs2, calls);
    }
  }

  /** Turn `i` of a loop whose turns make the groups of calls `groups`. */
  lemma RanNextGroup(c0: seq<Byte>, isOpen: bool, evs: seq<WriteEvent>, groups: seq<seq<seq<Byte>>>, i: nat,
                     c1: seq<Byte>, evs1: seq<WriteEvent>, c2: seq<Byte>, evs2: seq<WriteEvent>, ok: bool)
    requires i < |groups|
    requires Ran(c0, isOpen, evs, Concat(groups[..i]), c1, evs1, true) && Ran(c1, isOpen, evs1, groups[i], c2, evs2, ok)
    ensures ok ==> Ran(c0, isOpen, evs, Concat(groups[..i + 1]), c2, evs2, true)
    ensures !ok ==> Ran(c0, isOpen, evs, Concat(groups), c2, evs2, false)
  {
    ConcatGrows(groups, i);
    RanSeq(c0, isOpen, evs, Concat(groups[..i]), c1, evs1, groups[i], c2, evs2, ok);
    if !ok {
      RanStop(c0, isOpen, evs, Concat(groups[..i + 1]), c2, evs2, Concat(groups));
    }
  }

  // ---- The calls of CreateElfCore -------------------------------------------------

  /** The three writes of one note, joined by `||` (elfcore.c:322-325,
      336-339): its header, the owner "CORE", the descriptor. */
  function NoteCalls(nType: nat, desc: seq<Byte>, big: bool): seq<seq<Byte>>
  {
    [EncodeNhdr(Nhdr(|CoreName|, |desc|, nType), big), CoreName, desc]
  }

  /** The writes of the NT_PRSTATUS loop (elfcore.c:330-343), one group per thread. */
  function ThreadCalls(count: nat, desc: seq<Byte>, big: bool): (g: seq<seq<seq<Byte>>>)
    ensures |g| == count
  {
    seq(count, _ => NoteCalls(NT_PRSTATUS, desc, big))
  }

  /** The padding write (elfcore.c:347-354), made only when there is padding. */
  function PaddingCalls(noteAlign: nat): seq<seq<Byte>>
  {
    if noteAlign == 0 then [] else [Zeros(noteAlign)]
  }

  /** The write of one mapping's bytes (elfcore.c:358-363): from the start of
      the caller's buffer, and none for a read-only mapping. */
  function SegmentCalls(m: Mapping, raw: seq<Byte>): seq<seq<Byte>>
    requires Writable(m) ==> MemSize(m) <= |raw|
  {
    if Writable(m) then [raw[..MemSize(m)]] else []
  }

  /** The writes of the segment loop (elfcore.c:357-364), one group per mapping. */
  function SegmentGroups(ms: seq<Mapping>, raw: seq<Byte>): (g: seq<seq<seq<Byte>>>)
    requires Covers(ms, raw)
    ensures |g| == |ms|
  {
    seq(|ms|, i requires 0 <= i < |ms| => SegmentCalls(ms[i], raw))
  }

  /** The program-header writes (elfcore.c:271-313): the PT_NOTE entry, then
      one PT_LOAD entry per mapping. */
  function PhdrCalls(ms: seq<Mapping>, numThreads: nat, big: bool): seq<seq<Byte>>
  {
    [NoteEntry(ms, numThreads, big)] + LoadEntries(ms, FirstLoadOffset(|ms|, numThreads), big)
  }

  /** The note writes (elfcore.c:316-344): the NT_PRPSINFO note, then the
      NT_PRSTATUS note of every thread. */
  function NoteSegmentCalls(numThreads: nat, prpsinfo: seq<Byte>, prstatus: seq<Byte>, big: bool): seq<seq<Byte>>
    requires |prstatus| == PrstatusSize
  {
    NoteCalls(NT_PRPSINFO, prpsinfo, big) + Concat(ThreadCalls(numThreads, StatusDesc(prstatus, big), big))
  }

  /** Every `c_write` call of CreateElfCore, in order (elfcore.c:243-374). */
  function CoreCalls(ms: seq<Mapping>, numThreads: nat, prpsinfo: seq<Byte>, prstatus: seq<Byte>,
                     raw: seq<Byte>, big: bool): (calls: seq<seq<Byte>>)
    requires Covers(ms, raw) && |prstatus| == PrstatusSize
    ensures calls != [] && calls[0] == HeaderBytes(|ms|, big)
  {
    [HeaderBytes(|ms|, big)] + PhdrCalls(ms, numThreads, big)
    + NoteSegmentCalls(numThreads, prpsinfo, prstatus, big)
    + PaddingCalls(NoteAlign(NoteOffset(|ms|) + NoteFilesz(numThreads)))
    + Concat(SegmentGroups(ms, raw)) + [Terminator(big)]
  }

  /** The dumper's calls, stage by stage. */
  lemma CoreCallsStages(ms: seq<Mapping>, numThreads: nat, prpsinfo: seq<Byte>, prstatus: seq<Byte>,
                        raw: seq<Byte>, big: bool)
    requires Covers(ms, raw) && |prstatus| == PrstatusSize
    ensures CoreCalls(ms, numThreads, prpsinfo, prstatus, raw, big)
            == [HeaderBytes(|ms|, big)] + PhdrCalls(ms, numThreads, big)
               + NoteSegmentCalls(numThreads, prpsinfo, prstatus, big)
               + PaddingCalls(NoteAlign(NoteOffset(|ms|) + NoteFilesz(numThreads)))
               + Concat(SegmentGroups(ms, raw)) + [Terminator(big)]
  {
  }

  // ---- The calls write the core image ------------------------------------------------

  lemma NoteCallsRecord(nType: nat, desc: seq<Byte>, big: bool)
    ensures Concat(NoteCalls(nType, desc, big)) == NoteRecord(nType, desc, big)
  {
    var h := EncodeNhdr(Nhdr(|CoreName|, |desc|, nType), big);
    assert NoteCalls(nType, desc, big) == [h] + [CoreName] + [desc];
    ConcatAppend([h] + [CoreName], [desc]);
    ConcatAppend([h], [CoreName]);
    ConcatOne(h);
    ConcatOne(CoreName);
    ConcatOne(desc);
  }

  lemma PhdrCallsTable(ms: seq<Mapping>, numThreads: nat, big: bool)
    ensures Concat(PhdrCalls(ms, numThreads, big)) == PhdrTable(ms, numThreads, big)
  {
    ConcatAppend([NoteEntry(ms, numThreads, big)], LoadEntries(ms, FirstLoadOffset(|ms|, numThreads), big));
    ConcatOne(NoteEntry(ms, numThreads, big));
  }

  lemma NoteSegmentCallsBytes(numThreads: nat, prpsinfo: seq<Byte>, prstatus: seq<Byte>, big: bool)
    requires |prstatus| == PrstatusSize
    ensures Concat(NoteSegmentCalls(numThreads, prpsinfo, prstatus, big)) == NoteSegment(numThreads, prpsinfo, prstatus, big)
  {
    var desc := StatusDesc(prstatus, big);
    var g := ThreadCalls(numThreads, desc, big);
    ConcatAppend(NoteCalls(NT_PRPSINFO, prpsinfo, big), Concat(g));
    NoteCallsRecord(NT_PRPSINFO, prpsinfo, big);
    NoteCallsRecord(NT_PRSTATUS, desc, big);
    ConcatFlatten(g, ThreadRecords(numThreads, desc, big));
  }

  lemma PaddingCallsBytes(noteAlign: nat)
    ensures Concat(PaddingCalls(noteAlign)) == Zeros(noteAlign)
  {
    if noteAlign != 0 {
      ConcatOne(Zeros(noteAlign));
    }
  }

  lemma SegmentCallsPayload(ms: seq<Mapping>, raw: seq<Byte>)
    requires Covers(ms, raw)
    ensures Concat(Concat(SegmentGroups(ms, raw))) == Payload(ms, raw)
  {
    var g := SegmentGroups(ms, raw);
    var ss := Segments(ms, raw);
    forall i | 0 <= i < |g|
      ensures Concat(g[i]) == ss[i]
    {
      if Writable(ms[i]) {
        ConcatOne(raw[..MemSize(ms[i])]);
      }
    }
    ConcatFlatten(g, ss);
  }

  /** The calls of CreateElfCore, laid end to end, are the core image. */
  lemma {:induction false} CoreCallsImage(ms: seq<Mapping>, numThreads: nat, prpsinfo: seq<Byte>, prstatus: seq<Byte>,
                                          raw: seq<Byte>, big: bool)
    requires Covers(ms, raw) && |prstatus| == PrstatusSize
    ensures Concat(CoreCalls(ms, numThreads, prpsinfo, prstatus, raw, big)) == CoreImage(ms, numThreads, prpsinfo, prstatus, raw, big)
  {
    var h := [HeaderBytes(|ms|, big)];
    var p := PhdrCalls(ms, numThreads, big);
    var n := NoteSegmentCalls(numThreads, prpsinfo, prstatus, big);
    var z := PaddingCalls(NoteAlign(NoteOffset(|ms|) + NoteFilesz(numThreads)));
    var s := Concat(SegmentGroups(ms, raw));
    var t := [Terminator(big)];
    ConcatAppend(h + p + n + z + s, t);
    ConcatAppend(h + p + n + z, s);
    ConcatAppend(h + p + n, z);
    ConcatAppend(h + p, n);
    ConcatAppend(h, p);
    ConcatOne(HeaderBytes(|ms|, big));
    ConcatOne(Terminator(big));
    PhdrCallsTable(ms, numThreads, big);
    NoteSegmentCallsBytes(numThreads, prpsinfo, prstatus, big);
    PaddingCallsBytes(NoteAlign(NoteOffset(|ms|) + NoteFilesz(numThreads)));
    SegmentCallsPayload(ms, raw);
  }

  // ---- The dumper's run ------------------------------------------------------------

  /** The very first `write()` fails for good. */
  predicate FailsFirst(evs: seq<WriteEvent>)
  {
    evs != [] && Lasting(evs[0])
  }

  /** What the calls of CreateElfCore leave when `open()` succeeded and the
      `write()` calls meet the outcomes `evs` in turn. */
  function DumpRun(ms: seq<Mapping>, numThreads: nat, prpsinfo: seq<Byte>, prstatus: seq<Byte>,
                   raw: seq<Byte>, big: bool, evs: seq<WriteEvent>): Run
    requires Covers(ms, raw) && |prstatus| == PrstatusSize
  {
    Emit(true, evs, CoreCalls(ms, numThreads, prpsinfo, prstatus, raw, big))
  }

  /** The dumper leaves a prefix of the core image, all of it exactly when
      every write completed, all of it whenever no `write()` fails for good
      or takes zero bytes, and none of it when the first `write()` fails for
      good. */
  lemma {:induction false} DumpRunImage(ms: seq<Mapping>, numThreads: nat, prpsinfo: seq<Byte>, prstatus: seq<Byte>,
                                        raw: seq<Byte>, big: bool, evs: seq<WriteEvent>)
    requires Covers(ms, raw) && |prstatus| == PrstatusSize
    ensures DumpRun(ms, numThreads, prpsinfo, prstatus, raw, big, evs).written
            <= CoreImage(ms, numThreads, prpsinfo, prstatus, raw, big)
    ensures DumpRun(ms, numThreads, prpsinfo, prstatus, raw, big, evs).ok
            <==> DumpRun(ms, numThreads, prpsinfo, prstatus, raw, big, evs).written
                 == CoreImage(ms, numThreads, prpsinfo, prstatus, raw, big)
    ensures Benign(evs) ==> DumpRun(ms, numThreads, prpsinfo, prstatus, raw, big, evs).written
                            == CoreImage(ms, numThreads, prpsinfo, prstatus, raw, big)
    ensures FailsFirst(evs) ==> DumpRun(ms, numThreads, prpsinfo, prstatus, raw, big, evs).written == []
  {
    var calls := CoreCalls(ms, numThreads, prpsinfo, prstatus, raw, big);
    CoreCallsImage(ms, numThreads, prpsinfo, prstatus, raw, big);
    EmitPrefix(true, evs, calls);
    if Benign(evs) {
      EmitBenign(evs, calls);
    }
    if FailsFirst(evs) {
      EmitFirstLasting(evs, calls);
    }
  }
}
