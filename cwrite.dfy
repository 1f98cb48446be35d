/** `c_write` (elfcore.c:170-186) and the NO_INTR retry macro (elfcore.c:164):
    a `write()` loop that retries interrupted calls, keeps going after short
    writes, gives up on any other error and stops when `write()` reports
    that it wrote nothing. */
module Retry {
  import opened Encoding
  import opened Posix

  /** What one `c_write` call comes to: its return value, how many bytes of
      its buffer reached the file, and how many scripted outcomes it used. */
  datatype Outcome = Outcome(rc: int, written: nat, used: nat)

  /** An outcome of the rest of a call, after `pos` bytes were already written
      by calls that used `u` outcomes. */
  function Join(pos: nat, u: nat, o: Outcome): Outcome
  {
    Outcome(if o.rc < 0 then o.rc else pos + o.rc, pos + o.written, u + o.used)
  }

  /** What `NO_INTR(rc = write(...))` ends with: the first reply that is not
      an interruption, and how many scripted outcomes the calls used. */
  datatype Attempt = Attempt(reply: Reply, used: nat)

  /** The same attempt, after `k` more interrupted calls in front of it. */
  function Shift(k: nat, a: Attempt): Attempt
  {
    Attempt(a.reply, a.used + k)
  }

  /** `NO_INTR(rc = write(f, buf, len))` (elfcore.c:164) when the calls meet
      the outcomes `evs` in turn. */
  function NoIntrRun(isOpen: bool, evs: seq<WriteEvent>, len: nat): (a: Attempt)
    ensures a.reply != Failed(EINTR)
    ensures a.reply.Wrote? ==> a.reply.n <= len
    ensures a.used <= |evs|
    ensures a.used == 0 <==> !isOpen || evs == []
  {
    if isOpen && evs != [] && evs[0] == Fail(EINTR) then
      Shift(1, NoIntrRun(isOpen, evs[1..], len))
    else
      Attempt(WriteCall(isOpen, evs, len), Consumed(isOpen, evs))
  }

  /** `c_write` on a descriptor that is open or not, with `len` bytes to go,
      when its `write()` calls meet the outcomes `evs` in turn. */
  function CWriteRun(isOpen: bool, evs: seq<WriteEvent>, len: nat): (o: Outcome)
    ensures o.written <= len && o.used <= |evs|
    ensures o.rc == o.written as int || o.rc == -1
    ensures o.rc < 0 ==> o.written < len
    ensures len == 0 ==> o.used == 0
    ensures o.used == 0 ==> o.rc == len || !isOpen
    decreases |evs|, len
  {
    if len == 0 then Outcome(0, 0, 0)
    else
      var a := NoIntrRun(isOpen, evs, len);
      match a.reply
      case Failed(_) => Outcome(-1, 0, a.used)
      case Wrote(n) =>
        if n == 0 then Outcome(0, 0, a.used)
        else Join(n, a.used, CWriteRun(isOpen, evs[a.used..], len - n))
  }

  /** Joining in two steps is joining the sums at once. */
  lemma JoinJoin(pos: nat, u: nat, x: Outcome, n: nat, used: nat, y: Outcome, o: Outcome, pos': nat, u': nat)
    requires Join(pos, u, x) == o && x == Join(n, used, y) && pos' == pos + n && u' == u + used
    ensures Join(pos', u', y) == o
  {
  }

  /** A `write()` outcome that `c_write` gives up on: an error other than
      EINTR. */
  predicate Lasting(e: WriteEvent)
  {
    e.Fail? && e.err != EINTR
  }

  /** What NO_INTR's attempt `a` says about the outcomes `evs` it met: the
      calls before its last one were all interrupted; the reply is an error
      exactly when the descriptor is bad or the last call failed with another
      errno, and 0 exactly when the last call wrote nothing; and when it wrote
      bytes, every call it made got past its outcome. */
  predicate AttemptVerdict(isOpen: bool, evs: seq<WriteEvent>, a: Attempt)
  {
    && a.used <= |evs|
    && (a.reply.Failed? <==> !isOpen || (a.used > 0 && Lasting(evs[a.used - 1])))
    && (a.reply == Wrote(0) <==> isOpen && a.used > 0 && evs[a.used - 1] == Accept(0))
    && (a.reply.Wrote? && a.reply.n > 0 ==> isOpen && Benign(evs[..a.used]))
    && (forall j :: 0 <= j < a.used - 1 ==> evs[j] == Fail(EINTR))
    && (a.used > 0 ==> Benign(evs[..a.used - 1]))
  }

  lemma {:induction false} NoIntrVerdict(isOpen: bool, evs: seq<WriteEvent>, len: nat)
    requires len > 0
    ensures AttemptVerdict(isOpen, evs, NoIntrRun(isOpen, evs, len))
    decreases |evs|
  {
    var a := NoIntrRun(isOpen, evs, len);
    if isOpen && evs != [] && evs[0] == Fail(EINTR) {
      var rest := evs[1..];
      var a' := NoIntrRun(isOpen, rest, len);
      NoIntrVerdict(isOpen, rest, len);
      if a'.used > 0 {
        assert evs[a.used - 1] == rest[a'.used - 1];
      }
      forall j | 0 <= j < a.used - 1
        ensures evs[j] == Fail(EINTR)
      {
        if j > 0 {
          assert evs[j] == rest[j - 1];
        }
      }
      forall j | 0 <= j < a.used
        ensures j < a.used - 1 || (a.reply.Wrote? && a.reply.n > 0) ==> Harmless(evs[j])
      {
        if j > 0 && a'.used > 0 && (j < a.used - 1 || (a.reply.Wrote? && a.reply.n > 0)) {
          assert evs[j] == rest[..a'.used][j - 1];
        }
      }
    }
  }

  /** With no lasting failure and no call that takes nothing, NO_INTR ends with
      a call that wrote at least one byte, and what is left of the script is
      as benign. */
  lemma {:induction false} NoIntrBenign(evs: seq<WriteEvent>, len: nat)
    requires len > 0 && Benign(evs)
    ensures NoIntrRun(true, evs, len).reply.Wrote? && NoIntrRun(true, evs, len).reply.n > 0
    ensures Benign(evs[NoIntrRun(true, evs, len).used..])
    decreases |evs|
  {
    if evs != [] {
      assert Harmless(evs[0]);
      if evs[0] == Fail(EINTR) {
        var rest := evs[1..];
        assert Benign(rest) by {
          forall j | 0 <= j < |rest|
            ensures Harmless(rest[j])
          {
            assert rest[j] == evs[j + 1];
          }
        }
        NoIntrBenign(rest, len);
        var a' := NoIntrRun(true, rest, len);
        assert evs[a'.used + 1..] == rest[a'.used..];
      } else {
        assert Benign(evs[1..]) by {
          forall j | 0 <= j < |evs| - 1
            ensures Harmless(evs[1..][j])
          {
            assert evs[1..][j] == evs[j + 1];
          }
        }
      }
    }
  }

  /** One round of the `c_write` loop: NO_INTR ends with `Attempt(r, used)`,
      and the call returns, breaks or goes on with the bytes that are left. */
  lemma {:induction false} CWriteRunStep(isOpen: bool, evs: seq<WriteEvent>, len: nat, r: Reply, used: nat)
    requires len > 0 && NoIntrRun(isOpen, evs, len) == Attempt(r, used)
    ensures used <= |evs| && (r.Wrote? ==> r.n <= len)
    ensures r.Failed? ==> CWriteRun(isOpen, evs, len) == Outcome(-1, 0, used)
    ensures r == Wrote(0) ==> CWriteRun(isOpen, evs, len) == Outcome(0, 0, used)
    ensures r.Wrote? && r.n > 0 ==> CWriteRun(isOpen, evs, len) == Join(r.n, used, CWriteRun(isOpen, evs[used..], len - r.n))
  {
  }

  /** The round that wrote bytes, on its own. */
  lemma CWriteRunGoesOn(isOpen: bool, evs: seq<WriteEvent>, len: nat, r: Reply, used: nat)
    requires len > 0 && NoIntrRun(isOpen, evs, len) == Attempt(r, used) && r.Wrote? && r.n > 0
    ensures used <= |evs| && r.n <= len
    ensures CWriteRun(isOpen, evs, len) == Join(r.n, used, CWriteRun(isOpen, evs[used..], len - r.n))
  {
    CWriteRunStep(isOpen, evs, len, r, used);
  }

  /** After a round of the loop that wrote `r.n` bytes, the rest of the call
      still comes to the same outcome. */
  lemma {:induction false} CWriteRunContinues(isOpen: bool, evs: seq<WriteEvent>, len: nat, pos: nat, u: nat,
                                              o: Outcome, r: Reply, used: nat,
                                              rest: seq<WriteEvent>, pos': nat, u': nat, len': nat)
    requires len > 0 && Join(pos, u, CWriteRun(isOpen, evs, len)) == o
    requires NoIntrRun(isOpen, evs, len) == Attempt(r, used) && r.Wrote? && r.n > 0
    requires used <= |evs| && rest == evs[used..]
    requires pos' == pos + r.n && u' == u + used && len' + r.n == len
    ensures Join(pos', u', CWriteRun(isOpen, rest, len')) == o
  {
    assert rest == evs[used..] && len' == len - r.n;
    CWriteRunGoesOn(isOpen, evs, len, r, used);
    JoinJoin(pos, u, CWriteRun(isOpen, evs, len), r.n, used, CWriteRun(isOpen, rest, len'), o, pos', u');
  }

  /** A harmless prefix followed by a harmless prefix of the rest is a
      harmless prefix. */
  lemma BenignJoin(evs: seq<WriteEvent>, k: nat, rest: seq<WriteEvent>, m: nat)
    requires k <= |evs| && rest == evs[k..] && m <= |rest|
    requires Benign(evs[..k]) && Benign(rest[..m])
    ensures Benign(evs[..k + m])
  {
    var whole := evs[..k + m];
    forall j | 0 <= j < |whole|
      ensures Harmless(whole[j])
    {
      if j < k {
        assert whole[j] == evs[..k][j];
      } else {
        assert whole[j] == rest[..m][j - k];
      }
    }
  }

  /** What `c_write` promises when no call fails for good and none takes
      zero bytes: the whole length is returned and written, and the script
      left over is as benign. */
  predicate Completed(evs: seq<WriteEvent>, len: nat, o: Outcome)
  {
    o.rc == len && o.written == len && o.used <= |evs| && Benign(evs[o.used..])
  }

  /** Every outcome that `c_write` used but the last was retried past: it
      stops at the first lasting failure or call that wrote nothing. */
  predicate StopsAtFirstFault(evs: seq<WriteEvent>, o: Outcome)
  {
    o.used <= |evs| && (o.used > 0 ==> Benign(evs[..o.used - 1]))
  }

  /** `c_write` returns a negative code exactly when the descriptor is bad or
      its last `write()` call failed with an errno other than EINTR. */
  predicate FailsOnLasting(isOpen: bool, evs: seq<WriteEvent>, len: nat, o: Outcome)
  {
    o.used <= |evs| && (o.rc < 0 <==> len > 0 && (!isOpen || (o.used > 0 && Lasting(evs[o.used - 1]))))
  }

  /** `c_write` returns fewer bytes than asked for, and no error, exactly when
      its last `write()` call wrote nothing. */
  predicate ShortOnZero(isOpen: bool, evs: seq<WriteEvent>, len: nat, o: Outcome)
  {
    o.used <= |evs| && (0 <= o.rc < len <==> len > 0 && isOpen && o.used > 0 && evs[o.used - 1] == Accept(0))
  }

  /** The inductive steps of the lemmas below, stated without `c_write`
      itself: the first `NO_INTR` took `u` outcomes, all harmless, and wrote
      `n` bytes; `o'` is the outcome of the rest of the run, `o` the whole. */
  lemma CompletedStep(evs: seq<WriteEvent>, u: nat, n: nat, rest: seq<WriteEvent>, o': Outcome, o: Outcome,
                      len: nat, len': nat)
    requires u <= |evs| && rest == evs[u..] && o == Join(n, u, o') && len == n + len'
    requires Completed(rest, len', o')
    ensures Completed(evs, len, o)
  {
    DropDrop(evs, u, o'.used, rest[o'.used..]);
  }

  lemma StopsStep(evs: seq<WriteEvent>, u: nat, n: nat, rest: seq<WriteEvent>, o': Outcome, o: Outcome)
    requires u <= |evs| && rest == evs[u..] && o == Join(n, u, o') && Benign(evs[..u])
    requires StopsAtFirstFault(rest, o')
    ensures StopsAtFirstFault(evs, o)
  {
    if o'.used > 0 {
      BenignJoin(evs, u, rest, o'.used - 1);
    } else if u > 0 {
      assert evs[..u - 1] == evs[..u][..u - 1];
    }
  }

  lemma FailsStep(isOpen: bool, evs: seq<WriteEvent>, u: nat, n: nat, rest: seq<WriteEvent>,
                  o': Outcome, o: Outcome, len: nat, len': nat)
    requires isOpen && u <= |evs| && rest == evs[u..] && o == Join(n, u, o') && Benign(evs[..u])
    requires len == n + len' && n > 0 && (len' == 0 ==> o'.used == 0)
    requires FailsOnLasting(isOpen, rest, len', o')
    ensures FailsOnLasting(isOpen, evs, len, o)
  {
    if o'.used > 0 {
      assert evs[o.used - 1] == rest[o'.used - 1];
    } else if u > 0 {
      assert Harmless(evs[..u][u - 1]);
    }
  }

  lemma ShortStep(isOpen: bool, evs: seq<WriteEvent>, u: nat, n: nat, rest: seq<WriteEvent>,
                  o': Outcome, o: Outcome, len: nat, len': nat)
    requires isOpen && u <= |evs| && rest == evs[u..] && o == Join(n, u, o') && Benign(evs[..u])
    requires len == n + len' && n > 0 && (len' == 0 ==> o'.used == 0)
    requires o'.used == 0 ==> o'.rc == len' || !isOpen
    requires ShortOnZero(isOpen, rest, len', o')
    ensures ShortOnZero(isOpen, evs, len, o)
  {
    if o'.used > 0 {
      assert evs[o.used - 1] == rest[o'.used - 1];
    } else if u > 0 {
      assert Harmless(evs[..u][u - 1]);
    }
  }

  /** The same steps, for the run that `c_write` makes: the first `NO_INTR`
      wrote bytes, and the property holds of the rest of the run. */
  lemma CompletedNext(evs: seq<WriteEvent>, len: nat, r: Reply, used: nat)
    requires len > 0 && NoIntrRun(true, evs, len) == Attempt(r, used) && r.Wrote? && r.n > 0
    requires Completed(evs[used..], len - r.n, CWriteRun(true, evs[used..], len - r.n))
    ensures Completed(evs, len, CWriteRun(true, evs, len))
  {
    CWriteRunGoesOn(true, evs, len, r, used);
    CompletedStep(evs, used, r.n, evs[used..], CWriteRun(true, evs[used..], len - r.n), CWriteRun(true, evs, len),
                  len, len - r.n);
  }

  lemma StopsNext(isOpen: bool, evs: seq<WriteEvent>, len: nat, r: Reply, used: nat)
    requires len > 0 && NoIntrRun(isOpen, evs, len) == Attempt(r, used) && r.Wrote? && r.n > 0
    requires StopsAtFirstFault(evs[used..], CWriteRun(isOpen, evs[used..], len - r.n))
    ensures StopsAtFirstFault(evs, CWriteRun(isOpen, evs, len))
  {
    NoIntrVerdict(isOpen, evs, len);
    CWriteRunGoesOn(isOpen, evs, len, r, used);
    StopsStep(evs, used, r.n, evs[used..], CWriteRun(isOpen, evs[used..], len - r.n), CWriteRun(isOpen, evs, len));
  }

  lemma FailsNext(isOpen: bool, evs: seq<WriteEvent>, len: nat, r: Reply, used: nat)
    requires len > 0 && NoIntrRun(isOpen, evs, len) == Attempt(r, used) && r.Wrote? && r.n > 0
    requires FailsOnLasting(isOpen, evs[used..], len - r.n, CWriteRun(isOpen, evs[used..], len - r.n))
    ensures FailsOnLasting(isOpen, evs, len, CWriteRun(isOpen, evs, len))
  {
    NoIntrVerdict(isOpen, evs, len);
    CWriteRunGoesOn(isOpen, evs, len, r, used);
    FailsStep(isOpen, evs, used, r.n, evs[used..], CWriteRun(isOpen, evs[used..], len - r.n), CWriteRun(isOpen, evs, len),
              len, len - r.n);
  }

  lemma ShortNext(isOpen: bool, evs: seq<WriteEvent>, len: nat, r: Reply, used: nat)
    requires len > 0 && NoIntrRun(isOpen, evs, len) == Attempt(r, used) && r.Wrote? && r.n > 0
    requires ShortOnZero(isOpen, evs[used..], len - r.n, CWriteRun(isOpen, evs[used..], len - r.n))
    ensures ShortOnZero(isOpen, evs, len, CWriteRun(isOpen, evs, len))
  {
    NoIntrVerdict(isOpen, evs, len);
    CWriteRunGoesOn(isOpen, evs, len, r, used);
    ShortStep(isOpen, evs, used, r.n, evs[used..], CWriteRun(isOpen, evs[used..], len - r.n), CWriteRun(isOpen, evs, len),
              len, len - r.n);
  }

  /** The base cases: the first `NO_INTR` failed or wrote nothing, and
      `c_write` stops there. */
  lemma StopsEnd(isOpen: bool, evs: seq<WriteEvent>, len: nat, r: Reply, used: nat)
    requires len > 0 && NoIntrRun(isOpen, evs, len) == Attempt(r, used) && !(r.Wrote? && r.n > 0)
    ensures StopsAtFirstFault(evs, CWriteRun(isOpen, evs, len))
  {
    NoIntrVerdict(isOpen, evs, len);
    CWriteRunStep(isOpen, evs, len, r, used);
  }

  lemma FailsEnd(isOpen: bool, evs: seq<WriteEvent>, len: nat, r: Reply, used: nat)
    requires len > 0 && NoIntrRun(isOpen, evs, len) == Attempt(r, used) && !(r.Wrote? && r.n > 0)
    ensures FailsOnLasting(isOpen, evs, len, CWriteRun(isOpen, evs, len))
  {
    NoIntrVerdict(isOpen, evs, len);
    CWriteRunStep(isOpen, evs, len, r, used);
  }

  lemma ShortEnd(isOpen: bool, evs: seq<WriteEvent>, len: nat, r: Reply, used: nat)
    requires len > 0 && NoIntrRun(isOpen, evs, len) == Attempt(r, used) && !(r.Wrote? && r.n > 0)
    ensures ShortOnZero(isOpen, evs, len, CWriteRun(isOpen, evs, len))
  {
    NoIntrVerdict(isOpen, evs, len);
    CWriteRunStep(isOpen, evs, len, r, used);
  }

  /** `c_write` never reports an interruption and never writes short when no
      call fails for good and none takes zero bytes. */
  lemma {:induction false} CWriteRunCompletes(evs: seq<WriteEvent>, len: nat)
    requires Benign(evs)
    ensures Completed(evs, len, CWriteRun(true, evs, len))
    decreases |evs|, len
  {
    if len > 0 {
      NoIntrBenign(evs, len);
      var a := NoIntrRun(true, evs, len);
      var r, used := a.reply, a.used;
      assert NoIntrRun(true, evs, len) == Attempt(r, used);
      CWriteRunCompletes(evs[used..], len - r.n);
      CompletedNext(evs, len, r, used);
    }
  }

  lemma {:induction false} CWriteRunStopsAtFirstFault(isOpen: bool, evs: seq<WriteEvent>, len: nat)
    ensures StopsAtFirstFault(evs, CWriteRun(isOpen, evs, len))
    decreases |evs|, len
  {
    if len > 0 {
      var a := NoIntrRun(isOpen, evs, len);
      var r, used := a.reply, a.used;
      assert NoIntrRun(isOpen, evs, len) == Attempt(r, used);
      if r.Wrote? && r.n > 0 {
        CWriteRunStopsAtFirstFault(isOpen, evs[used..], len - r.n);
        StopsNext(isOpen, evs, len, r, used);
      } else {
        StopsEnd(isOpen, evs, len, r, used);
      }
    }
  }

  lemma {:induction false} CWriteRunFails(isOpen: bool, evs: seq<WriteEvent>, len: nat)
    ensures FailsOnLasting(isOpen, evs, len, CWriteRun(isOpen, evs, len))
    decreases |evs|, len
  {
    if len > 0 {
      var a := NoIntrRun(isOpen, evs, len);
      var r, used := a.reply, a.used;
      assert NoIntrRun(isOpen, evs, len) == Attempt(r, used);
      if r.Wrote? && r.n > 0 {
        CWriteRunFails(isOpen, evs[used..], len - r.n);
        FailsNext(isOpen, evs, len, r, used);
      } else {
        FailsEnd(isOpen, evs, len, r, used);
      }
    }
  }

  lemma {:induction false} CWriteRunShort(isOpen: bool, evs: seq<WriteEvent>, len: nat)
    ensures ShortOnZero(isOpen, evs, len, CWriteRun(isOpen, evs, len))
    decreases |evs|, len
  {
    if len > 0 {
      var a := NoIntrRun(isOpen, evs, len);
      var r, used := a.reply, a.used;
      assert NoIntrRun(isOpen, evs, len) == Attempt(r, used);
      if r.Wrote? && r.n > 0 {
        CWriteRunShort(isOpen, evs[used..], len - r.n);
        ShortNext(isOpen, evs, len, r, used);
      } else {
        ShortEnd(isOpen, evs, len, r, used);
      }
    }
  }

  /** `c_write` on the descriptor -1 that a failed `open()` leaves: nothing
      is written and any non-empty write returns -1. */
  lemma {:induction false} CWriteRunBadDescriptor(evs: seq<WriteEvent>, len: nat)
    ensures CWriteRun(false, evs, len) == Outcome(if len == 0 then 0 else -1, 0, 0)
  {
    if len > 0 {
      assert NoIntrRun(false, evs, len) == Attempt(Failed(EBADF), 0);
    }
  }

  /** When the very first `write()` fails for good, `c_write` returns -1 at
      once, having written nothing. */
  lemma {:induction false} CWriteRunFirstFails(evs: seq<WriteEvent>, len: nat)
    requires len > 0 && evs != [] && Lasting(evs[0])
    ensures CWriteRun(true, evs, len) == Outcome(-1, 0, 1)
  {
    assert NoIntrRun(true, evs, len) == Attempt(Failed(evs[0].err), 1);
  }

  /** Dropping `a` elements and then `b` more drops `a + b`. */
  lemma DropDrop<T>(s: seq<T>, a: nat, b: nat, rest: seq<T>)
    requires a <= |s| && b <= |s| - a && rest == s[a..][b..]
    ensures rest == s[a + b..]
  {
  }

  /** Appending the next `n` bytes of `buf` to a copy of its first `pos`. */
  lemma AppendSlices<T>(buf: seq<T>, pos: nat, n: nat, c0: seq<T>, before: seq<T>, after: seq<T>, pos': nat)
    requires pos + n <= |buf| && pos' == pos + n
    requires before == c0 + buf[..pos] && after == before + buf[pos..][..n]
    ensures after == c0 + buf[..pos']
  {
    assert buf[pos..][..n] == buf[pos..pos'];
    assert buf[..pos'] == buf[..pos] + buf[pos..pos'];
  }

  /** What one `write()` call inside NO_INTR decides: an interruption leaves
      the rest to the calls after it, any other reply ends the attempt. */
  lemma NoIntrFirst(isOpen: bool, evs: seq<WriteEvent>, len: nat, r: Reply)
    requires r == WriteCall(isOpen, evs, len)
    ensures r == Failed(EINTR) ==>
      Consumed(isOpen, evs) == 1 && NoIntrRun(isOpen, evs, len) == Shift(1, NoIntrRun(isOpen, evs[1..], len))
    ensures r != Failed(EINTR) ==> NoIntrRun(isOpen, evs, len) == Attempt(r, Consumed(isOpen, evs))
  {
  }

  /** One more pass of the NO_INTR loop keeps its account of the attempt. */
  lemma NoIntrAgain(isOpen: bool, f0: seq<WriteEvent>, evs: seq<WriteEvent>, len: nat,
                    used0: nat, r: Reply, used: nat)
    requires NoIntrRun(isOpen, f0, len) == Shift(used0, NoIntrRun(isOpen, evs, len))
    requires used == used0 + Consumed(isOpen, evs)
    requires r == Failed(EINTR) ==>
      Consumed(isOpen, evs) == 1 && NoIntrRun(isOpen, evs, len) == Shift(1, NoIntrRun(isOpen, evs[1..], len))
    requires r != Failed(EINTR) ==> NoIntrRun(isOpen, evs, len) == Attempt(r, Consumed(isOpen, evs))
    ensures r == Failed(EINTR) ==> NoIntrRun(isOpen, f0, len) == Shift(used, NoIntrRun(isOpen, evs[Consumed(isOpen, evs)..], len))
    ensures r != Failed(EINTR) ==> NoIntrRun(isOpen, f0, len) == Attempt(r, used)
  {
  }

  /** `NO_INTR(rc = write(f, buf, len))`: the call is repeated while it fails
      with EINTR; `used` counts the scripted outcomes the calls took. */
  method NoIntrWrite(f: OutputFile, buf: seq<Byte>) returns (r: Reply, ghost used: nat)
    modifies f
    ensures Attempt(r, used) == NoIntrRun(old(f.isOpen), old(f.faults), |buf|)
    ensures f.faults == old(f.faults)[used..]
    ensures f.contents == old(f.contents) + buf[..Written(r)]
    ensures f.isOpen == old(f.isOpen)
  {
    ghost var open, f0, n := f.isOpen, f.faults, |buf|;
    ghost var evs := f.faults;
    r := f.Write(buf);
    used := Consumed(open, evs);
    NoIntrFirst(open, evs, n, r);
    while r == Failed(EINTR)
      invariant used <= |f0| && f.faults == f0[used..]
      invariant Written(r) <= |buf|
      invariant f.contents == old(f.contents) + buf[..Written(r)]
      invariant f.isOpen == open
      invariant r == Failed(EINTR) ==> NoIntrRun(open, f0, n) == Shift(used, NoIntrRun(open, f.faults, n))
      invariant r != Failed(EINTR) ==> NoIntrRun(open, f0, n) == Attempt(r, used)
      decreases |f.faults| + (if r == Failed(EINTR) then 1 else 0)
    {
      evs := f.faults;
      ghost var used0 := used;
      r := f.Write(buf);
      used := used + Consumed(open, evs);
      NoIntrFirst(open, evs, n, r);
      NoIntrAgain(open, f0, evs, n, used0, r, used);
      DropDrop(f0, used0, Consumed(open, evs), f.faults);
    }
  }

  /** `c_write(f, buf, len)`. The advancing `buf` of the source becomes
      the index `pos` of the first byte not yet written. */
  method CWrite(f: OutputFile, buf: seq<Byte>) returns (rc: int)
    modifies f
    ensures rc == CWriteRun(old(f.isOpen), old(f.faults), |buf|).rc
    ensures f.contents == old(f.contents) + buf[..CWriteRun(old(f.isOpen), old(f.faults), |buf|).written]
    ensures f.faults == old(f.faults)[CWriteRun(old(f.isOpen), old(f.faults), |buf|).used..]
    ensures f.isOpen == old(f.isOpen)
  {
    ghost var open := f.isOpen;
    ghost var o := CWriteRun(open, f.faults, |buf|);
    ghost var c0, f0 := f.contents, f.faults;
    ghost var u: nat := 0;
    var pos: nat := 0;
    var len: nat := |buf|;
    while len > 0
      invariant pos + len == |buf|
      invariant u <= |f0| && f.faults == f0[u..]
      invariant f.contents == c0 + buf[..pos]
      invariant f.isOpen == open
      invariant Join(pos, u, CWriteRun(open, f.faults, len)) == o
      decreases |f.faults|, len
    {
      ghost var evs, before := f.faults, f.contents;
      assert |buf[pos..]| == len;
      var r, used := NoIntrWrite(f, buf[pos..]);
      assert NoIntrRun(open, evs, len) == Attempt(r, used) && f.faults == evs[used..];
      if r.Failed? {
        CWriteRunStep(open, evs, len, r, used);
        return -1;
      } else if r.n == 0 {
        CWriteRunStep(open, evs, len, r, used);
        break;
      }
      ghost var pos0, u0, len0 := pos, u, len;
      assert before == c0 + buf[..pos0] && f.contents == before + buf[pos0..][..r.n];
      u := u + used;
      pos := pos + r.n;
      len := len - r.n;
      CWriteRunContinues(open, evs, len0, pos0, u0, o, r, used, f.faults, pos, u, len);
      DropDrop(f0, u0, used, f.faults);
      AppendSlices(buf, pos0, r.n, c0, before, f.contents, pos);
    }
    return pos;
  }
}
