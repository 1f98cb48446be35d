/** Where a piece lies inside a byte string. The layout lemmas of the core
    file are all stated with `At`, so that a reader of one part of the file
    need not unfold how the other parts were built. */
module Slices {

  /** `part` occurs in `s` starting at offset `off`. */
  ghost predicate At<T>(s: seq<T>, off: nat, part: seq<T>)
  {
    off + |part| <= |s| && forall k :: 0 <= k < |part| ==> s[off + k] == part[k]
  }

  lemma AtWhole<T>(s: seq<T>)
    ensures At(s, 0, s)
  {
  }

  lemma AtLeft<T>(a: seq<T>, b: seq<T>, off: nat, part: seq<T>)
    requires At(a, off, part)
    ensures At(a + b, off, part)
  {
  }

  lemma AtRight<T>(a: seq<T>, b: seq<T>, off: nat, part: seq<T>)
    requires At(b, off, part)
    ensures At(a + b, |a| + off, part)
  {
  }

  /** The slice of `s` where `part` lies is `part`. */
  lemma AtSlice<T>(s: seq<T>, off: nat, part: seq<T>)
    requires At(s, off, part)
    ensures s[off .. off + |part|] == part
  {
  }

  /** The same, for a slice whose bounds are given. */
  lemma AtRange<T>(s: seq<T>, off: nat, part: seq<T>, end: nat)
    requires At(s, off, part) && end == off + |part|
    ensures s[off .. end] == part
  {
    assert s[off .. end] == part;
  }

  /** The same, for a prefix. */
  lemma AtPrefix<T>(s: seq<T>, part: seq<T>, end: nat)
    requires At(s, 0, part) && end == |part|
    ensures s[..end] == part
  {
    assert s[..end] == part;
  }

  /** The same, for a suffix. */
  lemma AtSuffix<T>(s: seq<T>, off: nat, part: seq<T>)
    requires At(s, off, part) && off + |part| == |s|
    ensures s[off..] == part
  {
    assert s[off..] == part;
  }

  /** A piece of a piece lies in the whole at the sum of the offsets. */
  lemma AtWithin<T>(s: seq<T>, o1: nat, t: seq<T>, o2: nat, u: seq<T>, off: nat)
    requires At(s, o1, t) && At(t, o2, u) && off == o1 + o2
    ensures At(s, off, u)
  {
    forall k | 0 <= k < |u|
      ensures s[off + k] == u[k]
    {
      assert t[o2 + k] == u[k];
      assert s[o1 + (o2 + k)] == t[o2 + k];
    }
  }

  /** The bytes of a string from `off` on are the bytes of the piece found
      there, one by one. */
  lemma AtIndex<T>(s: seq<T>, off: nat, part: seq<T>, k: nat)
    requires At(s, off, part) && k < |part|
    ensures s[off + k] == part[k]
  {
    assert s[off .. off + |part|][k] == s[off + k];
  }

  /** Where each of two consecutive parts lies in their concatenation. */
  lemma Parts2<T>(a: seq<T>, b: seq<T>, ob: nat)
    requires ob == |a|
    ensures At(a + b, 0, a) && At(a + b, ob, b)
  {
    AtWhole(a);
    AtWhole(b);
    AtLeft(a, b, 0, a);
    AtRight(a, b, 0, b);
  }

  /** Where each of three consecutive parts lies in their concatenation. */
  lemma Parts3<T>(a: seq<T>, b: seq<T>, c: seq<T>, ob: nat, oc: nat)
    requires ob == |a| && oc == |a| + |b|
    ensures At(a + b + c, 0, a) && At(a + b + c, ob, b) && At(a + b + c, oc, c)
  {
    Parts2(a, b, ob);
    AtLeft(a + b, c, 0, a);
    AtLeft(a + b, c, ob, b);
    Parts2(a + b, c, oc);
  }

  /** The parts laid end to end, in order. */
  function Concat<T>(parts: seq<seq<T>>): seq<T>
  {
    if parts == [] then [] else Concat(parts[..|parts| - 1]) + parts[|parts| - 1]
  }

  /** Appending one more part to a prefix of the parts. */
  lemma ConcatSnoc<T>(parts: seq<seq<T>>, i: nat)
    requires i < |parts|
    ensures Concat(parts[..i + 1]) == Concat(parts[..i]) + parts[i]
  {
    assert parts[..i + 1][..i] == parts[..i];
  }

  /** Part `i` lies just after the parts before it. */
  lemma {:induction false} ConcatAt<T>(parts: seq<seq<T>>, i: nat)
    requires i < |parts|
    ensures At(Concat(parts), |Concat(parts[..i])|, parts[i])
  {
    var n := |parts| - 1;
    var init := parts[..n];
    if i == n {
      assert init == parts[..i];
      AtWhole(parts[i]);
      AtRight(Concat(init), parts[i], 0, parts[i]);
    } else {
      assert init[i] == parts[i] && init[..i] == parts[..i];
      ConcatAt(init, i);
      AtLeft(Concat(init), parts[n], |Concat(parts[..i])|, parts[i]);
    }
  }

  /** Parts of one common length `k` take `k` bytes each. */
  lemma {:induction false} ConcatUniform<T>(parts: seq<seq<T>>, k: nat)
    requires forall j :: 0 <= j < |parts| ==> |parts[j]| == k
    ensures |Concat(parts)| == |parts| * k
  {
    if parts != [] {
      var n := |parts| - 1;
      ConcatUniform(parts[..n], k);
      assert n * k + k == |parts| * k;
    }
  }

  /** With parts of one common length `k`, part `i` starts at `i * k`. */
  lemma ConcatUniformAt<T>(parts: seq<seq<T>>, k: nat, i: nat)
    requires forall j :: 0 <= j < |parts| ==> |parts[j]| == k
    requires i < |parts|
    ensures At(Concat(parts), i * k, parts[i])
  {
    ConcatAt(parts, i);
    ConcatUniform(parts[..i], k);
  }

  // ---- Prefixes ------------------------------------------------------------

  lemma PrefixTrans<T>(a: seq<T>, b: seq<T>, c: seq<T>)
    requires a <= b && b <= c
    ensures a <= c
  {
    assert a == b[..|a|] && b == c[..|b|];
    assert c[..|b|][..|a|] == c[..|a|];
  }

  /** A common head keeps one string a prefix of another. */
  lemma PrefixAfter<T>(h: seq<T>, a: seq<T>, b: seq<T>)
    requires a <= b
    ensures h + a <= h + b
  {
    assert a == b[..|a|];
    assert (h + b)[..|h + a|] == h + a;
  }

  /** The first `i` parts laid end to end are a prefix of all of them. */
  lemma {:induction false} ConcatPrefix<T>(parts: seq<seq<T>>, i: nat)
    requires i <= |parts|
    ensures Concat(parts[..i]) <= Concat(parts)
    decreases |parts| - i
  {
    if i == |parts| {
      assert parts[..i] == parts;
    } else {
      ConcatPrefix(parts, i + 1);
      ConcatSnoc(parts, i);
      PrefixTrans(Concat(parts[..i]), Concat(parts[..i + 1]), Concat(parts));
    }
  }

  /** Adding part `i` to the first `i` parts gives the first `i + 1`, still a
      prefix of all of them. */
  lemma {:induction false} ConcatGrows<T>(parts: seq<seq<T>>, i: nat)
    requires i < |parts|
    ensures Concat(parts[..i]) + parts[i] == Concat(parts[..i + 1])
    ensures Concat(parts[..i + 1]) <= Concat(parts)
  {
    ConcatSnoc(parts, i);
    ConcatPrefix(parts, i + 1);
  }
  /** Two runs of parts, laid end to end, give the two layouts one after the other. */
  lemma {:induction false} ConcatAppend<T>(a: seq<seq<T>>, b: seq<seq<T>>)
    ensures Concat(a + b) == Concat(a) + Concat(b)
    decreases |b|
  {
    if b == [] {
      assert a + b == a;
    } else {
      var n := |b| - 1;
      assert (a + b)[..|a + b| - 1] == a + b[..n];
      ConcatAppend(a, b[..n]);
    }
  }

  /** A single part laid out is that part. */
  lemma ConcatOne<T>(x: seq<T>)
    ensures Concat([x]) == x
  {
    assert [x][..0] == [];
  }

  /** Laying out groups of parts, and then the groups, is laying out what
      each group comes to. */
  lemma {:induction false} ConcatFlatten<T>(pp: seq<seq<seq<T>>>, q: seq<seq<T>>)
    requires |pp| == |q|
    requires forall i :: 0 <= i < |pp| ==> Concat(pp[i]) == q[i]
    ensures Concat(Concat(pp)) == Concat(q)
  {
    if pp != [] {
      var n := |pp| - 1;
      ConcatFlatten(pp[..n], q[..n]);
      ConcatAppend(Concat(pp[..n]), pp[n]);
    }
  }
}
