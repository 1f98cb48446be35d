/** Bytes and the fixed-width integer fields of the 32-bit ELF format.

    The dumper writes its header structs straight from memory, so every
    multi-byte field reaches the file in the host's byte order. The codec
    below is parameterised by that order (`big` is true on a big-endian
    host). A value wider than its field is truncated, as the C assignment
    to an Elf32_Half or Elf32_Word field truncates it. */
module Encoding {

  type Byte = b: int | 0 <= b < 256

  /** `n` zero bytes, what `memset(buf, 0, n)` leaves in a buffer. */
  function Zeros(n: nat): (z: seq<Byte>)
    ensures |z| == n
  {
    seq(n, _ => 0)
  }

  /** The two field widths of ELF32: Elf32_Half, and Elf32_Word/Addr/Off. */
  datatype Width = Half | Word

  function Size(w: Width): nat
  {
    if w == Half then 2 else 4
  }

  function Bound(w: Width): nat
  {
    if w == Half then 0x1_0000 else 0x1_0000_0000
  }

  /** What a field of width `w` keeps of `v`: its low 16 or 32 bits. */
  function Truncate(v: nat, w: Width): (x: nat)
    ensures x < Bound(w)
    ensures v < Bound(w) ==> x == v
  {
    if w == Half then v % 0x1_0000 else v % 0x1_0000_0000
  }

  function Reverse(s: seq<Byte>): (r: seq<Byte>)
    ensures |r| == |s|
    ensures forall i :: 0 <= i < |s| ==> r[i] == s[|s| - 1 - i]
  {
    seq(|s|, i requires 0 <= i < |s| => s[|s| - 1 - i])
  }

  /** Least significant byte first, after truncation to the field width. */
  function LittleEndian(v: nat, w: Width): seq<Byte>
  {
    if w == Half then
      var x := v % 0x1_0000;
      [x % 256, x / 256]
    else
      var x := v % 0x1_0000_0000;
      [x % 256, x / 256 % 256, x / 0x1_0000 % 256, x / 0x100_0000]
  }

  function FromLittleEndian(bs: seq<Byte>, w: Width): nat
    requires |bs| == Size(w)
  {
    var b0, b1 := bs[0] as int, bs[1] as int;
    if w == Half then b0 + 256 * b1
    else b0 + 256 * b1 + 0x1_0000 * (bs[2] as int) + 0x100_0000 * (bs[3] as int)
  }

  /** The bytes a field of width `w` holding `v` occupies in memory. */
  function EncodeField(v: nat, w: Width, big: bool): (bs: seq<Byte>)
    ensures |bs| == Size(w)
  {
    var le := LittleEndian(v, w);
    if big then Reverse(le) else le
  }

  /** The value a reader of the given byte order takes from a field. */
  function DecodeField(bs: seq<Byte>, w: Width, big: bool): (v: nat)
    requires |bs| == Size(w)
    ensures v < Bound(w)
  {
    FromLittleEndian(if big then Reverse(bs) else bs, w)
  }

  lemma ReverseReverse(s: seq<Byte>)
    ensures Reverse(Reverse(s)) == s
  {
  }

  /** Reading a field back gives the value truncated to the field width. */
  lemma DecodeEncodeField(v: nat, w: Width, big: bool)
    ensures DecodeField(EncodeField(v, w, big), w, big) == Truncate(v, w)
  {
    var le := LittleEndian(v, w);
    DigitsOfLittleEndian(v, w);
    if big {
      ReverseReverse(le);
    }
  }

  lemma DigitsOfLittleEndian(v: nat, w: Width)
    ensures FromLittleEndian(LittleEndian(v, w), w) == Truncate(v, w)
  {
    if w == Word {
      Split4(v % 0x1_0000_0000);
    }
  }

  /** A 32-bit value is the sum of its four bytes, each at its weight. */
  lemma Split4(x: nat)
    requires x < 0x1_0000_0000
    ensures x == x % 256 + 256 * (x / 256 % 256) + 0x1_0000 * (x / 0x1_0000 % 256) + 0x100_0000 * (x / 0x100_0000)
  {
    var q1 := x / 256;
    var q2 := q1 / 256;
    assert x / 0x1_0000 == q2;
    assert x / 0x100_0000 == q2 / 256;
  }

  lemma LittleEndianOfDigits(le: seq<Byte>, w: Width)
    requires |le| == Size(w)
    ensures LittleEndian(FromLittleEndian(le, w), w) == le
  {
    var x := FromLittleEndian(le, w);
    if w == Half {
      Digits2(le[0], le[1]);
      assert x % 0x1_0000 == x;
      assert le == [le[0], le[1]];
    } else {
      Digits4(le[0], le[1], le[2], le[3]);
      assert x % 0x1_0000_0000 == x;
      assert le == [le[0], le[1], le[2], le[3]];
    }
  }

  /** Every byte string of the right length is the encoding of the value it decodes to. */
  lemma EncodeDecodeField(bs: seq<Byte>, w: Width, big: bool)
    requires |bs| == Size(w)
    ensures EncodeField(DecodeField(bs, w, big), w, big) == bs
  {
    var le := if big then Reverse(bs) else bs;
    LittleEndianOfDigits(le, w);
    if big {
      ReverseReverse(bs);
    }
  }

  lemma Digits2(b0: int, b1: int)
    requires 0 <= b0 < 256 && 0 <= b1 < 256
    ensures var x := b0 + 256 * b1; x < 0x1_0000 && x % 256 == b0 && x / 256 == b1
  {
  }

  lemma Digits4(b0: int, b1: int, b2: int, b3: int)
    requires 0 <= b0 < 256 && 0 <= b1 < 256 && 0 <= b2 < 256 && 0 <= b3 < 256
    ensures var x := b0 + 256 * b1 + 0x1_0000 * b2 + 0x100_0000 * b3;
      && x < 0x1_0000_0000 && x % 256 == b0 && x / 256 % 256 == b1
      && x / 0x1_0000 % 256 == b2 && x / 0x100_0000 == b3
  {
    var x := b0 + 256 * b1 + 0x1_0000 * b2 + 0x100_0000 * b3;
    assert x / 256 == b1 + 256 * b2 + 0x1_0000 * b3;
    assert x / 0x1_0000 == b2 + 256 * b3;
  }

  lemma EncodeZeroField(w: Width, big: bool)
    ensures EncodeField(0, w, big) == Zeros(Size(w))
  {
  }

  function TotalSize(ws: seq<Width>): nat
  {
    if ws == [] then 0 else Size(ws[0]) + TotalSize(ws[1..])
  }

  /** Whether every value fits its field, so that no truncation happens. */
  predicate Fit(vs: seq<nat>, ws: seq<Width>)
    requires |vs| == |ws|
  {
    forall i :: 0 <= i < |vs| ==> vs[i] < Bound(ws[i])
  }

  /** A record whose fields have widths `ws`, laid out without padding. */
  function EncodeFields(vs: seq<nat>, ws: seq<Width>, big: bool): (bs: seq<Byte>)
    requires |vs| == |ws|
    ensures |bs| == TotalSize(ws)
  {
    if ws == [] then [] else EncodeField(vs[0], ws[0], big) + EncodeFields(vs[1..], ws[1..], big)
  }

  function DecodeFields(bs: seq<Byte>, ws: seq<Width>, big: bool): (vs: seq<nat>)
    requires |bs| == TotalSize(ws)
    ensures |vs| == |ws|
  {
    if ws == [] then []
    else
      var k := Size(ws[0]);
      [DecodeField(bs[..k], ws[0], big)] + DecodeFields(bs[k..], ws[1..], big)
  }

  /** Decoding an encoded record gives back its fields when they fit their widths. */
  lemma {:induction false} DecodeEncodeFields(vs: seq<nat>, ws: seq<Width>, big: bool)
    requires |vs| == |ws| && Fit(vs, ws)
    ensures DecodeFields(EncodeFields(vs, ws, big), ws, big) == vs
  {
    if ws != [] {
      var bs := EncodeFields(vs, ws, big);
      var k := Size(ws[0]);
      assert bs[..k] == EncodeField(vs[0], ws[0], big);
      assert bs[k..] == EncodeFields(vs[1..], ws[1..], big);
      DecodeEncodeField(vs[0], ws[0], big);
      assert Fit(vs[1..], ws[1..]) by {
        forall i | 0 <= i < |vs| - 1
          ensures vs[1..][i] < Bound(ws[1..][i])
        {
          assert vs[1..][i] == vs[i + 1];
        }
      }
      DecodeEncodeFields(vs[1..], ws[1..], big);
    }
  }

  /** The fields of a record as its bytes hold them: each cut to its width. */
  function TruncateFields(vs: seq<nat>, ws: seq<Width>): (cut: seq<nat>)
    requires |vs| == |ws|
    ensures |cut| == |vs|
  {
    seq(|vs|, i requires 0 <= i < |vs| => Truncate(vs[i], ws[i]))
  }

  /** Decoding an encoded record gives back its fields, each cut to its width. */
  lemma {:induction false} DecodeEncodeFieldsCut(vs: seq<nat>, ws: seq<Width>, big: bool)
    requires |vs| == |ws|
    ensures DecodeFields(EncodeFields(vs, ws, big), ws, big) == TruncateFields(vs, ws)
  {
    if ws != [] {
      var bs := EncodeFields(vs, ws, big);
      var k := Size(ws[0]);
      assert bs[..k] == EncodeField(vs[0], ws[0], big);
      assert bs[k..] == EncodeFields(vs[1..], ws[1..], big);
      DecodeEncodeField(vs[0], ws[0], big);
      DecodeEncodeFieldsCut(vs[1..], ws[1..], big);
      assert TruncateFields(vs, ws) == [Truncate(vs[0], ws[0])] + TruncateFields(vs[1..], ws[1..]);
    }
  }

  /** A record is its first field followed by the rest. */
  lemma EncodeFieldsCons(v: nat, vs: seq<nat>, w: Width, ws: seq<Width>, big: bool)
    requires |vs| == |ws|
    ensures EncodeFields([v] + vs, [w] + ws, big) == EncodeField(v, w, big) + EncodeFields(vs, ws, big)
  {
    assert ([v] + vs)[1..] == vs && ([w] + ws)[1..] == ws;
  }

  /** Encoding what was decoded reproduces the bytes. */
  lemma {:induction false} EncodeDecodeFields(bs: seq<Byte>, ws: seq<Width>, big: bool)
    requires |bs| == TotalSize(ws)
    ensures EncodeFields(DecodeFields(bs, ws, big), ws, big) == bs
  {
    if ws != [] {
      var k := Size(ws[0]);
      assert bs == bs[..k] + bs[k..];
      var v := DecodeField(bs[..k], ws[0], big);
      var rest := DecodeFields(bs[k..], ws[1..], big);
      assert DecodeFields(bs, ws, big) == [v] + rest;
      assert ws == [ws[0]] + ws[1..];
      EncodeFieldsCons(v, rest, ws[0], ws[1..], big);
      EncodeDecodeField(bs[..k], ws[0], big);
      EncodeDecodeFields(bs[k..], ws[1..], big);
    }
  }

  /** A record of zero fields is all zero bytes, whatever the byte order. */
  lemma {:induction false} EncodeZeroFields(vs: seq<nat>, ws: seq<Width>, big: bool)
    requires |vs| == |ws|
    requires forall i :: 0 <= i < |vs| ==> vs[i] == 0
    ensures EncodeFields(vs, ws, big) == Zeros(TotalSize(ws))
  {
    if ws != [] {
      EncodeZeroField(ws[0], big);
      EncodeZeroFields(vs[1..], ws[1..], big);
    }
  }
}
