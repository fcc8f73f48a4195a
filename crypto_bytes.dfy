// crypto::Bytes (system/ulib/crypto/include/crypto/bytes.h): a buffer of
// bytes with an owned allocation, resized, filled, copied into and compared
// as its doc comments promise, and incremented as a big-endian unsigned
// integer. Allocation failure is a parameter; random data is given.
module CryptoBytes {
  import opened Zx

  newtype byte = x: int | 0 <= x < 256

  /** `n` copies of `b`. */
  function Fill(n: nat, b: byte): (s: seq<byte>)
    ensures |s| == n && forall i :: 0 <= i < n ==> s[i] == b
  {
    seq(n, _ => b)
  }

  /** The contents after Resize(size, fill): truncated when shorter, padded
      with `fill` when longer. */
  function Resized(s: seq<byte>, size: nat, fill: byte): (r: seq<byte>)
    ensures |r| == size
    ensures forall i :: 0 <= i < size && i < |s| ==> r[i] == s[i]
    ensures forall i :: |s| <= i < size ==> r[i] == fill
  {
    if size <= |s| then s[..size] else s + Fill(size - |s|, fill)
  }

  /** The contents after Copy(data, |data|, off): bytes [off, off + |data|)
      are `data`, the rest keep their values, and a buffer too short for
      them grows first (padded with zeros). */
  function Copied(s: seq<byte>, data: seq<byte>, off: nat): (r: seq<byte>)
    ensures |data| > 0 ==> |r| == Max(|s|, off + |data|)
    ensures |data| == 0 ==> r == s
    ensures forall i :: 0 <= i < |data| ==> r[off + i] == data[i]
    ensures forall i :: 0 <= i < |r| && i < |s| && !(off <= i < off + |data|) ==> r[i] == s[i]
    ensures forall i :: |s| <= i < |r| && !(off <= i < off + |data|) ==> r[i] == 0
  {
    if |data| == 0 then s
    else
      var grown := if |s| < off + |data| then Resized(s, off + |data|, 0) else s;
      grown[..off] + data + grown[off + |data|..]
  }

  function Max(a: nat, b: nat): nat
  {
    if a < b then b else a
  }

  /** Shrinking and then growing, or growing and then shrinking back,
      Resize keeps the bytes both lengths cover. */
  lemma ResizeBack(s: seq<byte>, size: nat, fill: byte)
    requires |s| <= size
    ensures Resized(Resized(s, size, fill), |s|, fill) == s
  {
  }

  /** Copying into a buffer and reading the copied range back gives the
      data. */
  lemma CopyReadsBack(s: seq<byte>, data: seq<byte>, off: nat)
    ensures |data| > 0 ==> Copied(s, data, off)[off..off + |data|] == data
  {
    var r := Copied(s, data, off);
    if |data| > 0 {
      var w := r[off..off + |data|];
      assert forall i :: 0 <= i < |data| ==> w[i] == r[off + i];
    }
  }

  // The contents as a big-endian number.

  function Pow256(n: nat): (p: nat)
    ensures p >= 1
  {
    if n == 0 then 1 else 256 * Pow256(n - 1)
  }

  /** The big-endian unsigned value of `s`. */
  function BeValue(s: seq<byte>): nat
  {
    if s == [] then 0 else BeValue(s[..|s| - 1]) * 256 + s[|s| - 1] as nat
  }

  /** `n` bytes hold values below 256^n. */
  lemma {:induction false} BeBound(s: seq<byte>)
    ensures BeValue(s) < Pow256(|s|)
  {
    if s != [] {
      BeBound(s[..|s| - 1]);
      assert BeValue(s) <= (Pow256(|s| - 1) - 1) * 256 + 255;
    }
  }

  /** The value of a concatenation: the high part shifted past the low
      one. */
  lemma {:induction false} BeConcat(p: seq<byte>, q: seq<byte>)
    ensures BeValue(p + q) == BeValue(p) * Pow256(|q|) + BeValue(q)
    decreases |q|
  {
    if q == [] {
      assert p + q == p;
    } else {
      var q' := q[..|q| - 1];
      assert (p + q)[..|p + q| - 1] == p + q';
      BeConcat(p, q');
      calc {
        BeValue(p + q);
        BeValue(p + q') * 256 + q[|q| - 1] as nat;
        (BeValue(p) * Pow256(|q'|) + BeValue(q')) * 256 + q[|q| - 1] as nat;
        { assert (BeValue(p) * Pow256(|q'|)) * 256 == BeValue(p) * (256 * Pow256(|q'|)); }
        BeValue(p) * Pow256(|q|) + BeValue(q);
      }
    }
  }

  /** `k` bytes of 0xff are 256^k - 1. */
  lemma {:induction false} BeAllOnes(k: nat)
    ensures BeValue(Fill(k, 255)) == Pow256(k) - 1
  {
    if k > 0 {
      assert Fill(k, 255)[..k - 1] == Fill(k - 1, 255);
      BeAllOnes(k - 1);
    }
  }

  /** `k` zero bytes are 0. */
  lemma {:induction false} BeZeros(k: nat)
    ensures BeValue(Fill(k, 0)) == 0
  {
    if k > 0 {
      assert Fill(k, 0)[..k - 1] == Fill(k - 1, 0);
      BeZeros(k - 1);
    }
  }

  /** Adding one carries through the trailing 0xff bytes: they become zero
      and the byte before them goes up by one. */
  lemma CarryStep(p: seq<byte>, b: byte, k: nat)
    requires b < 255
    ensures BeValue(p + [b + 1] + Fill(k, 0)) == BeValue(p + [b] + Fill(k, 255)) + 1
  {
    BeConcat(p + [b + 1], Fill(k, 0));
    BeConcat(p + [b], Fill(k, 255));
    BeConcat(p, [b + 1]);
    BeConcat(p, [b]);
    BeZeros(k);
    BeAllOnes(k);
    assert BeValue([b + 1]) == b as nat + 1 && BeValue([b]) == b as nat by {
      assert [b + 1][..0] == [] && [b][..0] == [];
    }
    var v := BeValue(p) * 256;
    var m := Pow256(k);
    assert (v + b as nat + 1) * m + 0 == (v + b as nat) * m + (m - 1) + 1;
  }

  /** A byte buffer. `buf` is the allocated buffer; its length is len(). */
  class Bytes {
    var buf: seq<byte>

    /** Bytes(): an empty buffer with nothing allocated. */
    constructor()
      ensures buf == []
    {
      buf := [];
    }

    /** len(). */
    function Len(): (n: nat)
      reads this
      ensures n == |buf|
    {
      |buf|
    }

    /** Adopt: drop the current contents and take `data` over. */
    method Adopt(data: seq<byte>)
      modifies this
      ensures buf == data
    {
      Reset();
      buf := data;
    }

    /** Init(size, fill): discard the contents and allocate `size` bytes of
        `fill`; an allocation that fails reports NO_MEMORY and leaves the
        buffer as it was. */
    method Init(size: nat, fill: byte, allocOk: bool) returns (st: Status)
      modifies this
      ensures allocOk ==> st == Ok && buf == Fill(size, fill)
      ensures !allocOk ==> st == ErrNoMemory && buf == old(buf)
    {
      if !allocOk {
        return ErrNoMemory;
      }
      Reset();
      buf := Fill(size, fill);
      st := Ok;
    }

    /** Resize(size, fill). */
    method Resize(size: nat, fill: byte, allocOk: bool) returns (st: Status)
      modifies this
      ensures allocOk ==> st == Ok && buf == Resized(old(buf), size, fill)
      ensures !allocOk ==> st == ErrNoMemory && buf == old(buf)
    {
      if !allocOk {
        return ErrNoMemory;
      }
      buf := Resized(buf, size, fill);
      st := Ok;
    }

    /** Copy(data, |data|, off); `allocOk` says whether the growth it may
        need succeeds. */
    method Copy(data: seq<byte>, off: nat, allocOk: bool) returns (st: Status)
      modifies this
      ensures st == Ok <==> allocOk || |data| == 0 || off + |data| <= old(|buf|)
      ensures st == Ok ==> buf == Copied(old(buf), data, off)
      ensures st != Ok ==> st == ErrNoMemory && buf == old(buf)
    {
      if |data| == 0 {
        return Ok;
      }
      if |buf| < off + |data| {
        st := Resize(off + |data|, 0, allocOk);
        if st != Ok {
          return;
        }
      }
      buf := buf[..off] + data + buf[off + |data|..];
      st := Ok;
    }

    /** Randomize(size): resize to `size` and fill with random data, given
        here as `random`. */
    method Randomize(size: nat, random: seq<byte>, allocOk: bool) returns (st: Status)
      requires |random| == size
      modifies this
      ensures allocOk ==> st == Ok && buf == random
      ensures !allocOk ==> st == ErrNoMemory && buf == old(buf)
    {
      st := Resize(size, 0, allocOk);
      if st == Ok {
        buf := random;
      }
    }

    /** Increment: add one to the big-endian value of the contents; at the
        largest value the buffer can hold (all bytes 0xff, or no bytes) it
        reports OUT_OF_RANGE and changes nothing. */
    method Increment() returns (st: Status)
      modifies this
      ensures |buf| == old(|buf|)
      ensures st == Ok <==> BeValue(old(buf)) + 1 < Pow256(|buf|)
      ensures st == Ok ==> BeValue(buf) == BeValue(old(buf)) + 1
      ensures st != Ok ==> st == ErrOutOfRange && buf == old(buf)
    {
      var i := |buf|;
      while i > 0 && buf[i - 1] == 255
        invariant 0 <= i <= |buf|
        invariant buf[i..] == Fill(|buf| - i, 255)
      {
        assert buf[i - 1..] == [buf[i - 1]] + buf[i..];
        i := i - 1;
      }
      if i == 0 {
        assert buf == Fill(|buf|, 255);
        BeAllOnes(|buf|);
        return ErrOutOfRange;
      }
      var p := buf[..i - 1];
      var b := buf[i - 1];
      var k := |buf| - i;
      assert buf == p + [b] + Fill(k, 255);
      CarryStep(p, b, k);
      buf := p + [b + 1] + Fill(k, 0);
      BeBound(buf);
      st := Ok;
    }

    /** Release: give up the buffer, returning it and its length. */
    method Release() returns (data: seq<byte>, len: nat)
      modifies this
      ensures data == old(buf) && len == |data| && buf == []
    {
      data, len := buf, |buf|;
      buf := [];
    }

    /** Reset: clear all state; the buffer is zeroed and freed. */
    method Reset()
      modifies this
      ensures buf == []
    {
      buf := [];
    }

    /** operator[]: the byte at `off`, which must be in bounds. */
    function At(off: nat): (b: byte)
      reads this
      requires off < |buf|
    {
      buf[off]
    }

    /** operator[] as an lvalue: store `b` at `off`, which must be in
        bounds. */
    method Set(off: nat, b: byte)
      requires off < |buf|
      modifies this
      ensures buf == old(buf)[off := b]
    {
      buf := buf[off := b];
    }

    /** operator==: equal length and equal bytes; every byte is looked at,
        with no early exit on the first difference. */
    method IsEqual(other: Bytes) returns (eq: bool)
      ensures eq <==> buf == other.buf
    {
      if |buf| != |other.buf| {
        return false;
      }
      var i := 0;
      var diff := false;
      while i < |buf|
        invariant 0 <= i <= |buf|
        invariant diff <==> buf[..i] != other.buf[..i]
      {
        assert buf[..i + 1] == buf[..i] + [buf[i]] && other.buf[..i + 1] == other.buf[..i] + [other.buf[i]];
        diff := diff || buf[i] != other.buf[i];
        i := i + 1;
      }
      assert buf[..i] == buf && other.buf[..i] == other.buf;
      eq := !diff;
    }

    /** operator!=: the negation of operator==. */
    method IsNotEqual(other: Bytes) returns (ne: bool)
      ensures ne <==> buf != other.buf
    {
      var eq := IsEqual(other);
      ne := !eq;
    }
  }
}
