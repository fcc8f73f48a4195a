// The allocation bitmaps of minfs (bitmap::RawBitmap as the allocator uses it):
// a run of bits backed by block-multiple storage, of which only the first
// `size` bits are usable. Only the operations the allocator calls are modelled.
module MinfsBitmap {
  import opened Zx

  datatype Bitmap = Bitmap(storage: seq<bool>, size: nat)
  {
    ghost predicate Valid() { size <= |storage| }

    predicate IsSet(i: nat) requires i < |storage| { storage[i] }
  }

  function Zeros(n: nat): (r: seq<bool>)
    ensures |r| == n && forall i :: 0 <= i < n ==> !r[i]
  {
    if n == 0 then [] else Zeros(n - 1) + [false]
  }

  /** Reset(n): n cleared bits, all usable. */
  function Reset(n: nat): (bm: Bitmap)
    ensures bm.Valid() && bm.size == n && |bm.storage| == n
    ensures forall i :: 0 <= i < n ==> !bm.storage[i]
  {
    Bitmap(Zeros(n), n)
  }

  /** Shrink(n): fewer usable bits over the same storage. */
  function Shrink(bm: Bitmap, n: nat): (r: Bitmap)
    requires bm.Valid() && n <= |bm.storage|
    ensures r.Valid() && r.size == n && r.storage == bm.storage
  {
    Bitmap(bm.storage, n)
  }

  /** Grow(n): the usable bits become n, those past the old size read as clear,
      and the usable bits below the old size keep their values. */
  function Grow(bm: Bitmap, n: nat): (r: Bitmap)
    requires bm.Valid() && bm.size <= n
    ensures r.Valid() && r.size == n && |r.storage| == n
    ensures forall i :: 0 <= i < bm.size ==> r.storage[i] == bm.storage[i]
    ensures forall i :: bm.size <= i < n ==> !r.storage[i]
  {
    Bitmap(bm.storage[..bm.size] + Zeros(n - bm.size), n)
  }

  function Set(bm: Bitmap, i: nat): (r: Bitmap)
    requires bm.Valid() && i < bm.size
    ensures r.Valid() && r.size == bm.size && |r.storage| == |bm.storage|
    ensures r.storage[i]
    ensures forall j :: 0 <= j < |bm.storage| && j != i ==> r.storage[j] == bm.storage[j]
  {
    Bitmap(bm.storage[i := true], bm.size)
  }

  function Clear(bm: Bitmap, i: nat): (r: Bitmap)
    requires bm.Valid() && i < bm.size
    ensures r.Valid() && r.size == bm.size && |r.storage| == |bm.storage|
    ensures !r.storage[i]
    ensures forall j :: 0 <= j < |bm.storage| && j != i ==> r.storage[j] == bm.storage[j]
  {
    Bitmap(bm.storage[i := false], bm.size)
  }

  /** Find(false, lo, hi, 1, &out): the first clear usable bit in [lo, hi). */
  function FindClear(bm: Bitmap, lo: nat, hi: nat): (r: Option<nat>)
    requires bm.Valid()
    decreases hi - lo
    ensures r.Some? ==> lo <= r.value < hi && r.value < bm.size && !bm.storage[r.value]
    ensures r.Some? ==> forall j :: lo <= j < r.value ==> bm.storage[j]
    ensures r.None? ==> forall j :: lo <= j < hi && j < bm.size ==> bm.storage[j]
  {
    if lo >= hi || lo >= bm.size then None
    else if !bm.storage[lo] then Some(lo)
    else FindClear(bm, lo + 1, hi)
  }

  /** Setting a clear bit and clearing it again gives back the bitmap. */
  lemma ClearUndoesSet(bm: Bitmap, i: nat)
    requires bm.Valid() && i < bm.size && !bm.storage[i]
    ensures Clear(Set(bm, i), i) == bm
  {
    assert Clear(Set(bm, i), i).storage == bm.storage;
  }

  /** Clearing a set bit and setting it again gives back the bitmap. */
  lemma SetUndoesClear(bm: Bitmap, i: nat)
    requires bm.Valid() && i < bm.size && bm.storage[i]
    ensures Set(Clear(bm, i), i) == bm
  {
    assert Set(Clear(bm, i), i).storage == bm.storage;
  }

  /** Grow followed by Shrink to the usable count keeps the allocated bits and
      exposes exactly the new usable range as clear. */
  lemma GrowThenShrink(bm: Bitmap, n: nat, m: nat)
    requires bm.Valid() && bm.size <= m <= n
    ensures var r := Shrink(Grow(bm, n), m);
            r.Valid() && r.size == m && |r.storage| == n &&
            (forall i :: 0 <= i < bm.size ==> r.storage[i] == bm.storage[i]) &&
            FindClear(r, bm.size, m) == (if bm.size < m then Some(bm.size) else None)
  {
  }

  /** Clear bits, one after another, in the order given. */
  function ClearAll(bm: Bitmap, bits: seq<nat>): (r: Bitmap)
    requires bm.Valid() && forall k :: 0 <= k < |bits| ==> bits[k] < bm.size
    ensures r.Valid() && r.size == bm.size && |r.storage| == |bm.storage|
    decreases |bits|
  {
    if bits == [] then bm
    else Clear(ClearAll(bm, bits[..|bits| - 1]), bits[|bits| - 1])
  }

  /** After clearing a list of bits, exactly those bits are clear in addition
      to the ones that were clear before. */
  lemma {:induction false} ClearAllEffect(bm: Bitmap, bits: seq<nat>, j: nat)
    requires bm.Valid() && forall k :: 0 <= k < |bits| ==> bits[k] < bm.size
    requires j < |bm.storage|
    ensures ClearAll(bm, bits).storage[j] == (bm.storage[j] && j !in bits)
    decreases |bits|
  {
    if bits != [] {
      var init := bits[..|bits| - 1];
      ClearAllEffect(bm, init, j);
      assert bits == init + [bits[|bits| - 1]];
    }
  }
}
