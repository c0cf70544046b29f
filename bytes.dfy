/** Bytes as the byte source hands them out, and the range reads over them. */
module Bytes {

  newtype byte = b: int | 0 <= b < 256

  function Min(a: nat, b: nat): nat {
    if a <= b then a else b
  }

  function Pow(b: nat, n: nat): (r: nat)
    ensures b > 0 ==> r > 0
  {
    if n == 0 then 1 else b * Pow(b, n - 1)
  }

  lemma {:induction false} PowAdd(b: nat, m: nat, n: nat)
    ensures Pow(b, m + n) == Pow(b, m) * Pow(b, n)
  {
    if m > 0 {
      PowAdd(b, m - 1, n);
      calc {
        Pow(b, m + n);
        b * Pow(b, (m - 1) + n);
        b * (Pow(b, m - 1) * Pow(b, n));
        { MulAssoc(b, Pow(b, m - 1), Pow(b, n)); }
        (b * Pow(b, m - 1)) * Pow(b, n);
        Pow(b, m) * Pow(b, n);
      }
    }
  }

  lemma MulAssoc(x: int, y: int, z: int)
    ensures x * (y * z) == (x * y) * z
  {
  }

  /**
   * `s.slice(i, j)` of an ArrayBuffer or a Blob: both bounds are clamped to the
   * length of `s`, and a range whose end does not lie after its start is empty.
   */
  function Slice<T>(s: seq<T>, i: nat, j: nat): (r: seq<T>)
    ensures i < |s| && i < j ==> r == s[i..Min(j, |s|)]
    ensures |s| <= i || j <= i ==> r == []
    ensures |r| <= |s|
  {
    if i < |s| && i < j then s[i..Min(j, |s|)] else []
  }

  /**
   * Decoding bytes as single-byte text: every byte becomes the character
   * with the same code, so the text has exactly one character per byte.
   */
  function Latin1(bs: seq<byte>): (r: string)
    ensures |r| == |bs|
    ensures forall i :: 0 <= i < |bs| ==> r[i] as int == bs[i] as int
  {
    seq(|bs|, i requires 0 <= i < |bs| => bs[i] as int as char)
  }

  /** The size of a reader's range inside the archive, as a range read clamps it. */
  lemma {:induction false} SliceOfSlice<T>(s: seq<T>, offset: nat, size: nat, start: nat, end: nat)
    requires start <= end <= size
    requires offset + size <= |s|
    ensures Slice(Slice(s, offset, offset + size), start, end) == s[offset + start..offset + end]
  {
    var view := Slice(s, offset, offset + size);
    if start < end {
      assert offset < |s| && Min(offset + size, |s|) == offset + size;
      assert view == s[offset..offset + size];
      assert |view| == size && Min(end, |view|) == end;
      assert Slice(view, start, end) == view[start..end];
      forall i | 0 <= i < end - start
        ensures view[start..end][i] == s[offset + start..offset + end][i]
      {
        assert view[start + i] == s[offset + start + i];
      }
      assert view[start..end] == s[offset + start..offset + end];
    } else {
      assert Slice(view, start, end) == [];
    }
  }
}
