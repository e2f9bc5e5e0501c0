/**
 * Word-size arithmetic of the memory manager: the `toSizeT` and
 * `downtoSizeT` macros, the size of the recycle-list table, and the mapping
 * from a byte count to the array length that classifies it.
 *
 * `SIZE_T` is `sizeof(size_t)`; the model fixes a 64-bit platform.
 */
module Arith {

  /** The machine word size, `sizeof(size_t)`. */
  const SIZE_T: nat := 8

  /** Number of slots in the recycle-list table. */
  const R_SIZE: nat := 256

  /** `toSizeT(t)`: the least multiple of the word size that is at least `t`. */
  function ToSizeT(t: nat): (r: nat)
    ensures r % SIZE_T == 0
    ensures t <= r < t + SIZE_T
  {
    if t % SIZE_T == 0 then t else t - t % SIZE_T + SIZE_T
  }

  /** No word multiple at least `t` is smaller than `ToSizeT(t)`. */
  lemma ToSizeTIsLeast(t: nat, u: nat)
    requires u % SIZE_T == 0 && t <= u
    ensures ToSizeT(t) <= u
  {
  }

  /** Rounding up leaves word multiples alone, so it is idempotent. */
  lemma ToSizeTIdempotent(t: nat)
    ensures t % SIZE_T == 0 ==> ToSizeT(t) == t
    ensures ToSizeT(ToSizeT(t)) == ToSizeT(t)
  {
  }

  /** `downtoSizeT(t)`: the greatest multiple of the word size that is at most `t`. */
  function DownToSizeT(t: nat): (r: nat)
    ensures r % SIZE_T == 0
    ensures r <= t < r + SIZE_T
  {
    t - t % SIZE_T
  }

  /** No word multiple at most `t` is larger than `DownToSizeT(t)`. */
  lemma DownToSizeTIsGreatest(t: nat, u: nat)
    requires u % SIZE_T == 0 && u <= t
    ensures u <= DownToSizeT(t)
  {
  }

  /** Rounding down leaves word multiples alone, so it is idempotent. */
  lemma DownToSizeTIdempotent(t: nat)
    ensures t % SIZE_T == 0 ==> DownToSizeT(t) == t
    ensures DownToSizeT(DownToSizeT(t)) == DownToSizeT(t)
  {
  }

  /** The worked examples of the macros' comments, for an 8-byte word. */
  lemma RoundingExamples()
    ensures ToSizeT(7) == 8 && ToSizeT(12) == 16
    ensures DownToSizeT(9) == 8 && DownToSizeT(100) == 96
  {
  }

  /**
   * `getArraySize(t)`: the array length served by a request of `t` bytes
   * (a word multiple, at least the element size `s`), one word of array
   * header subtracted.  The result is the number of whole elements that fit
   * after that header.
   */
  function GetArraySize(t: nat, s: nat): (r: nat)
    requires s >= 1
    requires t % SIZE_T == 0 && t >= s
    ensures SIZE_T + r * s <= t < SIZE_T + (r + 1) * s
  {
    (t - SIZE_T) / s
  }

  /**
   * A scalar request (exactly `s` bytes, rounded up) falls in array class 0
   * for every element size, so `alloc` and `free` use the same class.
   */
  lemma ScalarArraySizeIsZero(s: nat)
    requires s >= 1
    ensures GetArraySize(ToSizeT(s), s) == 0
  {
  }

  /**
   * An array of `k` elements requested with its one-word length header
   * falls in array class `k` whenever an element is at least a word wide.
   * (For `k == 0` and an element wider than a word the request is below the
   * element size, which `getArraySize` refuses.)
   */
  lemma ArraySizeOfHeaderedRequest(k: nat, s: nat)
    requires s >= SIZE_T && k >= 1
    ensures k * s + SIZE_T >= s
    ensures GetArraySize(ToSizeT(k * s + SIZE_T), s) == k
  {
    var x := k * s;
    assert x >= s by { MulMonotone(1, k, s); }
    var t := ToSizeT(x + SIZE_T);
    assert x <= t - SIZE_T < x + s;
    DivUnique(t - SIZE_T, s, k);
  }

  /** The quotient of `x` by `s` is the `k` with `k * s <= x < k * s + s`. */
  lemma DivUnique(x: nat, s: nat, k: nat)
    requires s >= 1 && k * s <= x < k * s + s
    ensures x / s == k
  {
    var q := x / s;
    assert q * s <= x < q * s + s;
    MulStrict(q, k, s);
    MulStrict(k, q, s);
  }

  /** A smaller factor gives a product smaller by at least `s`. */
  lemma MulStrict(a: nat, b: nat, s: nat)
    ensures a < b ==> a * s + s <= b * s
  {
    if a < b {
      MulMonotone(a + 1, b, s);
      assert (a + 1) * s == a * s + s;
    }
  }

  /** Multiplying by the same factor keeps the order. */
  lemma MulMonotone(a: nat, b: nat, s: nat)
    requires a <= b
    ensures a * s <= b * s
  {
  }

  /**
   * With an element narrower than a word the header arithmetic misclassifies
   * arrays: a one-element array of 1-byte elements lands in class 8.
   */
  lemma NarrowElementMisclassified()
    ensures GetArraySize(ToSizeT(1 * 1 + SIZE_T), 1) == 8
  {
  }
}
