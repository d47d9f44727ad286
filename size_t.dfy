/**
 * The cursor expressions of the ring as C evaluates them: every `+` and `-`
 * on `size_t` wraps modulo 2^64. The lemmas show that, while both cursors
 * lie below the capacity, the wrapped results are the mathematical ones that
 * RingSpec uses, so the model's unbounded arithmetic loses nothing.
 */
module SizeT {
  import opened RingSpec

  /** 2^64: one more than the largest `size_t`. */
  const WORD: int := 0x1_0000_0000_0000_0000

  /** A value of C's `size_t`. */
  type word = x: int | 0 <= x < WORD

  /** Unsigned addition with wrap-around. */
  function Add(a: word, b: word): (r: word)
    ensures r == if a + b < WORD then a + b else a + b - WORD
  {
    ModOnce(a + b, WORD);
    (a + b) % WORD
  }

  /** Unsigned subtraction with wrap-around. */
  function Sub(a: word, b: word): (r: word)
    ensures r == if a >= b then a - b else a - b + WORD
  {
    ModOnce(a - b, WORD);
    (a - b) % WORD
  }

  /**
   * The free-space expression of ring.c:77 with each `+` and `-` wrapping
   * modulo 2^64: it is the unbounded count reduced modulo 2^64.
   */
  function FreeC(size: word, head: word, tail: word): (r: word)
    ensures r == (if head > tail then head - tail - 1 else size + head - tail - 1) % WORD
  {
    ModOnce(if head > tail then head - tail - 1 else size + head - tail - 1, WORD);
    if head > tail then Sub(Sub(head, tail), 1) else Sub(Sub(Add(size, head), tail), 1)
  }

  /**
   * The available-bytes expression of ring.c:106 with each `+` and `-`
   * wrapping modulo 2^64: it is the unbounded count reduced modulo 2^64.
   */
  function AvailableC(size: word, head: word, tail: word): (r: word)
    ensures r == (if tail >= head then tail - head else size - head + tail) % WORD
  {
    ModOnce(if tail >= head then tail - head else size - head + tail, WORD);
    if tail >= head then Sub(tail, head) else Add(Sub(size, head), tail)
  }

  /**
   * The cursor wheel of ring.c:64 and ring.c:69, with the addition wrapping
   * modulo 2^64 before the remainder is taken. It stays inside the data
   * area, and when the addition does not wrap it is the modular advance.
   */
  function WheelC(size: word, cur: word, p: word): (r: word)
    requires size > 0
    ensures r < size
    ensures cur + p < WORD ==> r == Advance(size, cur, p)
  {
    Add(cur, p) % size
  }

  /**
   * The free-space expression never underflows to a huge value while the
   * cursors are valid: even when `size + head` wraps, the wrapped result is
   * the true free space.
   */
  lemma FreeCExact(size: word, head: word, tail: word)
    requires Cursors(size, head, tail)
    ensures FreeC(size, head, tail) == Free(size, head, tail)
  {
  }

  /** The available-bytes expression is exact while the cursors are valid. */
  lemma AvailableCExact(size: word, head: word, tail: word)
    requires Cursors(size, head, tail)
    ensures AvailableC(size, head, tail) == Available(size, head, tail)
  {
  }

  /**
   * The cursor advance is exact for every transfer the ring performs
   * (fewer than `size` bytes from a cursor below `size`) as long as the
   * capacity is at most 2^63, so that `cur + p` cannot wrap.
   */
  lemma WheelCExact(size: word, cur: word, p: word)
    requires cur < size && p < size && size <= WORD / 2
    ensures WheelC(size, cur, p) == Advance(size, cur, p)
  {
  }

  /**
   * With capacity 0, which creation does not reject, the free-space
   * expression of an empty ring underflows to the largest `size_t`: a write
   * then accepts every byte it is offered although the data area is empty.
   */
  lemma ZeroCapacityFreeWraps()
    ensures FreeC(0, 0, 0) == WORD - 1
  {
  }
}
