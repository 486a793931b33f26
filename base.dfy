/**
 * Shared vocabulary: optional values, results, the outcome of code that may
 * panic or never return, and the machine-word ranges the source relies on.
 */
module Base {

  datatype Option<+T> = None | Some(value: T)

  datatype Result<+T, +E> = Ok(value: T) | Err(error: E)
  {
    /** `?` in the source: a failure is returned as it is, a success is unwrapped. */
    predicate IsFailure()
    {
      Err?
    }

    function PropagateFailure<U>(): Result<U, E>
      requires Err?
    {
      Err(error)
    }

    function Extract(): T
      requires Ok?
    {
      value
    }
  }

  /**
   * What a call into the source does: it returns `value`, it panics
   * (an `assert!`, an index out of bounds, an `unreachable!`), or it never
   * returns (an unbounded loop or recursion).
   */
  datatype Outcome<+T> = Done(value: T) | Panic | Diverge
  {
    /** A panic or a call that never returns ends the caller the same way. */
    predicate IsFailure()
    {
      !Done?
    }

    function PropagateFailure<U>(): Outcome<U>
      requires !Done?
    {
      if Panic? then Panic else Diverge
    }

    function Extract(): T
      requires Done?
    {
      value
    }
  }

  /** 2^64: one more than `usize::MAX` on a 64-bit target. */
  const USIZE_MOD: int := 0x1_0000_0000_0000_0000
  const USIZE_MAX: int := USIZE_MOD - 1

  /** A 64-bit `usize`. */
  type usize = x: int | 0 <= x < USIZE_MOD

  /** A byte (`u8`). */
  type u8 = x: int | 0 <= x < 256

  /** `2^k`, the value of bit `k`; a helper for the bit-level definitions. */
  function Pow2(k: nat): (r: nat)
    ensures r >= 1
  {
    if k == 0 then 1 else 2 * Pow2(k - 1)
  }

  /** `n | 1`: the least odd number that is at least `n`. */
  function OrOne(n: nat): (r: nat)
    ensures r % 2 == 1 && n <= r <= n + 1
    ensures n % 2 == 1 ==> r == n
  {
    if n % 2 == 0 then n + 1 else n
  }

  /** Adding a multiple of `n` does not change a residue modulo `n`. */
  lemma ModShift(x: int, q: int, n: int)
    requires n > 0
    ensures (x + n * q) % n == x % n
  {
    var p := x / n;
    assert x == n * p + x % n;
    assert x + n * q == n * (p + q) + x % n;
    ModUnique(x + n * q, n, p + q, x % n);
  }

  /** A residue is determined by any quotient-remainder split. */
  lemma ModUnique(y: int, n: int, a: int, r: int)
    requires n > 0 && 0 <= r < n && y == n * a + r
    ensures y % n == r
  {
    var p := y / n;
    var s := y % n;
    assert n * p + s == n * a + r;
    var k := a - p;
    assert n * k == s - r;
    if k >= 1 {
      MulAtLeast(n, k);
    } else if k <= -1 {
      MulAtLeast(n, -k);
    }
  }

  lemma {:induction false} MulAtLeast(n: int, k: int)
    requires n > 0 && k >= 1
    ensures n * k >= n
    decreases k
  {
    if k > 1 {
      MulAtLeast(n, k - 1);
      assert n * k == n * (k - 1) + n;
    }
  }

  /** The bytes of an ASCII string, one byte per character. */
  function Bytes(s: string): (r: seq<u8>)
    requires forall i :: 0 <= i < |s| ==> s[i] as int < 256
    ensures |r| == |s|
    ensures forall i :: 0 <= i < |s| ==> r[i] == s[i] as int
  {
    seq(|s|, i requires 0 <= i < |s| => s[i] as int)
  }
}
