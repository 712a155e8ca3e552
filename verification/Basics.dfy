/**
 Shared value types: machine integers as ranges of `int`, and the two failure-carrying
 datatypes every other module uses.
 */
module Basics {
  type byte = x: int | 0 <= x < 256
  type u16 = x: int | 0 <= x < 0x1_0000
  type u32 = x: int | 0 <= x < 0x1_0000_0000
  type u64 = x: int | 0 <= x < 0x1_0000_0000_0000_0000

  datatype Option<+T> = None | Some(value: T)

  datatype Result<+T, +E> = Ok(value: T) | Err(error: E) {
    predicate IsFailure() {
      Err?
    }

    function PropagateFailure<U>(): Result<U, E>
      requires Err?
    {
      Err(error)
    }

    function Extract(): T
      requires Ok?
    {
      value
    }
  }

  /** `buf` in front of a successful sequence; failures pass through. */
  function Prepend<T, E>(buf: seq<T>, r: Result<seq<T>, E>): Result<seq<T>, E> {
    match r
    case Ok(s) => Ok(buf + s)
    case Err(e) => Err(e)
  }

  lemma {:induction false} PrependLaws<T, E>(a: seq<T>, b: seq<T>, r: Result<seq<T>, E>)
    ensures Prepend([], r) == r
    ensures Prepend(a, Prepend(b, r)) == Prepend(a + b, r)
    ensures Prepend(a, Ok([])) == Result<seq<T>, E>.Ok(a)
  {
    match r
    case Err(_) =>
      assert a + [] == a;
    case Ok(s) =>
      assert [] + s == s && a + (b + s) == (a + b) + s && a + [] == a;
  }

  lemma {:induction false} Multiple(k: int, n: nat)
    ensures k >= 1 ==> k * n >= n
    ensures k <= 0 ==> k * n <= 0
  {
  }

  lemma {:induction false} Unique(n: nat, q: int, r: nat, q': int, r': nat)
    requires r < n && r' < n && q * n + r == q' * n + r'
    ensures q == q' && r == r'
  {
    assert (q - q') * n == r' - r && (q' - q) * n == r - r';
    Multiple(q - q', n);
    Multiple(q' - q, n);
  }

  lemma {:induction false} DivUnique(a: nat, n: nat, q: nat, r: nat)
    requires n > 0 && a == q * n + r && r < n
    ensures a % n == r && a / n == q
  {
    Unique(n, a / n, a % n, q, r);
  }

  function Min(a: int, b: int): int {
    if a <= b then a else b
  }

  function Max(a: int, b: int): int {
    if a <= b then b else a
  }
}
