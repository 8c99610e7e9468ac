/** Machine words, bytes and the outcome type shared by every component. */
module Words {

  const U64_LIMIT: int := 0x1_0000_0000_0000_0000

  type u64 = x: int | 0 <= x < 0x1_0000_0000_0000_0000
  type byte = x: int | 0 <= x < 256

  datatype Option<+T> = None | Some(value: T)

  /** `Panic` stands for a failed `assert!`, an `unwrap` of `None`, an explicit `panic!` or an arithmetic overflow. */
  datatype Outcome<+T, +E> = Ok(value: T) | Err(error: E) | Panic

  function Min(a: int, b: int): int {
    if a <= b then a else b
  }

  function Max(a: int, b: int): int {
    if a >= b then a else b
  }

  /** `data` with `val` laid over it from index `at` on. */
  function Patch<T>(data: seq<T>, at: nat, val: seq<T>): (r: seq<T>)
    requires at + |val| <= |data|
    ensures |r| == |data|
  {
    data[..at] + val + data[at + |val|..]
  }

  /** Laying down two adjacent pieces is laying down their concatenation. */
  lemma PatchTwice<T>(data: seq<T>, at: nat, val: seq<T>, more: seq<T>)
    requires at + |val| + |more| <= |data|
    ensures Patch(Patch(data, at, val), at + |val|, more) == Patch(data, at, val + more)
  {
  }

  lemma PatchFrame<T>(data: seq<T>, at: nat, val: seq<T>)
    requires at + |val| <= |data|
    ensures Patch(data, at, val)[..at] == data[..at]
    ensures Patch(data, at, val)[at + |val|..] == data[at + |val|..]
  {
  }

  /** A left fold over the first `n` items. */
  function Fold<S, A>(f: (S, A) -> S, s: S, items: seq<A>, n: nat): S
    requires n <= |items|
  {
    if n == 0 then s else f(Fold(f, s, items, n - 1), items[n - 1])
  }

  lemma {:induction false} FoldPrefix<S, A>(f: (S, A) -> S, s: S, items: seq<A>, more: seq<A>, n: nat)
    requires n <= |items|
    ensures Fold(f, s, items + more, n) == Fold(f, s, items, n)
  {
    if n > 0 {
      FoldPrefix(f, s, items, more, n - 1);
    }
  }
}
