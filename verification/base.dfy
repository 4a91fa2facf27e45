/** Shared vocabulary: bytes and the Option/Result wrappers the rest of the
    model returns in place of Rust's `Option` and `Result`. */
module Base {

  /** A Rust `u8`. */
  newtype u8 = x: int | 0 <= x < 256

  datatype Option<+T> = None | Some(value: T)

  datatype Result<+T, +E> = Ok(value: T) | Err(error: E)

  function Min(a: int, b: int): int {
    if a <= b then a else b
  }

  function Max(a: int, b: int): int {
    if a <= b then b else a
  }

  /** Splitting a sequence at `n` and putting the halves back in front of
      `rest` gives the sequence followed by `rest`. */
  lemma SplitInFront<T>(a: seq<T>, n: nat, rest: seq<T>)
    requires n <= |a|
    ensures a[..n] + (a[n..] + rest) == a + rest
  {
    assert a[..n] + a[n..] == a;
    assert a[..n] + (a[n..] + rest) == (a[..n] + a[n..]) + rest;
  }

  lemma Regroup<T>(a: seq<T>, b: seq<T>, c: seq<T>)
    ensures (a + b) + [] + c == a + (b + c)
  {
  }

  /** `prefix` is a prefix of `s`. */
  predicate HasPrefix<T(==)>(s: seq<T>, prefix: seq<T>) {
    |prefix| <= |s| && s[..|prefix|] == prefix
  }
}
