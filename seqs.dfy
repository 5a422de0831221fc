/** The optional value that stands for JavaScript's `undefined`/`null`
    results (`indexOf` returning -1, `find` returning `undefined`). */
module Options {
  datatype Option<+T> = None | Some(value: T)
}

/** A bounded prefix, as the ranking's "stop after ten" takes it, and the
    set of a list's elements. */
module Seqs {

  /** The first `n` elements of `s`, or all of `s` when it is shorter. */
  function Take<T>(s: seq<T>, n: nat): (r: seq<T>)
    ensures |r| == if |s| < n then |s| else n
    ensures r <= s
  {
    if |s| <= n then s else s[..n]
  }

  /** The set of the elements of `s`. */
  function Elements<T>(s: seq<T>): set<T>
  {
    set x | x in s
  }
}
