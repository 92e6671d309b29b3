/** Results of operations that may fail, and the list edits the tracker
    performs on its Python lists. */
module Outcomes {

  /** The Python exceptions the core can raise. */
  datatype Error =
    | ValueError  // `list.remove(x)` when `x` is not in the list
    | TypeError   // an ordering comparison between unrelated types

  datatype Option<T> = None | Some(value: T)

  /** Completion of a statement that returns nothing or raises. */
  datatype Outcome = Pass | Fail(error: Error)

  /** Completion of an expression that returns a value or raises. */
  datatype Result<T> = Ok(value: T) | Err(error: Error)
}

module Lists {

  /** Position of the first occurrence of `x` in `s`, the element that
      Python's `list.remove(x)` deletes. */
  function FirstIndex<T(==)>(s: seq<T>, x: T): (i: nat)
    requires x in s
    ensures i < |s| && s[i] == x
    ensures x !in s[..i]
  {
    if s[0] == x then 0 else 1 + FirstIndex(s[1..], x)
  }

  /** `s` without its first occurrence of `x`. */
  function RemoveFirst<T(==)>(s: seq<T>, x: T): (r: seq<T>)
    requires x in s
    ensures |r| == |s| - 1
    ensures multiset(r) == multiset(s) - multiset{x}
    ensures var i := FirstIndex(s, x); r[..i] == s[..i] && r[i..] == s[i + 1..]
  {
    var i := FirstIndex(s, x);
    assert s == s[..i] + [x] + s[i + 1..];
    s[..i] + s[i + 1..]
  }
}
