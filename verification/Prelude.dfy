/** Stock result types and small facts about sequences. */
module Prelude {

  datatype Option<+T> = None | Some(value: T)

  datatype Result<+T, +E> = Ok(value: T) | Err(error: E)

  /** Two equal concatenations whose first halves have equal length agree half by half. */
  lemma SplitEqual<T>(a: seq<T>, b: seq<T>, r: seq<T>, s: seq<T>)
    requires |a| == |b|
    requires a + r == b + s
    ensures a == b && r == s
  {
    assert a == (a + r)[..|a|] && b == (b + s)[..|b|];
    assert r == (a + r)[|a|..] && s == (b + s)[|b|..];
  }

  lemma DropSlice<T>(a: seq<T>, p: nat, i: nat, j: nat)
    requires i <= j && p + j <= |a|
    ensures a[p..][i..j] == a[p + i..p + j]
  {
  }

  lemma Assoc<T>(a: seq<T>, b: seq<T>, c: seq<T>)
    ensures (a + b) + c == a + (b + c)
  {
  }

  lemma Assoc4<T>(a: seq<T>, b: seq<T>, c: seq<T>, d: seq<T>, r: seq<T>)
    ensures (a + b + c + d) + r == a + (b + (c + (d + r)))
  {
    Assoc(a + b + c, d, r);
    Assoc(a + b, c, d + r);
    Assoc(a, b, c + (d + r));
  }

  lemma Assoc5<T>(a: seq<T>, b: seq<T>, c: seq<T>, d: seq<T>, e: seq<T>, r: seq<T>)
    ensures (a + b + c + d + e) + r == a + (b + (c + (d + (e + r))))
  {
    Assoc(a + b + c + d, e, r);
    Assoc4(a, b, c, d, e + r);
  }
}
