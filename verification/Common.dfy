// Notions that several components share.
module Common {

  datatype Option<T> = None | Some(value: T)

  // A byte.
  type Byte = b: int | 0 <= b < 256

  // Page p is one of count pages from base on.
  predicate InRun(base: nat, count: nat, p: nat) {
    base <= p < base + count
  }

  lemma Associate<T>(a: seq<T>, b: seq<T>, c: seq<T>)
    ensures a + (b + c) == (a + b) + c
  {
  }

  // The sequences that f makes of the elements of s, one after the other.
  function Flatten<S, T>(f: S -> seq<T>, s: seq<S>): seq<T> {
    if s == [] then [] else f(s[0]) + Flatten(f, s[1..])
  }

  lemma {:induction false} FlattenConcat<S, T>(f: S -> seq<T>, a: seq<S>, b: seq<S>)
    ensures Flatten(f, a + b) == Flatten(f, a) + Flatten(f, b)
  {
    if a == [] {
      assert a + b == b;
    } else {
      FlattenConcat(f, a[1..], b);
      assert (a + b)[1..] == a[1..] + b;
      Associate(f(a[0]), Flatten(f, a[1..]), Flatten(f, b));
    }
  }
}
