/** Small shared vocabulary: failure-carrying results and facts about row-id sequences. */
module Collections {

  /** A value that may be absent, as Python's `None` return. */
  datatype Option<T> = None | Some(value: T)

  /** Either a value or the error that the Python code would raise instead. */
  datatype Result<T, E> = Ok(value: T) | Err(error: E)

  /** The row positions 0, 1, ..., n - 1 of an n-row frame. */
  function Range(n: nat): (r: seq<nat>)
    ensures |r| == n
    ensures forall i :: 0 <= i < n ==> r[i] == i
  {
    seq(n, i => i)
  }

  /** No element occurs twice: different positions hold different elements. */
  predicate NoDuplicates(s: seq<nat>)
  {
    forall i, j :: 0 <= i < j < |s| ==> s[i] != s[j]
  }

  /** Every position below n occurs in `Range(n)` exactly once, and nothing else occurs. */
  lemma {:induction false} RangeCounts(n: nat)
    ensures forall x: int :: multiset(Range(n))[x] == (if 0 <= x < n then 1 else 0)
  {
    if n > 0 {
      RangeCounts(n - 1);
      var last: nat := n - 1;
      assert Range(n) == Range(last) + [last];
      assert multiset(Range(n)) == multiset(Range(last)) + multiset{last};
    } else {
      assert Range(n) == [];
    }
  }

  /** An element found at two different positions occurs at least twice. */
  lemma TwoPositions(s: seq<nat>, i: nat, j: nat)
    requires i < j < |s| && s[i] == s[j]
    ensures multiset(s)[s[i]] >= 2
  {
    var x := s[i];
    assert s == s[..j] + [x] + s[j + 1..];
    assert x in s[..j];
    assert multiset(s) == multiset(s[..j]) + multiset{x} + multiset(s[j + 1..]);
  }

  /** A sequence whose multiset fits inside the positions of an n-row frame is a set of distinct valid rows. */
  lemma InsideRange(s: seq<nat>, n: nat)
    requires multiset(s) <= multiset(Range(n))
    ensures NoDuplicates(s)
    ensures forall x :: x in s ==> x < n
  {
    RangeCounts(n);
    forall x | x in s
      ensures x < n
    {
      assert multiset(s)[x] > 0;
    }
    forall i, j | 0 <= i < j < |s|
      ensures s[i] != s[j]
    {
      if s[i] == s[j] {
        TwoPositions(s, i, j);
      }
    }
  }

  /** Scaling by a non-negative factor keeps the order. */
  lemma ScaleMonotone(a: real, b: real, w: real)
    requires a <= b && 0.0 <= w
    ensures a * w <= b * w
  {
    assert b * w - a * w == (b - a) * w;
  }

  /** Concatenation is associative. */
  lemma ConcatAssoc<T>(x: seq<T>, y: seq<T>, z: seq<T>)
    ensures x + (y + z) == (x + y) + z
  {
  }

  /** Adding the same elements to two multisets keeps them apart or equal. */
  lemma MultisetCancel(a: multiset<nat>, b: multiset<nat>, c: multiset<nat>)
    requires a + c == b + c
    ensures a == b
  {
    forall x: nat
      ensures a[x] == b[x]
    {
      assert (a + c)[x] == (b + c)[x];
    }
  }
}
