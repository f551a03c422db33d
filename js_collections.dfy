/** `[...new Set(xs)]`: the distinct elements of a list, in order of first occurrence. */
module JsCollections {

  /** The position of the first occurrence of `x` in `s`. */
  function FirstIndex<T(==)>(s: seq<T>, x: T): (i: nat)
    requires x in s
    ensures i < |s| && s[i] == x && x !in s[..i]
  {
    if s[0] == x then 0
    else
      var j := FirstIndex(s[1..], x);
      assert s[1..][..j] == s[1..j + 1];
      j + 1
  }

  /** Spreading a `Set` built from `s`: each element kept at its first occurrence. */
  function Dedupe<T(==)>(s: seq<T>): seq<T>
    decreases |s|
  {
    if |s| == 0 then []
    else
      var r := Dedupe(s[..|s| - 1]);
      if s[|s| - 1] in r then r else r + [s[|s| - 1]]
  }

  predicate NoDuplicates<T(==)>(s: seq<T>) {
    forall i, j :: 0 <= i < j < |s| ==> s[i] != s[j]
  }

  /** The first occurrence is unique: any position with no earlier copy is `FirstIndex`. */
  lemma FirstIndexUnique<T>(s: seq<T>, x: T, k: nat)
    requires k < |s| && s[k] == x && x !in s[..k]
    ensures FirstIndex(s, x) == k
  {
  }

  /** A first occurrence in a prefix is the first occurrence in the whole list. */
  lemma FirstIndexOfPrefix<T>(s: seq<T>, n: nat, x: T)
    requires n <= |s| && x in s[..n]
    ensures FirstIndex(s, x) == FirstIndex(s[..n], x)
  {
    var f := FirstIndex(s[..n], x);
    assert s[..n][..f] == s[..f];
    FirstIndexUnique(s, x, f);
  }

  /**
   * The dedupe has no duplicates, holds exactly the elements of `s`, and lists them in
   * the order of their first occurrences in `s`.
   */
  lemma {:induction false} DedupeSpec<T>(s: seq<T>)
    ensures NoDuplicates(Dedupe(s))
    ensures forall x :: x in Dedupe(s) ==> x in s
    ensures forall x :: x in s ==> x in Dedupe(s)
    ensures forall i, j :: 0 <= i < j < |Dedupe(s)| ==>
              FirstIndex(s, Dedupe(s)[i]) < FirstIndex(s, Dedupe(s)[j])
    decreases |s|
  {
    if |s| > 0 {
      var n := |s| - 1;
      var p := s[..n];
      var x := s[n];
      DedupeSpec(p);
      var r := Dedupe(p);
      assert s == p + [x];
      forall y | y in r ensures FirstIndex(s, y) == FirstIndex(p, y) {
        assert y in p;
        FirstIndexOfPrefix(s, n, y);
      }
      if x !in r {
        assert s[..n] == p;
        FirstIndexUnique(s, x, n);
        var d := r + [x];
        forall i, j | 0 <= i < j < |d| ensures FirstIndex(s, d[i]) < FirstIndex(s, d[j]) {
          assert d[i] in r;
          if j < |r| {
            assert d[j] in r;
          }
        }
      }
    }
  }

  /** `Set` insertion never grows the list beyond the input. */
  lemma {:induction false} DedupeLength<T>(s: seq<T>)
    ensures |Dedupe(s)| <= |s|
    decreases |s|
  {
    if |s| > 0 {
      DedupeLength(s[..|s| - 1]);
    }
  }

  /** A list that is already free of duplicates is its own dedupe. */
  lemma {:induction false} DedupeOfDistinct<T>(s: seq<T>)
    requires NoDuplicates(s)
    ensures Dedupe(s) == s
    decreases |s|
  {
    if |s| > 0 {
      var p := s[..|s| - 1];
      DedupeOfDistinct(p);
      assert s[|s| - 1] !in p;
      assert p + [s[|s| - 1]] == s;
    }
  }

  /** A nonempty list of copies of one value dedupes to that value alone. */
  lemma {:induction false} DedupeOfConstant<T>(s: seq<T>, x: T)
    requires |s| > 0 && forall i :: 0 <= i < |s| ==> s[i] == x
    ensures Dedupe(s) == [x]
    decreases |s|
  {
    if |s| > 1 {
      DedupeOfConstant(s[..|s| - 1], x);
    }
  }
}
