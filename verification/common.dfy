/**
 * Shared vocabulary of the model: optional values (Python's `None`) and the
 * "is a subsequence of" relation used to say that a query keeps ledger order.
 */
module Common {

  /** A value that may be absent, as a Python argument or result that may be `None`. */
  datatype Option<+T> = None | Some(value: T) {

    /** The value, or `default` when absent. */
    function GetOr(default: T): T {
      if Some? then value else default
    }
  }

  /** `a` is obtained from `b` by deleting zero or more elements, keeping the order of the rest. */
  predicate IsSubsequence<T(==)>(a: seq<T>, b: seq<T>)
    decreases |b|
  {
    || |a| == 0
    || (&& |b| > 0
        && (|| (a[|a| - 1] == b[|b| - 1] && IsSubsequence(a[..|a| - 1], b[..|b| - 1]))
            || IsSubsequence(a, b[..|b| - 1])))
  }

  /** Every sequence is a subsequence of itself. */
  lemma {:induction false} SubsequenceReflexive<T>(a: seq<T>)
    ensures IsSubsequence(a, a)
    decreases |a|
  {
    if |a| > 0 {
      SubsequenceReflexive(a[..|a| - 1]);
    }
  }

  /** A subsequence stays one when the same element is appended to both sides. */
  lemma SubsequenceSnocBoth<T>(a: seq<T>, b: seq<T>, x: T)
    requires IsSubsequence(a, b)
    ensures IsSubsequence(a + [x], b + [x])
  {
    assert (a + [x])[..|a|] == a && (b + [x])[..|b|] == b;
  }

  /** A subsequence stays one when an element is appended to the longer side only. */
  lemma SubsequenceSnocRight<T>(a: seq<T>, b: seq<T>, x: T)
    requires IsSubsequence(a, b)
    ensures IsSubsequence(a, b + [x])
  {
    assert (b + [x])[..|b|] == b;
  }

  /** Everything in a subsequence occurs in the sequence it was taken from. */
  lemma {:induction false} SubsequenceMembers<T>(a: seq<T>, b: seq<T>)
    requires IsSubsequence(a, b)
    ensures |a| <= |b|
    ensures forall x :: x in a ==> x in b
    decreases |b|
  {
    if |a| > 0 {
      var b' := b[..|b| - 1];
      assert b == b' + [b[|b| - 1]];
      if a[|a| - 1] == b[|b| - 1] && IsSubsequence(a[..|a| - 1], b') {
        SubsequenceMembers(a[..|a| - 1], b');
        assert a == a[..|a| - 1] + [a[|a| - 1]];
      } else {
        SubsequenceMembers(a, b');
      }
    }
  }

  /** No two elements of `s` share a key. */
  predicate KeysDistinct<T>(s: seq<T>, key: T -> int) {
    forall i, j :: 0 <= i < j < |s| ==> key(s[i]) != key(s[j])
  }

  /** Taking a subsequence keeps keys distinct. */
  lemma {:induction false} SubsequenceKeysDistinct<T>(a: seq<T>, b: seq<T>, key: T -> int)
    requires IsSubsequence(a, b) && KeysDistinct(b, key)
    ensures KeysDistinct(a, key)
    decreases |b|
  {
    if |a| > 0 {
      var a', b' := a[..|a| - 1], b[..|b| - 1];
      assert KeysDistinct(b', key);
      if a[|a| - 1] == b[|b| - 1] && IsSubsequence(a', b') {
        SubsequenceKeysDistinct(a', b', key);
        SubsequenceMembers(a', b');
        forall i | 0 <= i < |a'|
          ensures key(a'[i]) != key(a[|a| - 1])
        {
          assert a'[i] in a';
          var j :| 0 <= j < |b'| && b'[j] == a'[i];
          assert key(b[j]) != key(b[|b| - 1]);
        }
      } else {
        SubsequenceKeysDistinct(a, b', key);
      }
    }
  }

  /** Two different positions of a sequence with distinct keys hold different keys. */
  lemma DistinctKeysDiffer<T>(s: seq<T>, key: T -> int, i: int, j: int)
    requires KeysDistinct(s, key) && 0 <= i < |s| && 0 <= j < |s| && i != j
    ensures key(s[i]) != key(s[j])
  {
  }

  /** A prefix of a sequence with distinct keys has distinct keys. */
  lemma DistinctKeysPrefix<T>(s: seq<T>, key: T -> int, n: int)
    requires KeysDistinct(s, key) && 0 <= n <= |s|
    ensures KeysDistinct(s[..n], key)
  {
    forall i, j | 0 <= i < j < n
      ensures key(s[..n][i]) != key(s[..n][j])
    {
      DistinctKeysDiffer(s, key, i, j);
    }
  }

  /** Dropping position `k` before the last element commutes with taking the last element off. */
  lemma DropBeforeLast<T>(s: seq<T>, k: int)
    requires 0 <= k < |s| - 1
    ensures s[..k] + s[k + 1..] == s[..|s| - 1][..k] + s[..|s| - 1][k + 1..] + [s[|s| - 1]]
  {
    var init := s[..|s| - 1];
    assert s[..k] == init[..k];
    assert s[k + 1..] == init[k + 1..] + [s[|s| - 1]];
  }
}
