/** Order-preserving selection from a sequence (`Array.prototype.filter`) and
    the subsequence relation it establishes. */
module Seqs {

  /** `a` can be obtained from `b` by deleting elements: greedy left-to-right
      matching decides this. */
  predicate IsSubseq<T(==)>(a: seq<T>, b: seq<T>)
    decreases |b|
  {
    if |a| == 0 then true
    else if |b| == 0 then false
    else if a[0] == b[0] then IsSubseq(a[1..], b[1..])
    else IsSubseq(a, b[1..])
  }

  /** The elements of `s` satisfying `p`, in their original order. */
  function Select<T(==)>(s: seq<T>, p: T -> bool): (r: seq<T>)
    ensures |r| <= |s|
    decreases |s|
  {
    if |s| == 0 then []
    else if p(s[0]) then [s[0]] + Select(s[1..], p)
    else Select(s[1..], p)
  }

  /** Selection keeps exactly the elements that pass: everything selected
      passes and comes from `s`, and everything in `s` that passes is selected. */
  lemma {:induction false} SelectMembers<T>(s: seq<T>, p: T -> bool)
    ensures forall i :: 0 <= i < |Select(s, p)| ==> p(Select(s, p)[i]) && Select(s, p)[i] in s
    ensures forall i :: 0 <= i < |s| && p(s[i]) ==> s[i] in Select(s, p)
    decreases |s|
  {
    if |s| > 0 {
      SelectMembers(s[1..], p);
      var rest := Select(s[1..], p);
      var r := Select(s, p);
      if p(s[0]) {
        assert r == [s[0]] + rest;
      } else {
        assert r == rest;
      }
      forall i | 0 <= i < |r|
        ensures r[i] in s
      {
        if p(s[0]) && i == 0 {
        } else {
          var k := if p(s[0]) then i - 1 else i;
          assert r[i] == rest[k];
          assert rest[k] in s[1..];
        }
      }
      forall i | 0 <= i < |s| && p(s[i])
        ensures s[i] in r
      {
        if i > 0 {
          assert s[i] == s[1..][i - 1];
        }
      }
    }
  }

  /** Selection keeps order: its result is a subsequence of the input. */
  lemma {:induction false} SelectIsSubseq<T>(s: seq<T>, p: T -> bool)
    ensures IsSubseq(Select(s, p), s)
    decreases |s|
  {
    if |s| > 0 {
      SelectIsSubseq(s[1..], p);
      SelectMembers(s[1..], p);
      var rest := Select(s[1..], p);
      if p(s[0]) {
        assert ([s[0]] + rest)[1..] == rest;
      } else if |rest| > 0 {
        assert p(rest[0]);
      }
    }
  }

  /** Selection keeps a sequence all of whose elements pass. */
  lemma {:induction false} SelectAll<T>(s: seq<T>, p: T -> bool)
    requires forall i :: 0 <= i < |s| ==> p(s[i])
    ensures Select(s, p) == s
    decreases |s|
  {
    if |s| > 0 {
      SelectAll(s[1..], p);
      assert [s[0]] + s[1..] == s;
    }
  }

  /** Selection empties a sequence none of whose elements pass. */
  lemma {:induction false} SelectNone<T>(s: seq<T>, p: T -> bool)
    requires forall i :: 0 <= i < |s| ==> !p(s[i])
    ensures Select(s, p) == []
    decreases |s|
  {
    if |s| > 0 {
      SelectNone(s[1..], p);
    }
  }

  /** Selection depends only on the values of the predicate. */
  lemma {:induction false} SelectExt<T>(s: seq<T>, p: T -> bool, q: T -> bool)
    requires forall x :: p(x) == q(x)
    ensures Select(s, p) == Select(s, q)
    decreases |s|
  {
    if |s| > 0 {
      SelectExt(s[1..], p, q);
    }
  }

  /** Selecting twice with the same predicate is selecting once. */
  lemma {:induction false} SelectIdempotent<T>(s: seq<T>, p: T -> bool)
    ensures Select(Select(s, p), p) == Select(s, p)
  {
    SelectMembers(s, p);
    SelectAll(Select(s, p), p);
  }

  /** A predicate and its negation split a sequence: the two selections
      together hold every element exactly as often as `s` does. */
  lemma {:induction false} SelectPartition<T>(s: seq<T>, p: T -> bool, q: T -> bool)
    requires forall x :: q(x) == !p(x)
    ensures |Select(s, p)| + |Select(s, q)| == |s|
    ensures multiset(Select(s, p)) + multiset(Select(s, q)) == multiset(s)
    decreases |s|
  {
    if |s| > 0 {
      SelectPartition(s[1..], p, q);
      assert s == [s[0]] + s[1..];
    }
  }

  /** Selection distributes over concatenation. */
  lemma {:induction false} SelectConcat<T>(a: seq<T>, b: seq<T>, p: T -> bool)
    ensures Select(a + b, p) == Select(a, p) + Select(b, p)
    decreases |a|
  {
    if |a| > 0 {
      SelectConcat(a[1..], b, p);
      var ab := a + b;
      assert ab[0] == a[0];
      assert ab[1..] == a[1..] + b;
      if p(a[0]) {
        assert Select(ab, p) == [a[0]] + Select(a[1..] + b, p);
        assert Select(a, p) == [a[0]] + Select(a[1..], p);
      } else {
        assert Select(ab, p) == Select(a[1..] + b, p);
        assert Select(a, p) == Select(a[1..], p);
      }
    } else {
      assert a + b == b;
    }
  }

  /** Replacing one element changes the number selected by at most one: the
      old element's vote is withdrawn and the new one's cast. */
  lemma {:induction false} SelectUpdateCount<T>(s: seq<T>, i: nat, v: T, p: T -> bool)
    requires i < |s|
    ensures |Select(s[i := v], p)| + (if p(s[i]) then 1 else 0)
         == |Select(s, p)| + (if p(v) then 1 else 0)
    decreases |s|
  {
    var u := s[i := v];
    if i == 0 {
      assert u[1..] == s[1..];
    } else {
      assert u[1..] == s[1..][i - 1 := v];
      assert u[0] == s[0];
      SelectUpdateCount(s[1..], i - 1, v, p);
    }
  }
}
