/** Small generic building blocks shared by every module of the model. */
module Types {

  /** A value that may be absent: JavaScript's `undefined`/`null`, or `NaN` for numbers. */
  datatype Option<+T> = None | Some(value: T)

  /** No element occurs twice. */
  predicate Distinct<T(==)>(s: seq<T>) {
    forall i, j :: 0 <= i < j < |s| ==> s[i] != s[j]
  }

  /** `a` is `b` with some elements left out, the rest kept in order. */
  predicate IsSubsequence<T(==)>(a: seq<T>, b: seq<T>)
    decreases |b|
  {
    |a| == 0 || (|b| > 0 && (if a[0] == b[0] then IsSubsequence(a[1..], b[1..]) else IsSubsequence(a, b[1..])))
  }

  /** `Array.prototype.filter`: the elements satisfying `p`, in their original order. */
  function FilterSeq<T>(s: seq<T>, p: T -> bool): (r: seq<T>)
    ensures |r| <= |s|
    ensures forall i :: 0 <= i < |r| ==> r[i] in s && p(r[i])
    ensures forall i :: 0 <= i < |s| && p(s[i]) ==> s[i] in r
  {
    if |s| == 0 then []
    else if p(s[0]) then [s[0]] + FilterSeq(s[1..], p)
    else FilterSeq(s[1..], p)
  }

  lemma {:induction false} FilterPartition<T>(s: seq<T>, p: T -> bool, q: T -> bool)
    requires forall i :: 0 <= i < |s| ==> q(s[i]) == !p(s[i])
    ensures multiset(FilterSeq(s, p)) + multiset(FilterSeq(s, q)) == multiset(s)
    decreases |s|
  {
    if |s| > 0 {
      var t := s[1..];
      FilterPartition(t, p, q);
      assert multiset(s) == multiset{s[0]} + multiset(t) by {
        assert s == [s[0]] + t;
      }
      if p(s[0]) {
        assert FilterSeq(s, p) == [s[0]] + FilterSeq(t, p);
        assert FilterSeq(s, q) == FilterSeq(t, q);
      } else {
        assert FilterSeq(s, p) == FilterSeq(t, p);
        assert FilterSeq(s, q) == [s[0]] + FilterSeq(t, q);
      }
    }
  }

  lemma {:induction false} FilterAllOut<T>(s: seq<T>, p: T -> bool)
    requires forall i :: 0 <= i < |s| ==> !p(s[i])
    ensures FilterSeq(s, p) == []
    decreases |s|
  {
    if |s| > 0 {
      FilterAllOut(s[1..], p);
    }
  }

  lemma {:induction false} FilterAllIn<T>(s: seq<T>, p: T -> bool)
    requires forall i :: 0 <= i < |s| ==> p(s[i])
    ensures FilterSeq(s, p) == s
    decreases |s|
  {
    if |s| > 0 {
      FilterAllIn(s[1..], p);
    }
  }

  lemma {:induction false} FilterAppend<T>(a: seq<T>, b: seq<T>, p: T -> bool)
    ensures FilterSeq(a + b, p) == FilterSeq(a, p) + FilterSeq(b, p)
    decreases |a|
  {
    if |a| > 0 {
      FilterAppend(a[1..], b, p);
      assert (a + b)[0] == a[0];
      assert (a + b)[1..] == a[1..] + b;
      if p(a[0]) {
        AppendAssoc([a[0]], FilterSeq(a[1..], p), FilterSeq(b, p));
      }
    } else {
      assert a + b == b;
    }
  }

  lemma {:induction false} FilterIsSubsequence<T>(s: seq<T>, p: T -> bool)
    ensures IsSubsequence(FilterSeq(s, p), s)
    decreases |s|
  {
    if |s| > 0 {
      FilterIsSubsequence(s[1..], p);
      if !p(s[0]) {
        SubsequenceDropHead(FilterSeq(s[1..], p), s);
      }
    }
  }

  /** Skipping the head of `b` keeps any subsequence of `b[1..]` a subsequence of `b`. */
  lemma {:induction false} SubsequenceDropHead<T>(a: seq<T>, b: seq<T>)
    requires |b| > 0 && IsSubsequence(a, b[1..])
    ensures IsSubsequence(a, b)
    decreases |b|, 0
  {
    if |a| > 0 && a[0] == b[0] {
      // a[1..] is a subsequence of b[1..] because a is, after dropping the matched head
      SubsequenceTail(a, b[1..]);
    }
  }

  lemma {:induction false} SubsequenceTail<T>(a: seq<T>, b: seq<T>)
    requires |a| > 0 && IsSubsequence(a, b)
    ensures IsSubsequence(a[1..], b)
    decreases |b|, 1
  {
    if a[0] == b[0] {
      if |b[1..]| > 0 {
        SubsequenceDropHead(a[1..], b);
      } else if |a[1..]| > 0 {
        assert false;
      }
    } else {
      SubsequenceTail(a, b[1..]);
      if |a[1..]| > 0 {
        SubsequenceDropHead(a[1..], b);
      }
    }
  }

  /** The first `n` elements, or all of them when there are fewer (`slice(0, n)`). */
  function Take<T>(s: seq<T>, n: nat): (r: seq<T>)
    ensures |r| <= n && |r| <= |s|
    ensures r <= s
    ensures |s| <= n ==> r == s
    ensures |s| > n ==> |r| == n
  {
    if |s| <= n then s else s[..n]
  }

  /** A prefix cut longer than the limit has exactly the limit's length. */
  lemma TakeLength<T>(s: seq<T>, n: nat)
    ensures |s| > n ==> |Take(s, n)| == n
  {
  }

  lemma TakeCons<T>(s: seq<T>, n: nat)
    requires |s| > 0 && n > 0
    ensures Take(s, n) == [s[0]] + Take(s[1..], n - 1)
  {
    if |s| > n {
      assert s[..n] == [s[0]] + s[1..][..n - 1];
    }
  }

  /** Taking from `fields` after `acc` is taking its head, then the rest of what is left from its tail. */
  lemma ConsTake<T>(acc: seq<T>, fields: seq<T>, n: nat)
    requires |acc| < n && |fields| >= 1
    ensures acc + Take(fields, n - |acc|) == (acc + [fields[0]]) + Take(fields[1..], n - |acc| - 1)
    ensures |fields| == 1 ==> acc + Take(fields, n - |acc|) == acc + [fields[0]]
  {
    TakeCons(fields, n - |acc|);
    AppendAssoc(acc, [fields[0]], Take(fields[1..], n - |acc| - 1));
    if |fields| == 1 {
      assert Take(fields[1..], n - |acc| - 1) == [];
    }
  }

  lemma AppendAssoc<T>(a: seq<T>, b: seq<T>, c: seq<T>)
    ensures (a + b) + c == a + (b + c)
  {
  }
}
