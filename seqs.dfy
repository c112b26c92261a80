/** Order-preserving sequence filtering: the shape shared by every loop in the
    core that appends the survivors of a test to a fresh slice. */
module Seqs {
  import opened Results

  /** The elements of `s` that satisfy `p`, in their original order. */
  function Filter<T>(p: T -> bool, s: seq<T>): (r: seq<T>)
    ensures |r| <= |s|
  {
    if s == [] then [] else (if p(s[0]) then [s[0]] else []) + Filter(p, s[1..])
  }

  /** `a` can be obtained from `b` by deleting elements: same relative order,
      elements unmodified. */
  predicate IsSubsequence<T(==)>(a: seq<T>, b: seq<T>)
    decreases |b|
  {
    a == [] || (b != [] && ((a[0] == b[0] && IsSubsequence(a[1..], b[1..])) || IsSubsequence(a, b[1..])))
  }

  lemma {:induction false} FilterAppend<T>(p: T -> bool, a: seq<T>, b: seq<T>)
    ensures Filter(p, a + b) == Filter(p, a) + Filter(p, b)
    decreases |a|
  {
    if a == [] {
      assert a + b == b;
    } else {
      var head := if p(a[0]) then [a[0]] else [];
      assert (a + b)[0] == a[0] && (a + b)[1..] == a[1..] + b;
      assert Filter(p, a + b) == head + Filter(p, a[1..] + b);
      FilterAppend(p, a[1..], b);
      assert Filter(p, a) == head + Filter(p, a[1..]);
    }
  }

  /** Appending one more element at the end: the step a filtering loop takes. */
  lemma FilterSnoc<T>(p: T -> bool, s: seq<T>, x: T)
    ensures Filter(p, s + [x]) == Filter(p, s) + (if p(x) then [x] else [])
  {
    FilterAppend(p, s, [x]);
    assert Filter(p, [x]) == (if p(x) then [x] else []) + Filter(p, []);
  }

  /** An element survives exactly when it was present and passes the test. */
  lemma {:induction false} FilterMembership<T>(p: T -> bool, s: seq<T>, x: T)
    ensures x in Filter(p, s) <==> x in s && p(x)
  {
    if s != [] {
      FilterMembership(p, s[1..], x);
      assert s == [s[0]] + s[1..];
    }
  }

  /** The survivors keep their relative order and are not modified. */
  lemma {:induction false} FilterIsSubsequence<T>(p: T -> bool, s: seq<T>)
    ensures IsSubsequence(Filter(p, s), s)
  {
    if s != [] {
      FilterIsSubsequence(p, s[1..]);
      if p(s[0]) {
        assert Filter(p, s)[1..] == Filter(p, s[1..]);
      } else {
        assert Filter(p, s) == Filter(p, s[1..]);
      }
    }
  }

  /** A test that every element passes removes nothing. */
  lemma {:induction false} FilterAll<T>(p: T -> bool, s: seq<T>)
    requires forall i :: 0 <= i < |s| ==> p(s[i])
    ensures Filter(p, s) == s
  {
    if s != [] {
      FilterAll(p, s[1..]);
    }
  }

  /** A test that no element passes removes everything. */
  lemma {:induction false} FilterNone<T>(p: T -> bool, s: seq<T>)
    requires forall i :: 0 <= i < |s| ==> !p(s[i])
    ensures Filter(p, s) == []
  {
    if s != [] {
      FilterNone(p, s[1..]);
    }
  }

  /** Two filters in a row are one filter by the conjunction of their tests. */
  lemma {:induction false} FilterCompose<T>(p: T -> bool, q: T -> bool, both: T -> bool, s: seq<T>)
    requires forall x :: both(x) == (p(x) && q(x))
    ensures Filter(q, Filter(p, s)) == Filter(both, s)
  {
    if s != [] {
      FilterCompose(p, q, both, s[1..]);
      FilterAppend(q, if p(s[0]) then [s[0]] else [], Filter(p, s[1..]));
    }
  }

  /** Tests that agree on every element filter alike. */
  lemma {:induction false} FilterSameTest<T>(p: T -> bool, q: T -> bool, s: seq<T>)
    requires forall i :: 0 <= i < |s| ==> p(s[i]) == q(s[i])
    ensures Filter(p, s) == Filter(q, s)
  {
    if s != [] {
      FilterSameTest(p, q, s[1..]);
    }
  }

  lemma {:induction false} SubsequenceTransitive<T>(a: seq<T>, b: seq<T>, c: seq<T>)
    requires IsSubsequence(a, b) && IsSubsequence(b, c)
    ensures IsSubsequence(a, c)
    decreases |c|
  {
    if a != [] {
      assert c != [];
      if b[0] == c[0] && IsSubsequence(b[1..], c[1..]) {
        if a[0] == b[0] && IsSubsequence(a[1..], b[1..]) {
          SubsequenceTransitive(a[1..], b[1..], c[1..]);
        } else {
          SubsequenceTransitive(a, b[1..], c[1..]);
        }
      } else {
        SubsequenceTransitive(a, b, c[1..]);
      }
    }
  }

  lemma {:induction false} SubsequenceReflexive<T>(a: seq<T>)
    ensures IsSubsequence(a, a)
  {
    if a != [] {
      SubsequenceReflexive(a[1..]);
    }
  }

  /** Appending the same element to both keeps a subsequence a subsequence. */
  lemma {:induction false} SubsequenceSnoc<T>(a: seq<T>, b: seq<T>, x: T)
    requires IsSubsequence(a, b)
    ensures IsSubsequence(a + [x], b + [x])
    ensures IsSubsequence(a, b + [x])
    decreases |b|
  {
    if a == [] {
      assert [x][1..] == [];
      SubsequenceReflexive([x]);
      SubsequenceEmpty(b + [x]);
      if b != [] {
        assert (b + [x])[1..] == b[1..] + [x];
        SubsequenceSnoc(a, b[1..], x);
      }
    } else {
      assert b != [];
      assert (a + [x])[1..] == a[1..] + [x];
      assert (b + [x])[1..] == b[1..] + [x];
      if a[0] == b[0] && IsSubsequence(a[1..], b[1..]) {
        SubsequenceSnoc(a[1..], b[1..], x);
      } else {
        SubsequenceSnoc(a, b[1..], x);
      }
    }
  }

  lemma SubsequenceEmpty<T>(b: seq<T>)
    ensures IsSubsequence([], b)
  {
  }

  /** Every element of a subsequence occurs in the whole. */
  lemma {:induction false} SubsequenceMembers<T>(a: seq<T>, b: seq<T>)
    requires IsSubsequence(a, b)
    ensures |a| <= |b|
    ensures forall x :: x in a ==> x in b
    decreases |b|
  {
    if a != [] {
      if a[0] == b[0] && IsSubsequence(a[1..], b[1..]) {
        SubsequenceMembers(a[1..], b[1..]);
        assert forall x :: x in a ==> x == a[0] || x in a[1..];
      } else {
        SubsequenceMembers(a, b[1..]);
      }
    }
  }

  /** A subsequence of a duplicate-free sequence is duplicate-free. */
  lemma {:induction false} SubsequenceNoDuplicates<T>(a: seq<T>, b: seq<T>)
    requires IsSubsequence(a, b) && NoDuplicates(b)
    ensures NoDuplicates(a)
    decreases |b|
  {
    if a != [] {
      if a[0] == b[0] && IsSubsequence(a[1..], b[1..]) {
        SubsequenceNoDuplicates(a[1..], b[1..]);
        SubsequenceMembers(a[1..], b[1..]);
        assert a[0] !in b[1..];
        forall i, j | 0 <= i < j < |a| ensures a[i] != a[j] {
          if i == 0 {
            assert a[j] == a[1..][j - 1];
          } else {
            assert a[i] == a[1..][i - 1] && a[j] == a[1..][j - 1];
          }
        }
      } else {
        SubsequenceNoDuplicates(a, b[1..]);
      }
    }
  }

  /** Subsequences compose with concatenation. */
  lemma {:induction false} SubsequenceAppend<T>(a: seq<T>, b: seq<T>, c: seq<T>, d: seq<T>)
    requires IsSubsequence(a, b) && IsSubsequence(c, d)
    ensures IsSubsequence(a + c, b + d)
    decreases |b|
  {
    if a == [] {
      assert a + c == c;
      SubsequenceOfSuffix(c, b, d);
    } else {
      assert b != [];
      assert (a + c)[1..] == a[1..] + c;
      assert (b + d)[1..] == b[1..] + d;
      if a[0] == b[0] && IsSubsequence(a[1..], b[1..]) {
        SubsequenceAppend(a[1..], b[1..], c, d);
      } else {
        SubsequenceAppend(a, b[1..], c, d);
      }
    }
  }

  lemma {:induction false} SubsequenceOfSuffix<T>(c: seq<T>, b: seq<T>, d: seq<T>)
    requires IsSubsequence(c, d)
    ensures IsSubsequence(c, b + d)
    decreases |b|
  {
    if b == [] {
      assert b + d == d;
    } else {
      assert (b + d)[1..] == b[1..] + d;
      SubsequenceOfSuffix(c, b[1..], d);
    }
  }

  /** Concatenation of a sequence of sequences. */
  function Concat<T>(ss: seq<seq<T>>): (r: seq<T>)
  {
    if ss == [] then [] else ss[0] + Concat(ss[1..])
  }

  lemma {:induction false} ConcatSnoc<T>(ss: seq<seq<T>>, s: seq<T>)
    ensures Concat(ss + [s]) == Concat(ss) + s
  {
    if ss == [] {
      assert [s][1..] == [];
    } else {
      assert (ss + [s])[1..] == ss[1..] + [s];
      ConcatSnoc(ss[1..], s);
    }
  }

  /** No element occurs twice. */
  predicate NoDuplicates<T(==)>(s: seq<T>)
  {
    forall i, j :: 0 <= i < j < |s| ==> s[i] != s[j]
  }

  /** A filter whose test can fail: the survivors in order, or the failure of
      the first element whose test fails (later elements are not tested). */
  function TryFilter<T, E>(v: T -> Result<bool, E>, s: seq<T>): Result<seq<T>, E>
  {
    if s == [] then Ok([])
    else
      match v(s[0])
      case Err(e) => Err(e)
      case Ok(keep) =>
        match TryFilter(v, s[1..])
        case Err(e) => Err(e)
        case Ok(rest) => Ok((if keep then [s[0]] else []) + rest)
  }

  /** The test, read as a plain predicate: it succeeded and said yes. */
  function Accepted<T, E>(v: T -> Result<bool, E>): T -> bool
  {
    x => v(x).Ok? && v(x).value
  }

  function PrependOk<T, E>(pre: seq<T>, r: Result<seq<T>, E>): Result<seq<T>, E>
  {
    match r
    case Ok(rest) => Ok(pre + rest)
    case Err(e) => Err(e)
  }

  /** One step of a fallible filter, taken at position `i`. */
  lemma TryFilterStep<T, E>(v: T -> Result<bool, E>, s: seq<T>, i: int)
    requires 0 <= i < |s|
    ensures v(s[i]).Err? ==> TryFilter(v, s[i..]) == Err(v(s[i]).error)
    ensures v(s[i]).Ok? ==> TryFilter(v, s[i..]) == PrependOk(if v(s[i]).value then [s[i]] else [], TryFilter(v, s[i + 1..]))
  {
    assert s[i..][1..] == s[i + 1..];
    if v(s[i]).Ok? && !v(s[i]).value {
      PrependOkNil(TryFilter(v, s[i + 1..]));
    }
  }

  /** One iteration of a loop that computes a fallible filter by appending
      the survivors to `acc`: a failing test ends the result with its error,
      and a passing one moves the boundary one element on. */
  lemma TryFilterAdvance<T, E>(v: T -> Result<bool, E>, s: seq<T>, i: int, acc: seq<T>, verdict: Result<bool, E>)
    requires 0 <= i < |s| && v(s[i]) == verdict
    requires TryFilter(v, s) == PrependOk(acc, TryFilter(v, s[i..]))
    ensures verdict.Err? ==> TryFilter(v, s) == Err(verdict.error)
    ensures verdict.Ok? ==>
      TryFilter(v, s) == PrependOk(if verdict.value then acc + [s[i]] else acc, TryFilter(v, s[i + 1..]))
  {
    TryFilterStep(v, s, i);
    if verdict.Ok? {
      PrependOkTwice(acc, if verdict.value then [s[i]] else [], TryFilter(v, s[i + 1..]));
      assert acc + [] == acc;
    }
  }

  lemma PrependOkNil<T, E>(r: Result<seq<T>, E>)
    ensures PrependOk([], r) == r
  {
    if r.Ok? {
      assert [] + r.value == r.value;
    }
  }

  lemma PrependOkTwice<T, E>(a: seq<T>, b: seq<T>, r: Result<seq<T>, E>)
    ensures PrependOk(a, PrependOk(b, r)) == PrependOk(a + b, r)
  {
    if r.Ok? {
      assert a + (b + r.value) == (a + b) + r.value;
    }
  }

  /** A fallible filter succeeds exactly when no test fails, and then it is the
      plain filter by the test's answers. */
  lemma {:induction false} TryFilterOk<T, E>(v: T -> Result<bool, E>, s: seq<T>)
    ensures TryFilter(v, s).Ok? <==> forall i :: 0 <= i < |s| ==> v(s[i]).Ok?
    ensures TryFilter(v, s).Ok? ==> TryFilter(v, s).value == Filter(Accepted(v), s)
  {
    if s != [] {
      TryFilterOk(v, s[1..]);
      assert forall i :: 1 <= i < |s| ==> s[i] == s[1..][i - 1];
    }
  }

  /** What a fallible filter keeps is a subsequence of its input. */
  lemma TryFilterIsSubsequence<T, E>(v: T -> Result<bool, E>, s: seq<T>)
    ensures TryFilter(v, s).Ok? ==> IsSubsequence(TryFilter(v, s).value, s)
  {
    TryFilterOk(v, s);
    FilterIsSubsequence(Accepted(v), s);
  }

  /** A failure is the failure of the first element whose test fails. */
  lemma {:induction false} TryFilterFirstError<T, E>(v: T -> Result<bool, E>, s: seq<T>, k: nat)
    requires k < |s| && v(s[k]).Err?
    requires forall i :: 0 <= i < k ==> v(s[i]).Ok?
    ensures TryFilter(v, s) == Err(v(s[k]).error)
  {
    if k > 0 {
      TryFilterFirstError(v, s[1..], k - 1);
    }
  }

  /** A test every element passes keeps the length; a filter that keeps the
      length kept everything. */
  lemma {:induction false} FilterLength<T>(p: T -> bool, s: seq<T>)
    ensures |Filter(p, s)| == |s| <==> forall i :: 0 <= i < |s| ==> p(s[i])
  {
    if s != [] {
      FilterLength(p, s[1..]);
      assert forall i :: 1 <= i < |s| ==> s[i] == s[1..][i - 1];
    }
  }
}
