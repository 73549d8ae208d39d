/** Sequence helpers shared by the table model. */
module Seqs {

  /** The elements of `s` that satisfy `p`, in their original order: the rows a
      `WHERE` clause keeps when the engine scans a table. */
  function Filter<T(!new)>(s: seq<T>, p: T -> bool): (r: seq<T>)
    ensures |r| <= |s|
    ensures forall x :: x in r <==> x in s && p(x)
    ensures multiset(r) <= multiset(s)
  {
    if s == [] then []
    else
      assert s == [s[0]] + s[1..];
      if p(s[0]) then [s[0]] + Filter(s[1..], p) else Filter(s[1..], p)
  }

  lemma {:induction false} FilterAppend<T(!new)>(s: seq<T>, t: seq<T>, p: T -> bool)
    ensures Filter(s + t, p) == Filter(s, p) + Filter(t, p)
  {
    if s == [] {
      assert s + t == t;
    } else {
      assert (s + t)[0] == s[0];
      assert (s + t)[1..] == s[1..] + t;
      FilterAppend(s[1..], t, p);
    }
  }

  /** A filter that every element passes keeps the whole sequence. */
  lemma {:induction false} FilterKeepsAll<T(!new)>(s: seq<T>, p: T -> bool)
    requires forall j :: 0 <= j < |s| ==> p(s[j])
    ensures Filter(s, p) == s
  {
    if s != [] {
      assert p(s[0]);
      forall j | 0 <= j < |s| - 1 ensures p(s[1..][j]) {
        assert s[1..][j] == s[j + 1];
      }
      FilterKeepsAll(s[1..], p);
    }
  }

  /** A filter that no element passes keeps nothing. */
  lemma {:induction false} FilterKeepsNone<T(!new)>(s: seq<T>, p: T -> bool)
    requires forall j :: 0 <= j < |s| ==> !p(s[j])
    ensures Filter(s, p) == []
  {
    if s != [] {
      assert !p(s[0]);
      forall j | 0 <= j < |s| - 1 ensures !p(s[1..][j]) {
        assert s[1..][j] == s[j + 1];
      }
      FilterKeepsNone(s[1..], p);
    }
  }

  /** Two conditions that agree on every element select the same rows. */
  lemma {:induction false} FilterAgrees<T(!new)>(s: seq<T>, p: T -> bool, q: T -> bool)
    requires forall x :: x in s ==> p(x) == q(x)
    ensures Filter(s, p) == Filter(s, q)
  {
    if s != [] {
      assert s[0] in s;
      FilterAgrees(s[1..], p, q);
    }
  }

  /** Filtering out exactly one position removes that element and nothing else. */
  lemma FilterRemovesOne<T(!new)>(s: seq<T>, p: T -> bool, i: nat)
    requires i < |s| && !p(s[i])
    requires forall j :: 0 <= j < |s| && j != i ==> p(s[j])
    ensures Filter(s, p) == s[..i] + s[i + 1..]
  {
    var before, after := s[..i], s[i + 1..];
    assert s == before + ([s[i]] + after);
    assert Filter(before, p) == before by {
      forall j | 0 <= j < |before| ensures p(before[j]) {
        assert before[j] == s[j];
      }
      FilterKeepsAll(before, p);
    }
    assert Filter(after, p) == after by {
      forall j | 0 <= j < |after| ensures p(after[j]) {
        assert after[j] == s[i + 1 + j];
      }
      FilterKeepsAll(after, p);
    }
    assert Filter([s[i]], p) == [];
    FilterAppend([s[i]], after, p);
    FilterAppend(before, [s[i]] + after, p);
  }

  /** A relation that holds between every earlier and later element still holds
      after filtering, which keeps the order. */
  lemma {:induction false} FilterKeepsPairwise<T(!new)>(s: seq<T>, p: T -> bool, rel: (T, T) -> bool)
    requires forall i, j :: 0 <= i < j < |s| ==> rel(s[i], s[j])
    ensures forall i, j :: 0 <= i < j < |Filter(s, p)| ==> rel(Filter(s, p)[i], Filter(s, p)[j])
  {
    if s != [] {
      var tail := s[1..];
      forall i, j | 0 <= i < j < |tail| ensures rel(tail[i], tail[j]) {
        assert tail[i] == s[i + 1] && tail[j] == s[j + 1];
      }
      FilterKeepsPairwise(tail, p, rel);
      var rt := Filter(tail, p);
      if p(s[0]) {
        var r := [s[0]] + rt;
        assert Filter(s, p) == r;
        forall k | 0 <= k < |rt| ensures rel(s[0], rt[k]) {
          assert rt[k] in tail;
          var m :| 0 <= m < |tail| && tail[m] == rt[k];
          assert s[m + 1] == rt[k];
        }
        forall i, j | 0 <= i < j < |r| ensures rel(r[i], r[j]) {
          assert r[j] == rt[j - 1];
          if i > 0 {
            assert r[i] == rt[i - 1];
          }
        }
      }
    }
  }
}
