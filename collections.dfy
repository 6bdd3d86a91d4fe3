/** The array operations the quiz code relies on (Array.prototype.filter,
    find, findIndex and an id-keyed map), stated once over sequences, with
    the facts about them that the store and the provider need. */
module Collections {

  datatype Option<T> = None | Some(value: T)

  /** `s.filter(p)`: the elements of `s` that satisfy `p`, in their order. */
  function Filter<T>(s: seq<T>, p: T -> bool): (r: seq<T>)
    ensures |r| <= |s|
    ensures forall i :: 0 <= i < |r| ==> r[i] in s && p(r[i])
    ensures forall i :: 0 <= i < |s| && p(s[i]) ==> s[i] in r
  {
    if |s| == 0 then [] else (if p(s[0]) then [s[0]] else []) + Filter(s[1..], p)
  }

  /** Filtering a sequence with a new head. */
  lemma FilterCons<T>(x: T, s: seq<T>, p: T -> bool)
    ensures Filter([x] + s, p) == (if p(x) then [x] else []) + Filter(s, p)
  {
    assert ([x] + s)[0] == x && ([x] + s)[1..] == s;
  }

  /** An element the predicate rejects can move past one it accepts
      without changing the filter. */
  lemma FilterConsShift<T>(x: T, rest: seq<T>, tail: seq<T>, y: T, p: T -> bool)
    requires Filter(rest, p) == (if p(y) then [y] else []) + Filter(tail, p)
    requires p(y) ==> !p(x)
    ensures Filter([x] + rest, p) == (if p(y) then [y] else []) + Filter([x] + tail, p)
  {
    FilterCons(x, rest, p);
    FilterCons(x, tail, p);
  }

  /** `s.findIndex(p)`: the first index whose element satisfies `p`, or -1. */
  function FindIndex<T>(s: seq<T>, p: T -> bool): (r: int)
    ensures -1 <= r < |s|
    ensures r == -1 <==> forall i :: 0 <= i < |s| ==> !p(s[i])
    ensures 0 <= r ==> p(s[r]) && forall j :: 0 <= j < r ==> !p(s[j])
  {
    if |s| == 0 then -1
    else if p(s[0]) then 0
    else
      var k := FindIndex(s[1..], p);
      if k < 0 then -1 else k + 1
  }

  /** `s.find(p)`: the first element satisfying `p`, or nothing. */
  function Find<T>(s: seq<T>, p: T -> bool): (r: Option<T>)
    ensures r.None? <==> forall i :: 0 <= i < |s| ==> !p(s[i])
    ensures r.Some? ==> r.value in s && p(r.value)
    ensures r.Some? ==> r.value == s[FindIndex(s, p)]
  {
    var i := FindIndex(s, p);
    if i < 0 then None else Some(s[i])
  }

  /** After the first match is overwritten by another match, it is still the first. */
  lemma FindAfterUpdate<T>(s: seq<T>, p: T -> bool, x: T)
    requires 0 <= FindIndex(s, p) && p(x)
    ensures Find(s[FindIndex(s, p) := x], p) == Some(x)
  {
    var i := FindIndex(s, p);
    var k := FindIndex(s[i := x], p);
    assert p(s[i := x][i]);
    assert forall j :: 0 <= j < i ==> s[i := x][j] == s[j];
  }

  /** An element appended to a sequence without matches is the first match. */
  lemma FindAfterAppend<T>(s: seq<T>, p: T -> bool, x: T)
    requires FindIndex(s, p) == -1 && p(x)
    ensures Find(s + [x], p) == Some(x)
  {
    var k := FindIndex(s + [x], p);
    assert p((s + [x])[|s|]);
    assert forall j :: 0 <= j < |s| ==> (s + [x])[j] == s[j];
  }

  /** `s.map(y => p(y) ? x : y)`: every element satisfying `p` replaced by `x`. */
  function ReplaceWhere<T>(s: seq<T>, p: T -> bool, x: T): (r: seq<T>)
    ensures |r| == |s|
    ensures forall i :: 0 <= i < |s| && p(s[i]) ==> r[i] == x
    ensures forall i :: 0 <= i < |s| && !p(s[i]) ==> r[i] == s[i]
  {
    if |s| == 0 then [] else [if p(s[0]) then x else s[0]] + ReplaceWhere(s[1..], p, x)
  }

  /** No two positions of `s` carry the same key. */
  ghost predicate KeysDistinct<T, K>(s: seq<T>, key: T -> K) {
    forall i, j :: 0 <= i < j < |s| ==> key(s[i]) != key(s[j])
  }

  /** `r` is `s` with some elements left out, the rest in their order. */
  ghost predicate SubsequenceOf<T>(r: seq<T>, s: seq<T>)
    decreases |s|
  {
    if |r| == 0 then true
    else if |s| == 0 then false
    else (r[0] == s[0] && SubsequenceOf(r[1..], s[1..])) || SubsequenceOf(r, s[1..])
  }

  /** Filtering keeps the original order: the result is a subsequence. */
  lemma {:induction false} FilterIsSubsequence<T>(s: seq<T>, p: T -> bool)
    ensures SubsequenceOf(Filter(s, p), s)
  {
    if |s| > 0 {
      FilterIsSubsequence(s[1..], p);
      var r := Filter(s, p);
      if p(s[0]) {
        assert r == [s[0]] + Filter(s[1..], p);
        assert r[1..] == Filter(s[1..], p);
      } else {
        assert r == Filter(s[1..], p);
        SubsequenceSkip(r, s);
      }
    }
  }

  lemma {:induction false} SubsequenceSkip<T>(r: seq<T>, s: seq<T>)
    requires |s| > 0 && SubsequenceOf(r, s[1..])
    ensures SubsequenceOf(r, s)
  {
  }

  /** Filtering keeps every occurrence of a satisfying element and no other. */
  lemma {:induction false} FilterCounts<T>(s: seq<T>, p: T -> bool, x: T)
    ensures multiset(Filter(s, p))[x] == if p(x) then multiset(s)[x] else 0
  {
    if |s| > 0 {
      FilterCounts(s[1..], p, x);
      assert s == [s[0]] + s[1..];
      assert multiset(s) == multiset{s[0]} + multiset(s[1..]);
      var h := if p(s[0]) then [s[0]] else [];
      assert Filter(s, p) == h + Filter(s[1..], p);
      assert multiset(Filter(s, p)) == multiset(h) + multiset(Filter(s[1..], p));
    }
  }

  lemma {:induction false} FilterAppend<T>(a: seq<T>, b: seq<T>, p: T -> bool)
    ensures Filter(a + b, p) == Filter(a, p) + Filter(b, p)
  {
    if |a| == 0 {
      assert a + b == b;
    } else {
      assert (a + b)[1..] == a[1..] + b;
      FilterAppend(a[1..], b, p);
    }
  }

  /** The filtered sequence is as long as the original exactly when every
      element satisfies the predicate, and it is then the original. */
  lemma {:induction false} FilterKeepsAll<T>(s: seq<T>, p: T -> bool)
    ensures |Filter(s, p)| == |s| <==> forall i :: 0 <= i < |s| ==> p(s[i])
    ensures (forall i :: 0 <= i < |s| ==> p(s[i])) ==> Filter(s, p) == s
  {
    if |s| > 0 {
      FilterKeepsAll(s[1..], p);
      assert forall i :: 1 <= i < |s| ==> s[i] == s[1..][i - 1];
      if forall i :: 0 <= i < |s| ==> p(s[i]) {
        assert forall i :: 0 <= i < |s| - 1 ==> p(s[1..][i]);
        assert s == [s[0]] + s[1..];
      }
    }
  }

  lemma {:induction false} FilterCommutes<T>(s: seq<T>, p: T -> bool, q: T -> bool)
    ensures Filter(Filter(s, p), q) == Filter(Filter(s, q), p)
  {
    if |s| > 0 {
      FilterCommutes(s[1..], p, q);
      var hp := if p(s[0]) then [s[0]] else [];
      var hq := if q(s[0]) then [s[0]] else [];
      assert Filter(s, p) == hp + Filter(s[1..], p);
      assert Filter(s, q) == hq + Filter(s[1..], q);
      FilterAppend(hp, Filter(s[1..], p), q);
      FilterAppend(hq, Filter(s[1..], q), p);
    }
  }

  lemma {:induction false} FilterKeysDistinct<T, K>(s: seq<T>, p: T -> bool, key: T -> K)
    requires KeysDistinct(s, key)
    ensures KeysDistinct(Filter(s, p), key)
  {
    if |s| > 0 {
      var t := s[1..];
      assert KeysDistinct(t, key) by {
        forall i, j | 0 <= i < j < |t| ensures key(t[i]) != key(t[j]) {
          assert t[i] == s[i + 1] && t[j] == s[j + 1];
        }
      }
      FilterKeysDistinct(t, p, key);
      var f := Filter(t, p);
      if p(s[0]) {
        var r := [s[0]] + f;
        assert Filter(s, p) == r;
        forall y | y in f ensures key(y) != key(s[0]) {
          var j :| 0 <= j < |t| && t[j] == y;
          assert s[j + 1] == y;
        }
        forall i, j | 0 <= i < j < |r| ensures key(r[i]) != key(r[j]) {
          if i == 0 {
            assert r[j] == f[j - 1] && r[j] in f;
          } else {
            assert r[i] == f[i - 1] && r[j] == f[j - 1];
          }
        }
      }
    }
  }

  lemma KeyAtOnly<T, K>(s: seq<T>, i: int, key: T -> K)
    requires KeysDistinct(s, key) && 0 <= i < |s|
    ensures forall j :: 0 <= j < |s| && j != i ==> key(s[j]) != key(s[i])
  {
  }

  lemma KeysDistinctAppend<T, K>(s: seq<T>, x: T, key: T -> K)
    requires KeysDistinct(s, key)
    requires forall i :: 0 <= i < |s| ==> key(s[i]) != key(x)
    ensures KeysDistinct(s + [x], key)
  {
  }

  lemma KeysDistinctUpdate<T, K>(s: seq<T>, i: int, x: T, key: T -> K)
    requires KeysDistinct(s, key) && 0 <= i < |s| && key(x) == key(s[i])
    ensures KeysDistinct(s[i := x], key)
  {
  }

  /** When only position `i` satisfies `p`, the map-replace is a point update. */
  lemma ReplaceWhereSingle<T>(s: seq<T>, p: T -> bool, i: int, x: T)
    requires 0 <= i < |s| && p(s[i])
    requires forall j :: 0 <= j < |s| && j != i ==> !p(s[j])
    ensures ReplaceWhere(s, p, x) == s[i := x]
  {
  }

  lemma {:induction false} ReplaceWhereAppend<T>(a: seq<T>, b: seq<T>, p: T -> bool, x: T)
    ensures ReplaceWhere(a + b, p, x) == ReplaceWhere(a, p, x) + ReplaceWhere(b, p, x)
  {
    var r := ReplaceWhere(a + b, p, x);
    var l := ReplaceWhere(a, p, x) + ReplaceWhere(b, p, x);
    assert |r| == |l|;
    forall k | 0 <= k < |r| ensures r[k] == l[k] {
      if k < |a| {
        assert (a + b)[k] == a[k];
      } else {
        assert (a + b)[k] == b[k - |a|];
      }
    }
  }

  /** Replacing one element of a sequence and then filtering is the same as
      filtering and then replacing, by a key only that element has, when the
      replacement agrees with the original on the filter. */
  lemma {:induction false} FilterUpdate<T>(s: seq<T>, i: int, x: T, p: T -> bool, q: T -> bool)
    requires 0 <= i < |s| && q(s[i])
    requires forall j :: 0 <= j < |s| && j != i ==> !q(s[j])
    requires p(x) == p(s[i])
    ensures Filter(s[i := x], p) == ReplaceWhere(Filter(s, p), q, x)
  {
    var t := s[1..];
    var h := if p(s[0]) then [s[0]] else [];
    assert Filter(s, p) == h + Filter(t, p);
    ReplaceWhereAppend(h, Filter(t, p), q, x);
    if i == 0 {
      FilterUpdateHead(s, x, p, q);
    } else {
      FilterUpdateTail(s, i, x, p);
      forall j | 0 <= j < |t| && j != i - 1 ensures !q(t[j]) {
        assert t[j] == s[j + 1];
      }
      FilterUpdate(t, i - 1, x, p, q);
    }
  }

  lemma FilterUpdateTail<T>(s: seq<T>, i: int, x: T, p: T -> bool)
    requires 0 < i < |s|
    ensures Filter(s[i := x], p) == (if p(s[0]) then [s[0]] else []) + Filter(s[1..][i - 1 := x], p)
  {
    assert s[i := x] == [s[0]] + s[1..][i - 1 := x];
    FilterCons(s[0], s[1..][i - 1 := x], p);
  }

  lemma FilterUpdateHead<T>(s: seq<T>, x: T, p: T -> bool, q: T -> bool)
    requires 0 < |s| && forall j :: 1 <= j < |s| ==> !q(s[j])
    requires p(x) == p(s[0])
    ensures Filter(s[0 := x], p) == (if p(x) then [x] else []) + ReplaceWhere(Filter(s[1..], p), q, x)
    ensures ReplaceWhere(Filter(s[1..], p), q, x) == Filter(s[1..], p)
  {
    var t := s[1..];
    assert s[0 := x] == [x] + t;
    assert s[0 := x][1..] == t;
    var f := Filter(t, p);
    forall k | 0 <= k < |f| ensures !q(f[k]) {
      var j :| 0 <= j < |t| && t[j] == f[k];
      assert s[j + 1] == f[k];
    }
    ReplaceWhereUntouched(f, q, x);
  }

  lemma ReplaceWhereUntouched<T>(s: seq<T>, p: T -> bool, x: T)
    requires forall k :: 0 <= k < |s| ==> !p(s[k])
    ensures ReplaceWhere(s, p, x) == s
  {
  }
}
