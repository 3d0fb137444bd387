/** Small sequence helpers shared by the rest of the model: Option, and the
    array methods chatbot.js leans on (`find`/`findIndex`, `filter`). */
module Wrappers {

  datatype Option<+T> = None | Some(value: T)
}

module Collections {

  /** `s.findIndex(p)`: the index of the first element satisfying `p`, or -1. */
  function FindFirst<T>(s: seq<T>, p: T -> bool): (r: int)
    ensures -1 <= r < |s|
    ensures r == -1 <==> forall k :: 0 <= k < |s| ==> !p(s[k])
    ensures 0 <= r ==> p(s[r]) && forall k :: 0 <= k < r ==> !p(s[k])
  {
    if |s| == 0 then -1
    else if p(s[0]) then 0
    else
      var r := FindFirst(s[1..], p);
      if r == -1 then -1 else r + 1
  }

  /** `s.filter(p)`: the elements satisfying `p`, in their original order. */
  function Filter<T(==)>(s: seq<T>, p: T -> bool): (r: seq<T>)
    ensures |r| <= |s|
    ensures forall k :: 0 <= k < |r| ==> r[k] in s && p(r[k])
    ensures forall k :: 0 <= k < |s| && p(s[k]) ==> s[k] in r
  {
    if |s| == 0 then []
    else if p(s[0]) then [s[0]] + Filter(s[1..], p)
    else Filter(s[1..], p)
  }

  /** No element occurs twice. */
  predicate NoDups<T(==)>(s: seq<T>) {
    forall i, j :: 0 <= i < j < |s| ==> s[i] != s[j]
  }

  /** Filtering distributes over concatenation, so it keeps relative order. */
  lemma {:induction false} FilterAppend<T>(a: seq<T>, b: seq<T>, p: T -> bool)
    ensures Filter(a + b, p) == Filter(a, p) + Filter(b, p)
  {
    if |a| > 0 {
      assert (a + b)[1..] == a[1..] + b;
      FilterAppend(a[1..], b, p);
    } else {
      assert a + b == b;
    }
  }

  /** Filtering with a test every element passes changes nothing. */
  lemma {:induction false} FilterKeepsAll<T>(s: seq<T>, p: T -> bool)
    requires forall k :: 0 <= k < |s| ==> p(s[k])
    ensures Filter(s, p) == s
  {
    if |s| > 0 {
      FilterKeepsAll(s[1..], p);
    }
  }

  /** Filtering with a test only the element at `k` fails takes out that
      element and leaves the others in their order. */
  lemma FilterDropsOne<T>(s: seq<T>, p: T -> bool, k: nat)
    requires k < |s| && !p(s[k])
    requires forall j :: 0 <= j < |s| && j != k ==> p(s[j])
    ensures Filter(s, p) == s[..k] + s[k + 1..]
  {
    var before, after := s[..k], s[k + 1..];
    forall j | 0 <= j < |after| ensures p(after[j]) {
      assert after[j] == s[k + 1 + j];
    }
    assert s == before + [s[k]] + after;
    FilterDropsMiddle(before, s[k], after, p);
  }

  lemma {:induction false} FilterDropsMiddle<T>(a: seq<T>, x: T, b: seq<T>, p: T -> bool)
    requires forall j :: 0 <= j < |a| ==> p(a[j])
    requires !p(x) && forall j :: 0 <= j < |b| ==> p(b[j])
    ensures Filter(a + [x] + b, p) == a + b
  {
    if |a| == 0 {
      assert a + [x] + b == [x] + b;
      FilterKeepsAll(b, p);
    } else {
      var tail := a[1..];
      FilterDropsMiddle(tail, x, b, p);
      assert (a + [x] + b)[1..] == tail + [x] + b;
      assert a + b == [a[0]] + (tail + b);
    }
  }

  /** Filtering with a test no element passes leaves nothing. */
  lemma {:induction false} FilterNone<T>(s: seq<T>, p: T -> bool)
    requires forall k :: 0 <= k < |s| ==> !p(s[k])
    ensures Filter(s, p) == []
  {
    if |s| > 0 {
      FilterNone(s[1..], p);
    }
  }

  /** A filtered duplicate-free sequence stays duplicate-free. */
  lemma {:induction false} FilterNoDups<T>(s: seq<T>, p: T -> bool)
    requires NoDups(s)
    ensures NoDups(Filter(s, p))
  {
    if |s| > 0 {
      var rest := s[1..];
      TailNoDups(s);
      FilterNoDups(rest, p);
      if p(s[0]) {
        var kept := Filter(rest, p);
        assert s[0] !in rest by {
          forall j | 0 <= j < |rest| ensures rest[j] != s[0] {
            assert rest[j] == s[j + 1];
          }
        }
        assert s[0] !in kept;
        ConsNoDups(s[0], kept);
      }
    }
  }

  /** Dropping the first element keeps a sequence duplicate-free. */
  lemma TailNoDups<T>(s: seq<T>)
    requires NoDups(s) && |s| > 0
    ensures NoDups(s[1..])
  {
    var rest := s[1..];
    forall i, j | 0 <= i < j < |rest| ensures rest[i] != rest[j] {
      assert rest[i] == s[i + 1] && rest[j] == s[j + 1];
    }
  }

  /** Putting an absent element in front keeps a sequence duplicate-free. */
  lemma ConsNoDups<T>(x: T, s: seq<T>)
    requires NoDups(s) && x !in s
    ensures NoDups([x] + s)
  {
    var r := [x] + s;
    forall i, j | 0 <= i < j < |r| ensures r[i] != r[j] {
      if i == 0 {
        assert r[j] == s[j - 1];
      } else {
        assert r[i] == s[i - 1] && r[j] == s[j - 1];
      }
    }
  }

  /** Appending an element that is absent keeps a sequence duplicate-free. */
  lemma AppendFreshNoDups<T>(s: seq<T>, x: T)
    requires NoDups(s) && x !in s
    ensures NoDups(s + [x])
  {
    var r := s + [x];
    forall i, j | 0 <= i < j < |r| ensures r[i] != r[j] {
      if j == |s| {
        assert r[i] == s[i];
      } else {
        assert r[i] == s[i] && r[j] == s[j];
      }
    }
  }
}
