/** Generic helpers shared by the table models: nullable values and the
    row selection that a SQL `WHERE` (or JavaScript's `Array.filter`) performs. */
module Collections {

  /** A nullable value: a column that may be NULL, a lookup that may find nothing. */
  datatype Option<+T> = None | Some(value: T) {
    function GetOr(default: T): T {
      match this
      case Some(v) => v
      case None => default
    }
  }

  /** The elements of `s` that satisfy `p`, in their original order. */
  function Filter<T(!new)>(s: seq<T>, p: T -> bool): (r: seq<T>)
    ensures |r| <= |s|
    ensures forall x :: x in r <==> x in s && p(x)
    decreases |s|
  {
    if s == [] then []
    else if p(s[0]) then [s[0]] + Filter(s[1..], p)
    else Filter(s[1..], p)
  }

  /** The first element of `s`, as `result[0]` gives it (undefined on an empty result). */
  function First<T>(s: seq<T>): (r: Option<T>)
    ensures r.None? <==> s == []
    ensures r.Some? ==> r.value == s[0]
  {
    if s == [] then None else Some(s[0])
  }

  /** Filtering with a predicate that every element satisfies keeps the sequence as it is. */
  lemma {:induction false} FilterKeepsAll<T(!new)>(s: seq<T>, p: T -> bool)
    requires forall x :: x in s ==> p(x)
    ensures Filter(s, p) == s
    decreases |s|
  {
    if s != [] {
      assert p(s[0]);
      FilterKeepsAll(s[1..], p);
    }
  }

  /** Filtering with a predicate that no element satisfies gives the empty sequence. */
  lemma {:induction false} FilterKeepsNone<T(!new)>(s: seq<T>, p: T -> bool)
    requires forall x :: x in s ==> !p(x)
    ensures Filter(s, p) == []
    decreases |s|
  {
    if s != [] {
      assert !p(s[0]);
      FilterKeepsNone(s[1..], p);
    }
  }

  /** When exactly the element at `k` fails `p`, filtering removes that element
      and keeps the others in their order. */
  lemma {:induction false} FilterRemovesOne<T(!new)>(s: seq<T>, p: T -> bool, k: nat)
    requires k < |s| && !p(s[k])
    requires forall i :: 0 <= i < |s| && i != k ==> p(s[i])
    ensures Filter(s, p) == s[..k] + s[k + 1..]
    decreases k
  {
    if k == 0 {
      forall x | x in s[1..] ensures p(x) {
        var i :| 0 <= i < |s| - 1 && s[1..][i] == x;
        assert s[i + 1] == x;
      }
      FilterKeepsAll(s[1..], p);
    } else {
      var tail := s[1..];
      forall i | 0 <= i < |tail| && i != k - 1 ensures p(tail[i]) {
        assert tail[i] == s[i + 1];
      }
      FilterRemovesOne(tail, p, k - 1);
      assert s == [s[0]] + tail;
      assert p(s[0]);
      calc {
        Filter(s, p);
        [s[0]] + Filter(tail, p);
        [s[0]] + (tail[..k - 1] + tail[k..]);
        { assert s[..k] == [s[0]] + tail[..k - 1] && s[k + 1..] == tail[k..]; }
        s[..k] + s[k + 1..];
      }
    }
  }

  /** Two sequences that agree, index by index, on whether `p` holds have
      filters that are empty together. */
  lemma FilterEmptyTogether<T(!new)>(s: seq<T>, t: seq<T>, p: T -> bool)
    requires |t| == |s| && forall i :: 0 <= i < |s| ==> p(t[i]) == p(s[i])
    ensures Filter(t, p) == [] <==> forall x :: x in s ==> !p(x)
  {
    if Filter(t, p) != [] {
      var y := Filter(t, p)[0];
      assert y in Filter(t, p);
      var i :| 0 <= i < |t| && t[i] == y;
      assert s[i] in s;
    }
    if x :| x in s && p(x) {
      var i :| 0 <= i < |s| && s[i] == x;
      assert t[i] in Filter(t, p);
    }
  }

  /** When at most one index of `s` satisfies `p`, the filter has at most one element. */
  lemma {:induction false} FilterAtMostOne<T(!new)>(s: seq<T>, p: T -> bool)
    requires forall i, j :: 0 <= i < j < |s| && p(s[i]) ==> !p(s[j])
    ensures |Filter(s, p)| <= 1
    decreases |s|
  {
    if s != [] {
      FilterAtMostOne(s[1..], p);
      if p(s[0]) {
        forall x | x in s[1..] ensures !p(x) {
          var k :| 0 <= k < |s[1..]| && s[1..][k] == x;
          assert s[k + 1] == x;
        }
        FilterKeepsNone(s[1..], p);
      }
    }
  }

  /** Filtering keeps a key that was distinct across the sequence distinct. */
  lemma {:induction false} FilterKeepsDistinct<T(!new), K>(s: seq<T>, p: T -> bool, key: T -> K)
    requires forall i, j :: 0 <= i < j < |s| ==> key(s[i]) != key(s[j])
    ensures forall i, j :: 0 <= i < j < |Filter(s, p)| ==> key(Filter(s, p)[i]) != key(Filter(s, p)[j])
    decreases |s|
  {
    if s != [] {
      FilterKeepsDistinct(s[1..], p, key);
      var rest := Filter(s[1..], p);
      if p(s[0]) {
        forall j | 0 <= j < |rest| ensures key(s[0]) != key(rest[j]) {
          assert rest[j] in s[1..];
          var k :| 0 <= k < |s[1..]| && s[1..][k] == rest[j];
          assert s[k + 1] == rest[j];
        }
      }
    }
  }
}
