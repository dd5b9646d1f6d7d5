/** The JavaScript array operations the pool relies on, with their exact semantics. */
module Seqs {

  /** `s.findIndex(p)`: the first index whose element satisfies `p`, or -1 when there is none. */
  function FindIndex<T>(s: seq<T>, p: T -> bool): (i: int)
    ensures -1 <= i < |s|
    ensures 0 <= i ==> p(s[i])
    ensures forall j :: 0 <= j < |s| && (i == -1 || j < i) ==> !p(s[j])
  {
    if |s| == 0 then -1
    else if p(s[0]) then 0
    else
      var k := FindIndex(s[1..], p);
      if k == -1 then -1 else k + 1
  }

  /** `s.filter(p)`: the elements satisfying `p`, in their original order. */
  function Filter<T>(s: seq<T>, p: T -> bool): (r: seq<T>)
    ensures |r| <= |s|
    ensures forall j :: 0 <= j < |r| ==> p(r[j])
  {
    if |s| == 0 then []
    else (if p(s[0]) then [s[0]] else []) + Filter(s[1..], p)
  }

  lemma {:induction false} FilterConcat<T>(a: seq<T>, b: seq<T>, p: T -> bool)
    ensures Filter(a + b, p) == Filter(a, p) + Filter(b, p)
  {
    if |a| == 0 {
      assert a + b == b;
    } else {
      assert (a + b)[1..] == a[1..] + b;
      FilterConcat(a[1..], b, p);
    }
  }

  lemma {:induction false} FilterAll<T>(s: seq<T>, p: T -> bool)
    requires forall j :: 0 <= j < |s| ==> p(s[j])
    ensures Filter(s, p) == s
  {
    if |s| > 0 {
      FilterAll(s[1..], p);
    }
  }

  lemma {:induction false} FilterNone<T>(s: seq<T>, p: T -> bool)
    requires forall j :: 0 <= j < |s| ==> !p(s[j])
    ensures Filter(s, p) == []
  {
    if |s| > 0 {
      FilterNone(s[1..], p);
    }
  }

  /** Replacing one element changes the size of a filter by the change in that element's verdict. */
  lemma {:induction false} FilterUpdateSize<T>(s: seq<T>, i: nat, x: T, p: T -> bool)
    requires i < |s|
    ensures |Filter(s[i := x], p)| + (if p(s[i]) then 1 else 0)
         == |Filter(s, p)| + (if p(x) then 1 else 0)
  {
    if i == 0 {
      assert s[i := x][1..] == s[1..];
    } else {
      assert s[i := x][1..] == s[1..][i - 1 := x];
      FilterUpdateSize(s[1..], i - 1, x, p);
    }
  }

  /** `s.splice(start, 1)`: a negative `start` counts back from the end (clamped at 0), and a start
      at or past the end removes nothing. So `s.splice(s.indexOf(x), 1)` with `x` absent drops the
      LAST element. */
  function SpliceOne<T>(s: seq<T>, start: int): (r: seq<T>)
    ensures var k := SpliceStart(|s|, start);
      && (k < |s| ==>
            && |r| == |s| - 1
            && (forall j :: 0 <= j < k ==> r[j] == s[j])
            && (forall j :: k <= j < |r| ==> r[j] == s[j + 1]))
      && (k >= |s| ==> r == s)
  {
    var k := SpliceStart(|s|, start);
    if k < |s| then s[..k] + s[k + 1..] else s
  }

  /** The index `splice` actually starts at. */
  function SpliceStart(len: nat, start: int): nat
  {
    if start >= 0 then start
    else if len + start >= 0 then len + start
    else 0
  }

  /** Removing the element at `k` keeps exactly the elements that differ from it, in order,
      when that element occurs nowhere else. */
  lemma {:induction false} RemoveAtIsFilter<T>(s: seq<T>, k: nat, p: T -> bool)
    requires k < |s|
    requires !p(s[k])
    requires forall j :: 0 <= j < |s| && j != k ==> p(s[j])
    ensures s[..k] + s[k + 1..] == Filter(s, p)
  {
    var front, back := s[..k], s[k + 1..];
    assert s == (front + [s[k]]) + back;
    FilterConcat(front + [s[k]], back, p);
    FilterConcat(front, [s[k]], p);
    FilterOne(s[k], p);
    forall j | 0 <= j < |front|
      ensures p(front[j])
    {
      assert front[j] == s[j];
    }
    FilterAll(front, p);
    forall j | 0 <= j < |back|
      ensures p(back[j])
    {
      assert back[j] == s[k + 1 + j];
    }
    FilterAll(back, p);
  }

  lemma FilterOne<T>(x: T, p: T -> bool)
    ensures Filter([x], p) == if p(x) then [x] else []
  {
    assert [x][1..] == [];
  }
}
