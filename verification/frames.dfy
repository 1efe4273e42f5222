/**
 * Member rows and the order-preserving row selection that every filter of
 * the picker is built from. A frame is the model of the pandas DataFrame the
 * program passes around: an ordered sequence of rows, each carrying its
 * index label and one member.
 */
module Frames {
  import opened Wrappers
  import opened Calendar

  /** One member, projected to the four kept columns; a null cell is None. */
  datatype Member = Member(
    name: Option<string>,
    email: Option<string>,
    createdAt: Option<Instant>,
    lastSeenAt: Option<Instant>)

  /** A frame row: its index label and its member. */
  datatype Row = Row(index: nat, member: Member)

  type Frame = seq<Row>

  /** Index labels strictly increase down the frame (so no label repeats). */
  predicate IndexIncreasing(f: Frame)
  {
    forall i, j :: 0 <= i < j < |f| ==> f[i].index < f[j].index
  }

  /** The frame `pd.concat(..., ignore_index=True)` builds: row `i` is labelled `i`. */
  function Label(ms: seq<Member>): (f: Frame)
    ensures |f| == |ms|
    ensures forall i :: 0 <= i < |ms| ==> f[i] == Row(i, ms[i])
  {
    seq(|ms|, i requires 0 <= i < |ms| => Row(i, ms[i]))
  }

  lemma LabelIsIncreasing(ms: seq<Member>)
    ensures IndexIncreasing(Label(ms))
  {}

  /** `a` is `b` with some elements deleted and the rest kept in order. */
  predicate IsSubsequence<T(==,!new)>(a: seq<T>, b: seq<T>)
    decreases |b|
  {
    if a == [] then true
    else if b == [] then false
    else if a[0] == b[0] then IsSubsequence(a[1..], b[1..])
    else IsSubsequence(a, b[1..])
  }

  /**
   * The elements of `s` that satisfy `keep`, in their original order: the
   * model of `df.loc[mask]` for a boolean mask computed row by row.
   */
  function Select<T(==,!new)>(s: seq<T>, keep: T -> bool): (r: seq<T>)
    ensures |r| <= |s|
    ensures forall x :: x in r <==> x in s && keep(x)
    ensures IsSubsequence(r, s)
    ensures forall x :: multiset(r)[x] == if keep(x) then multiset(s)[x] else 0
  {
    if s == [] then []
    else
      assert s == [s[0]] + s[1..];
      if keep(s[0]) then [s[0]] + Select(s[1..], keep)
      else Select(s[1..], keep)
  }

  /** Two selections in a row are one selection by the conjunction. */
  lemma {:induction false} SelectSelect<T(!new)>(s: seq<T>, p: T -> bool, q: T -> bool, pq: T -> bool)
    requires forall x :: x in s ==> pq(x) == (p(x) && q(x))
    ensures Select(Select(s, p), q) == Select(s, pq)
  {
    if s != [] {
      SelectSelect(s[1..], p, q, pq);
      if p(s[0]) {
        assert Select(s, p) == [s[0]] + Select(s[1..], p);
        assert Select(s, p)[1..] == Select(s[1..], p);
      }
    }
  }

  /** Selections by predicates that agree on the elements are equal. */
  lemma {:induction false} SelectAgree<T(!new)>(s: seq<T>, p: T -> bool, q: T -> bool)
    requires forall x :: x in s ==> p(x) == q(x)
    ensures Select(s, p) == Select(s, q)
  {
    if s != [] {
      SelectAgree(s[1..], p, q);
    }
  }

  /** Selecting by a predicate every element satisfies changes nothing. */
  lemma {:induction false} SelectAll<T(!new)>(s: seq<T>, p: T -> bool)
    requires forall x :: x in s ==> p(x)
    ensures Select(s, p) == s
  {
    if s != [] {
      SelectAll(s[1..], p);
    }
  }

  /** In a frame with increasing labels, the first label is below every later one. */
  lemma HeadBelowTail(f: Frame)
    requires f != [] && IndexIncreasing(f)
    ensures forall x :: x in f[1..] ==> f[0].index < x.index
  {
    forall x | x in f[1..]
      ensures f[0].index < x.index
    {
      var j :| 0 <= j < |f[1..]| && f[1..][j] == x;
      assert f[j + 1] == x;
    }
  }

  /** A row labelled below every row of an increasing frame can go in front of it. */
  lemma PrependKeepsIndexOrder(x: Row, rest: Frame)
    requires IndexIncreasing(rest)
    requires forall y :: y in rest ==> x.index < y.index
    ensures IndexIncreasing([x] + rest)
  {
    forall i, j | 0 <= i < j < |[x] + rest|
      ensures ([x] + rest)[i].index < ([x] + rest)[j].index
    {
      assert ([x] + rest)[j] == rest[j - 1];
      if i > 0 {
        assert ([x] + rest)[i] == rest[i - 1];
      }
    }
  }

  /** A selection from a frame keeps its labels increasing. */
  lemma {:induction false} SelectKeepsIndexOrder(f: Frame, keep: Row -> bool)
    requires IndexIncreasing(f)
    ensures IndexIncreasing(Select(f, keep))
  {
    if f != [] {
      SelectKeepsIndexOrder(f[1..], keep);
      if keep(f[0]) {
        HeadBelowTail(f);
        PrependKeepsIndexOrder(f[0], Select(f[1..], keep));
      }
    }
  }
}
