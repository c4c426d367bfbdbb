/** Instants and half-open intervals on one integer timeline (for example
    minutes since some reference point). Both busy calendar events and free
    slots are values of `Interval`. */
module Intervals {

  datatype Option<T> = None | Some(value: T)

  /** The half-open interval [start, end). Nothing forces start <= end: a
      calendar event may arrive inverted, and such an interval holds no instant. */
  datatype Interval = Interval(start: int, end: int)

  function Max(a: int, b: int): int
  {
    if a >= b then a else b
  }

  function Length(iv: Interval): int
  {
    iv.end - iv.start
  }

  predicate Contains(iv: Interval, t: int)
  {
    iv.start <= t < iv.end
  }

  /** Two intervals overlap when they share at least one instant. */
  predicate Overlaps(a: Interval, b: Interval)
  {
    a.start < b.end && b.start < a.end && a.start < a.end && b.start < b.end
  }

  /** `inner` lies within `outer`. */
  predicate Within(inner: Interval, outer: Interval)
  {
    outer.start <= inner.start && inner.end <= outer.end
  }

  /** Every interval ends before (or where) every later one starts. */
  predicate Ordered(s: seq<Interval>)
  {
    forall i, j :: 0 <= i < j < |s| ==> s[i].end <= s[j].start
  }

  predicate PairwiseDisjoint(s: seq<Interval>)
  {
    forall i, j :: 0 <= i < |s| && 0 <= j < |s| && i != j ==> !Overlaps(s[i], s[j])
  }

  /** Total length of a list of intervals. */
  function Total(s: seq<Interval>): int
  {
    if s == [] then 0 else Length(s[0]) + Total(s[1..])
  }

  /** `Overlaps` is exactly "some instant lies in both". */
  lemma OverlapsIffCommonInstant(a: Interval, b: Interval)
    ensures Overlaps(a, b) <==> exists t :: Contains(a, t) && Contains(b, t)
  {
    if Overlaps(a, b) {
      var t := Max(a.start, b.start);
      assert Contains(a, t) && Contains(b, t);
    }
  }

  /** A part of an interval overlaps nothing that the whole avoids. */
  lemma WithinAvoids(a: Interval, b: Interval, c: Interval)
    requires Within(a, b) && !Overlaps(b, c)
    ensures !Overlaps(a, c) && !Overlaps(c, a)
  {
  }

  lemma OrderedIsDisjoint(s: seq<Interval>)
    requires Ordered(s)
    ensures PairwiseDisjoint(s)
  {
  }

  lemma {:induction false} TotalAppend(a: seq<Interval>, b: seq<Interval>)
    ensures Total(a + b) == Total(a) + Total(b)
  {
    if a != [] {
      assert (a + b)[1..] == a[1..] + b;
      TotalAppend(a[1..], b);
    } else {
      assert a + b == b;
    }
  }

  /** Taking out the element at index k lowers the total by its length. */
  lemma TotalWithout(s: seq<Interval>, k: nat)
    requires k < |s|
    ensures Total(s[..k] + s[k+1..]) == Total(s) - Length(s[k])
  {
    assert s == s[..k] + [s[k]] + s[k+1..];
    TotalAppend(s[..k] + [s[k]], s[k+1..]);
    TotalAppend(s[..k], [s[k]]);
    TotalAppend(s[..k], s[k+1..]);
  }
}
