/**
 Interval sets of `pycroft/helpers/interval.py`: one-pass merges over sorted intervals, specified
 by the sets of points they stand for.

 A set is right-open when every finite lower bound is closed and every upper bound open, and closed
 when every finite bound is closed.  These are the two families on which the merges are exact.
 */
module IntervalSets {
  import opened Wrappers
  import opened Intervals

  // ----- meaning -----

  /** p lies in the set. */
  predicate In(p: Instant, s: seq<Interval>) {
    s != [] && (s[0].Has(p) || In(p, s[1..]))
  }

  datatype Family = RightOpen | Closed {
    predicate Fits(x: Interval) {
      && (x.lower.value.At? ==> x.lower.closed)
      && (x.upper.value.At? ==> (x.upper.closed <==> Closed?))
    }
  }

  ghost predicate AllFit(f: Family, s: seq<Interval>) {
    forall x :: x in s ==> f.Fits(x)
  }

  ghost predicate NoneEmpty(s: seq<Interval>) {
    forall x :: x in s ==> !x.Empty()
  }

  ghost predicate BoundedBelow(s: seq<Interval>) {
    forall x :: x in s ==> x.lower.value.At?
  }

  /** a lies before b and shares no point with it; they may touch. */
  predicate Before(a: Interval, b: Interval) {
    a.upper.value.AtMost(b.lower.value) && !(a.upper.value == b.lower.value && a.upper.closed && b.lower.closed)
  }

  /** a lies before b with room between them. */
  predicate WellBefore(a: Interval, b: Interval) {
    a.upper.value.Below(b.lower.value)
  }

  ghost predicate Ordered(s: seq<Interval>) {
    s != [] ==> (forall y :: y in s[1..] ==> Before(s[0], y)) && Ordered(s[1..])
  }

  ghost predicate Separated(s: seq<Interval>) {
    s != [] ==> (forall y :: y in s[1..] ==> WellBefore(s[0], y)) && Separated(s[1..])
  }

  /** Everything in s begins at v or later. */
  ghost predicate BeginsFrom(v: Value, s: seq<Interval>) {
    forall y :: y in s ==> v.AtMost(y.lower.value)
  }

  ghost predicate BeginSorted(s: seq<Interval>) {
    s != [] ==> BeginsFrom(s[0].lower.value, s[1..]) && BeginSorted(s[1..])
  }

  /** The canonical form: what `IntervalSet` promises of the sets it builds. */
  ghost predicate Canonical(s: seq<Interval>) {
    AllFit(RightOpen, s) && NoneEmpty(s) && BoundedBelow(s) && Separated(s)
  }

  lemma {:induction false} InMeaning(p: Instant, s: seq<Interval>)
    ensures In(p, s) <==> exists x :: x in s && x.Has(p)
  {
    if s == [] {
    } else {
      InMeaning(p, s[1..]);
      assert forall x :: x in s <==> x == s[0] || x in s[1..];
    }
  }

  // ----- _chain_ordered -----

  function Chained(left: seq<Interval>, right: seq<Interval>): seq<Interval>
    decreases |left| + |right|
  {
    if left == [] then right
    else if right == [] then left
    else if left[0].Precedes(right[0]) then [left[0]] + Chained(left[1..], right)
    else [right[0]] + Chained(left, right[1..])
  }

  /** The iterators are what is left to read, the current element first. */
  method ChainOrdered(left: seq<Interval>, right: seq<Interval>) returns (out: seq<Interval>)
    ensures out == Chained(left, right)
  {
    out := [];
    var l, r := left, right;
    while l != [] && r != []
      invariant out + Chained(l, r) == Chained(left, right)
      decreases |l| + |r|
    {
      ChainedStep(out, l, r);
      if l[0].Precedes(r[0]) {
        out, l := out + [l[0]], l[1..];
      } else {
        out, r := out + [r[0]], r[1..];
      }
    }
    while l != []
      invariant l == [] || r == []
      invariant out + (if l != [] then l else r) == Chained(left, right)
    {
      Shift(out, l);
      out, l := out + [l[0]], l[1..];
    }
    while r != []
      invariant out + r == Chained(left, right)
    {
      Shift(out, r);
      out, r := out + [r[0]], r[1..];
    }
  }

  lemma Shift(out: seq<Interval>, s: seq<Interval>)
    requires s != []
    ensures out + s == out + [s[0]] + s[1..]
    ensures out + [s[0]] + [] == out + [s[0]]
  {}

  lemma ChainedStep(out: seq<Interval>, left: seq<Interval>, right: seq<Interval>)
    requires left != [] && right != []
    ensures out + Chained(left, right) ==
            if left[0].Precedes(right[0]) then out + [left[0]] + Chained(left[1..], right)
            else out + [right[0]] + Chained(left, right[1..])
  {
    if left[0].Precedes(right[0]) {
      assert out + ([left[0]] + Chained(left[1..], right)) == out + [left[0]] + Chained(left[1..], right);
    } else {
      assert out + ([right[0]] + Chained(left, right[1..])) == out + [right[0]] + Chained(left, right[1..]);
    }
  }

  lemma {:induction false} ChainedElements(left: seq<Interval>, right: seq<Interval>)
    ensures multiset(Chained(left, right)) == multiset(left) + multiset(right)
    ensures forall x :: x in Chained(left, right) <==> x in left || x in right
    decreases |left| + |right|
  {
    if left != [] && right != [] {
      assert left == [left[0]] + left[1..] && right == [right[0]] + right[1..];
      if left[0].Precedes(right[0]) {
        ChainedElements(left[1..], right);
      } else {
        ChainedElements(left, right[1..]);
      }
    }
  }

  lemma {:induction false} ChainedPoints(left: seq<Interval>, right: seq<Interval>)
    ensures forall p :: In(p, Chained(left, right)) <==> In(p, left) || In(p, right)
    decreases |left| + |right|
  {
    if left != [] && right != [] {
      if left[0].Precedes(right[0]) {
        ChainedPoints(left[1..], right);
      } else {
        ChainedPoints(left, right[1..]);
      }
    }
  }

  lemma {:induction false} ChainedSorted(left: seq<Interval>, right: seq<Interval>)
    requires BeginSorted(left) && BeginSorted(right)
    ensures BeginSorted(Chained(left, right))
    decreases |left| + |right|
  {
    if left != [] && right != [] {
      ChainedElements(left, right);
      if left[0].Precedes(right[0]) {
        ChainedSorted(left[1..], right);
        ChainedElements(left[1..], right);
      } else {
        ChainedSorted(left, right[1..]);
        ChainedElements(left, right[1..]);
      }
    }
  }

  // ----- _join -----

  /** The `filterfalse` on `empty`. */
  function DropEmpty(s: seq<Interval>): (r: seq<Interval>)
    ensures forall x :: x in r <==> x in s && !x.Empty()
  {
    if s == [] then []
    else if s[0].Empty() then DropEmpty(s[1..])
    else [s[0]] + DropEmpty(s[1..])
  }

  function JoinedFrom(top: Interval, rest: seq<Interval>): seq<Interval>
    decreases |rest|
  {
    if rest == [] then [top] else
      var join := Join(top, rest[0]);
      if join.None? || join.value.Empty() then [top] + JoinedFrom(rest[0], rest[1..])
      else JoinedFrom(join.value, rest[1..])
  }

  function Joined(s: seq<Interval>): seq<Interval> {
    var kept := DropEmpty(s);
    if kept == [] then [] else JoinedFrom(kept[0], kept[1..])
  }

  method JoinOrdered(intervals: seq<Interval>) returns (out: seq<Interval>)
    ensures out == Joined(intervals)
  {
    var kept := DropEmpty(intervals);
    out := [];
    if kept == [] {
      return;
    }
    var top: Interval, rest := kept[0], kept[1..];
    while rest != []
      invariant out + JoinedFrom(top, rest) == Joined(intervals)
    {
      JoinedStep(out, top, rest);
      var join: Option<Interval> := Join(top, rest[0]);
      if join.None? || join.value.Empty() {
        out := out + [top];
        top := rest[0];
      } else {
        top := join.value;
      }
      rest := rest[1..];
    }
    out := out + [top];
  }

  lemma JoinedStep(out: seq<Interval>, top: Interval, rest: seq<Interval>)
    requires rest != []
    ensures out + JoinedFrom(top, rest) ==
            var join := Join(top, rest[0]);
            if join.None? || join.value.Empty() then out + [top] + JoinedFrom(rest[0], rest[1..])
            else out + JoinedFrom(join.value, rest[1..])
  {
    var more := JoinedFrom(rest[0], rest[1..]);
    assert out + ([top] + more) == out + [top] + more;
  }

  lemma {:induction false} DropEmptyMeaning(s: seq<Interval>)
    ensures forall p :: In(p, DropEmpty(s)) <==> In(p, s)
    ensures BeginSorted(s) ==> BeginSorted(DropEmpty(s))
  {
    if s == [] {
    } else {
      DropEmptyMeaning(s[1..]);
      assert s[0].Empty() ==> forall p :: !s[0].Has(p);
    }
  }

  /** One step of the merge: either one interval covers both, or the first is finished. */
  lemma JoinStep(f: Family, a: Interval, b: Interval)
    requires f.Fits(a) && f.Fits(b) && !a.Empty() && !b.Empty()
    requires a.lower.value.AtMost(b.lower.value)
    ensures Join(a, b).Some? ==>
      var c := Join(a, b).value;
      f.Fits(c) && !c.Empty() && c.lower == a.lower && (forall p :: c.Has(p) <==> a.Has(p) || b.Has(p))
    ensures Join(a, b).None? ==> Before(a, b) && (f.Closed? || a.lower.value.At? ==> WellBefore(a, b))
  {}

  /** What `_join` makes of intervals sorted by begin and of one family. */
  ghost predicate Merged(f: Family, s: seq<Interval>, out: seq<Interval>) {
    && AllFit(f, out) && NoneEmpty(out) && Ordered(out)
    && (forall p :: In(p, out) <==> In(p, s))
    && (f.Closed? || BoundedBelow(s) ==> Separated(out))
    && (BoundedBelow(s) ==> BoundedBelow(out))
  }

  lemma {:induction false} JoinedFromMerged(f: Family, top: Interval, rest: seq<Interval>)
    requires AllFit(f, rest) && NoneEmpty(rest) && f.Fits(top) && !top.Empty()
    requires BeginSorted(rest) && BeginsFrom(top.lower.value, rest)
    ensures Merged(f, [top] + rest, JoinedFrom(top, rest))
    ensures BeginsFrom(top.lower.value, JoinedFrom(top, rest))
    decreases |rest|
  {
    if rest == [] {
      assert [top][1..] == [];
    } else {
      var join := Join(top, rest[0]);
      JoinStep(f, top, rest[0]);
      if join.None? || join.value.Empty() {
        JoinedFromMerged(f, rest[0], rest[1..]);
        assert [rest[0]] + rest[1..] == rest;
        MergedBehind(f, top, rest, JoinedFrom(rest[0], rest[1..]));
      } else {
        JoinedFromMerged(f, join.value, rest[1..]);
        MergedInto(f, top, rest, join.value, JoinedFrom(join.value, rest[1..]));
      }
    }
  }

  /** The top is finished and stands in front. */
  lemma MergedBehind(f: Family, top: Interval, rest: seq<Interval>, out: seq<Interval>)
    requires rest != [] && Merged(f, rest, out) && BeginsFrom(rest[0].lower.value, out)
    requires f.Fits(top) && !top.Empty() && Before(top, rest[0])
             && (f.Closed? || top.lower.value.At? ==> WellBefore(top, rest[0]))
    ensures Merged(f, [top] + rest, [top] + out) && BeginsFrom(top.lower.value, [top] + out)
  {
    assert ([top] + rest)[1..] == rest && ([top] + out)[1..] == out;
    assert BoundedBelow([top] + rest) ==> top in [top] + rest && BoundedBelow(rest) by {
      assert forall x :: x in rest ==> x in [top] + rest;
    }
    assert forall y :: y in out ==> Before(top, y) && (f.Closed? || top.lower.value.At? ==> WellBefore(top, y));
  }

  /** The top and the next interval have become one. */
  lemma MergedInto(f: Family, top: Interval, rest: seq<Interval>, c: Interval, out: seq<Interval>)
    requires rest != [] && Merged(f, [c] + rest[1..], out) && c.lower == top.lower
    requires forall p :: c.Has(p) <==> top.Has(p) || rest[0].Has(p)
    ensures Merged(f, [top] + rest, out)
  {
    var s, t := [top] + rest, [c] + rest[1..];
    assert s[1..] == rest && t[1..] == rest[1..];
    assert BoundedBelow(s) ==> BoundedBelow(t) by {
      assert top in s && forall x :: x in rest[1..] ==> x in s;
    }
  }

  lemma {:induction false} JoinedMerged(f: Family, s: seq<Interval>)
    requires AllFit(f, s) && BeginSorted(s)
    ensures Merged(f, s, Joined(s))
  {
    var kept := DropEmpty(s);
    DropEmptyMeaning(s);
    if kept != [] {
      JoinedFromMerged(f, kept[0], kept[1..]);
      assert [kept[0]] + kept[1..] == kept;
    }
  }

  // ----- _complement -----

  /** From the end of `cur` onwards; `None` stands for the `ValueError` of the interval constructor. */
  function GapsFrom(cur: Interval, rest: seq<Interval>): Option<seq<Interval>>
    decreases |rest|
  {
    if rest == [] then
      Some(if cur.upper.Unbounded() then [] else [Span(cur.upper.Invert(), Bound(PosInf, false))])
    else
      var gap := MakeInterval(cur.upper.Invert(), rest[0].lower.Invert());
      var more := GapsFrom(rest[0], rest[1..]);
      if gap.None? || more.None? then None else Some([gap.value] + more.value)
  }

  function Leading(first: Interval): seq<Interval> {
    if first.lower.Unbounded() then [] else [Span(Bound(NegInf, false), first.lower.Invert())]
  }

  function Complemented(s: seq<Interval>): Option<seq<Interval>> {
    if s == [] then Some([UNBOUNDED]) else
      var gaps := GapsFrom(s[0], s[1..]);
      if gaps.None? then None else Some(Leading(s[0]) + gaps.value)
  }

  method ComplementOrdered(s: seq<Interval>) returns (out: Option<seq<Interval>>)
    ensures out == Complemented(s)
  {
    if s == [] {
      return Some([UNBOUNDED]);
    }
    var acc: seq<Interval> := [];
    if !s[0].lower.Unbounded() {
      acc := [Span(Bound(NegInf, false), s[0].lower.Invert())];
    }
    var last: Interval, rest := s[0], s[1..];
    while rest != []
      invariant Complemented(s) == Prepend(acc, GapsFrom(last, rest))
    {
      var gap := MakeInterval(last.upper.Invert(), rest[0].lower.Invert());
      if gap.None? {
        return None;
      }
      GapsStep(acc, last, rest);
      acc := acc + [gap.value];
      last, rest := rest[0], rest[1..];
    }
    if !last.upper.Unbounded() {
      acc := acc + [Span(last.upper.Invert(), Bound(PosInf, false))];
    } else {
      assert acc + [] == acc;
    }
    return Some(acc);
  }

  function Prepend(acc: seq<Interval>, more: Option<seq<Interval>>): Option<seq<Interval>> {
    if more.None? then None else Some(acc + more.value)
  }

  lemma GapsStep(acc: seq<Interval>, last: Interval, rest: seq<Interval>)
    requires rest != []
    requires MakeInterval(last.upper.Invert(), rest[0].lower.Invert()).Some?
    ensures Prepend(acc, GapsFrom(last, rest)) ==
            Prepend(acc + [MakeInterval(last.upper.Invert(), rest[0].lower.Invert()).value],
                    GapsFrom(rest[0], rest[1..]))
  {
    var gap := MakeInterval(last.upper.Invert(), rest[0].lower.Invert()).value;
    var more := GapsFrom(rest[0], rest[1..]);
    if more.Some? {
      assert acc + ([gap] + more.value) == acc + [gap] + more.value;
    }
  }

  /** No interval begins before its predecessor ends. */
  predicate Ascending(s: seq<Interval>) {
    |s| >= 2 ==> s[0].upper.value.AtMost(s[1].lower.value) && Ascending(s[1..])
  }

  /** `complement` raises exactly when two consecutive intervals run into each other. */
  lemma {:induction false} ComplementRaisesIff(s: seq<Interval>)
    ensures Complemented(s).None? <==> !Ascending(s)
  {
    if |s| >= 2 {
      ComplementRaisesIff(s[1..]);
      assert s[1..][1..] == s[2..];
    }
  }

  lemma {:induction false} OrderedAscends(s: seq<Interval>)
    requires Ordered(s)
    ensures Ascending(s)
  {
    if |s| >= 2 {
      OrderedAscends(s[1..]);
      assert s[1] in s[1..];
    }
  }

  /** No interval of the form (v, v). */
  ghost predicate Solid(s: seq<Interval>) {
    forall x :: x in s && x.lower.value == x.upper.value ==> x.lower.closed || x.upper.closed
  }

  /** p lies after everything that ends with b. */
  predicate After(p: Instant, b: Bound) {
    !Bound(At(p), true).Le(b)
  }

  lemma {:induction false} NothingBefore(p: Instant, x: Interval, s: seq<Interval>)
    requires forall y :: y in s ==> Before(x, y)
    requires x.lower.value == x.upper.value ==> x.lower.closed || x.upper.closed
    requires !x.lower.Le(Bound(At(p), true))
    ensures !In(p, s)
  {
    InMeaning(p, s);
  }

  lemma {:induction false} GapsMeaning(cur: Interval, rest: seq<Interval>)
    requires Ordered([cur] + rest) && Solid(rest)
    ensures GapsFrom(cur, rest).Some?
    ensures forall p :: In(p, GapsFrom(cur, rest).value) <==> After(p, cur.upper) && !In(p, rest)
    decreases |rest|
  {
    assert ([cur] + rest)[1..] == rest;
    if rest == [] {
    } else {
      assert [rest[0]] + rest[1..] == rest;
      GapsMeaning(rest[0], rest[1..]);
      assert rest[0] in rest && Before(cur, rest[0]);
      var gap := MakeInterval(cur.upper.Invert(), rest[0].lower.Invert());
      var more := GapsFrom(rest[0], rest[1..]).value;
      var out := [gap.value] + more;
      assert GapsFrom(cur, rest).value == out && out[1..] == more;
      forall p
        ensures In(p, out) <==> After(p, cur.upper) && !In(p, rest)
      {
        if !rest[0].lower.Le(Bound(At(p), true)) {
          NothingBefore(p, rest[0], rest[1..]);
        }
      }
    }
  }

  /** `complement` is exact on every ordered set, of whatever closedness. */
  lemma {:induction false} ComplementExact(s: seq<Interval>)
    requires Ordered(s) && Solid(s)
    ensures Complemented(s).Some?
    ensures forall p :: In(p, Complemented(s).value) <==> !In(p, s)
  {
    if s != [] {
      assert [s[0]] + s[1..] == s;
      GapsMeaning(s[0], s[1..]);
      var gaps := GapsFrom(s[0], s[1..]).value;
      forall p
        ensures In(p, Complemented(s).value) <==> !In(p, s)
      {
        InConcat(p, Leading(s[0]), gaps);
        if !s[0].lower.Le(Bound(At(p), true)) {
          NothingBefore(p, s[0], s[1..]);
        }
      }
    }
  }

  lemma {:induction false} InConcat(p: Instant, s: seq<Interval>, t: seq<Interval>)
    ensures In(p, s + t) <==> In(p, s) || In(p, t)
  {
    if s == [] {
      assert s + t == t;
    } else {
      InConcat(p, s[1..], t);
      assert (s + t)[1..] == s[1..] + t;
    }
  }

  /** The gaps of a right-open set are right-open and in order; those of a canonical set are separated. */
  lemma {:induction false} GapsForm(cur: Interval, rest: seq<Interval>)
    requires Ordered([cur] + rest) && AllFit(RightOpen, [cur] + rest) && GapsFrom(cur, rest).Some?
    ensures AllFit(RightOpen, GapsFrom(cur, rest).value) && Ordered(GapsFrom(cur, rest).value)
    ensures BeginsFrom(cur.upper.value, GapsFrom(cur, rest).value)
    ensures Separated([cur] + rest) && NoneEmpty([cur] + rest) ==>
              Separated(GapsFrom(cur, rest).value) && NoneEmpty(GapsFrom(cur, rest).value)
    decreases |rest|
  {
    var s := [cur] + rest;
    assert s[1..] == rest && s[0] == cur && cur in s;
    if rest == [] {
    } else {
      assert [rest[0]] + rest[1..] == rest;
      assert forall x :: x in rest ==> x in s;
      GapsForm(rest[0], rest[1..]);
      assert rest[0] in rest && Before(cur, rest[0]);
      var gap := MakeInterval(cur.upper.Invert(), rest[0].lower.Invert()).value;
      var more := GapsFrom(rest[0], rest[1..]).value;
      assert ([gap] + more)[1..] == more;
      assert Separated(s) && NoneEmpty(s) ==> WellBefore(cur, rest[0]) && NoneEmpty(rest);
    }
  }

  lemma {:induction false} ComplementForm(s: seq<Interval>)
    requires Ordered(s) && AllFit(RightOpen, s) && Complemented(s).Some?
    ensures AllFit(RightOpen, Complemented(s).value) && Ordered(Complemented(s).value)
    ensures Separated(s) && NoneEmpty(s) ==>
              Separated(Complemented(s).value) && NoneEmpty(Complemented(s).value)
  {
    if s != [] {
      assert [s[0]] + s[1..] == s;
      GapsForm(s[0], s[1..]);
      var gaps := GapsFrom(s[0], s[1..]).value;
      var out := Complemented(s).value;
      if s[0].lower.Unbounded() {
        assert out == gaps;
      } else {
        var lead: Interval := Leading(s[0])[0];
        assert out == [lead] + gaps && out[1..] == gaps && s[0] in s;
        assert RightOpen.Fits(lead);
        assert forall y :: y in gaps ==> Before(lead, y);
        assert NoneEmpty(s) ==> forall y :: y in gaps ==> WellBefore(lead, y);
      }
    }
  }

  // ----- _intersect -----

  function Intersected(left: seq<Interval>, right: seq<Interval>): seq<Interval>
    decreases |left| + |right|
  {
    if left == [] || right == [] then [] else
      var x := Intersect(left[0], right[0]);
      (if x.Some? && !x.value.Empty() then [x.value] else []) +
      if left[0].upper.Lt(right[0].upper) then Intersected(left[1..], right) else Intersected(left, right[1..])
  }

  method IntersectOrdered(left: seq<Interval>, right: seq<Interval>) returns (out: seq<Interval>)
    ensures out == Intersected(left, right)
  {
    out := [];
    var l, r := left, right;
    while l != [] && r != []
      invariant out + Intersected(l, r) == Intersected(left, right)
      decreases |l| + |r|
    {
      IntersectedStep(out, l, r);
      var x := Intersect(l[0], r[0]);
      if x.Some? && !x.value.Empty() {
        out := out + [x.value];
      }
      if l[0].upper.Lt(r[0].upper) {
        l := l[1..];
      } else {
        r := r[1..];
      }
    }
  }

  lemma IntersectedStep(out: seq<Interval>, left: seq<Interval>, right: seq<Interval>)
    requires left != [] && right != []
    ensures
      var x := Intersect(left[0], right[0]);
      out + Intersected(left, right) ==
      (if x.Some? && !x.value.Empty() then out + [x.value] else out) +
      (if left[0].upper.Lt(right[0].upper) then Intersected(left[1..], right) else Intersected(left, right[1..]))
  {
    var x := Intersect(left[0], right[0]);
    var more :=
      if left[0].upper.Lt(right[0].upper) then Intersected(left[1..], right) else Intersected(left, right[1..]);
    if x.Some? && !x.value.Empty() {
      assert out + ([x.value] + more) == out + [x.value] + more;
    } else {
      assert [] + more == more;
    }
  }

  /** x is what is left of a pair of intervals, one of each set. */
  ghost predicate FromPair(x: Interval, a: Interval, b: Interval) {
    Intersect(a, b) == Some(x) && !x.Empty()
  }

  lemma {:induction false} IntersectedFrom(left: seq<Interval>, right: seq<Interval>, x: Interval)
    requires x in Intersected(left, right)
    ensures exists a, b :: a in left && b in right && FromPair(x, a, b)
    decreases |left| + |right|
  {
    var y := Intersect(left[0], right[0]);
    if y == Some(x) && !x.Empty() {
      assert left[0] in left && right[0] in right && FromPair(x, left[0], right[0]);
    } else if left[0].upper.Lt(right[0].upper) {
      IntersectedFrom(left[1..], right, x);
      var a, b :| a in left[1..] && b in right && FromPair(x, a, b);
      assert a in left;
    } else {
      IntersectedFrom(left, right[1..], x);
      var a, b :| a in left && b in right[1..] && FromPair(x, a, b);
      assert b in right;
    }
  }

  /** Orders in which the one-pass intersection meets every overlapping pair. */
  ghost predicate Crossable(left: seq<Interval>, right: seq<Interval>) {
    || (Separated(left) && Ordered(right))
    || (Ordered(left) && Ordered(right) && AllFit(RightOpen, left) && AllFit(RightOpen, right))
  }

  lemma {:induction false} CrossableTails(left: seq<Interval>, right: seq<Interval>)
    requires Crossable(left, right)
    ensures left != [] ==> Crossable(left[1..], right)
    ensures right != [] ==> Crossable(left, right[1..])
  {}

  lemma {:induction false} IntersectedAll(left: seq<Interval>, right: seq<Interval>, a: Interval, b: Interval,
                                          x: Interval)
    requires Crossable(left, right)
    requires a in left && b in right && FromPair(x, a, b)
    ensures x in Intersected(left, right)
    decreases |left| + |right|
  {
    CrossableTails(left, right);
    if left[0].upper.Lt(right[0].upper) {
      if a in left[1..] {
        IntersectedAll(left[1..], right, a, b, x);
      } else if b in right[1..] {
        assert false;
      }
    } else {
      if b in right[1..] {
        IntersectedAll(left, right[1..], a, b, x);
      } else if a in left[1..] {
        assert false;
      }
    }
  }

  lemma {:induction false} PairExact(f: Family, a: Interval, b: Interval)
    requires f.Fits(a) && f.Fits(b)
    ensures forall p :: a.Has(p) && b.Has(p) <==> Intersect(a, b).Some? && Intersect(a, b).value.Has(p)
  {
    if a.Overlaps(b) {
      IntersectExactIff(a, b);
    }
  }

  lemma {:induction false} IntersectedSound(f: Family, left: seq<Interval>, right: seq<Interval>, p: Instant)
    requires AllFit(f, left) && AllFit(f, right)
    requires In(p, Intersected(left, right))
    ensures In(p, left) && In(p, right)
  {
    InMeaning(p, Intersected(left, right));
    var x :| x in Intersected(left, right) && x.Has(p);
    IntersectedFrom(left, right, x);
    var a, b :| a in left && b in right && FromPair(x, a, b);
    PairExact(f, a, b);
    InMeaning(p, left);
    InMeaning(p, right);
  }

  lemma {:induction false} IntersectedComplete(f: Family, left: seq<Interval>, right: seq<Interval>, p: Instant)
    requires Crossable(left, right) && AllFit(f, left) && AllFit(f, right)
    requires In(p, left) && In(p, right)
    ensures In(p, Intersected(left, right))
  {
    InMeaning(p, left);
    InMeaning(p, right);
    var a :| a in left && a.Has(p);
    var b :| b in right && b.Has(p);
    PairExact(f, a, b);
    IntersectedAll(left, right, a, b, Intersect(a, b).value);
    InMeaning(p, Intersected(left, right));
  }

  /** On ordered right-open sets, and on separated closed ones, the merge computes the intersection of the points. */
  lemma {:induction false} IntersectExact(f: Family, left: seq<Interval>, right: seq<Interval>)
    requires Crossable(left, right) && AllFit(f, left) && AllFit(f, right)
    ensures forall p :: In(p, Intersected(left, right)) <==> In(p, left) && In(p, right)
  {
    forall p
      ensures In(p, Intersected(left, right)) <==> In(p, left) && In(p, right)
    {
      if In(p, Intersected(left, right)) {
        IntersectedSound(f, left, right, p);
      } else if In(p, left) && In(p, right) {
        IntersectedComplete(f, left, right, p);
      }
    }
  }

  /** The remains of a pair keep clear of the remains of any pair further on. */
  lemma PairBefore(x: Interval, y: Interval, a: Interval, b: Interval, c: Interval, d: Interval)
    requires Intersect(a, b) == Some(x) && Intersect(c, d) == Some(y)
    ensures WellBefore(a, c) || WellBefore(b, d) ==> WellBefore(x, y)
    ensures RightOpen.Fits(a) && RightOpen.Fits(b) && (Before(a, c) || Before(b, d)) ==> Before(x, y)
  {}

  /** Whatever the rest of the merge yields comes after the first pair. */
  lemma {:induction false} IntersectedHead(left: seq<Interval>, right: seq<Interval>, more: seq<Interval>)
    requires Crossable(left, right) && left != [] && right != []
    requires more == Intersected(left[1..], right) || more == Intersected(left, right[1..])
    ensures Intersect(left[0], right[0]).Some? ==>
      forall y :: y in more ==>
        var x := Intersect(left[0], right[0]).value;
        && (Separated(left) && Separated(right) ==> WellBefore(x, y))
        && (AllFit(RightOpen, left) && AllFit(RightOpen, right) ==> Before(x, y))
  {
    if Intersect(left[0], right[0]).Some? {
      var x := Intersect(left[0], right[0]).value;
      forall y | y in more
        ensures Separated(left) && Separated(right) ==> WellBefore(x, y)
        ensures AllFit(RightOpen, left) && AllFit(RightOpen, right) ==> Before(x, y)
      {
        assert left[0] in left && right[0] in right;
        if more == Intersected(left[1..], right) {
          IntersectedFrom(left[1..], right, y);
          var c, d :| c in left[1..] && d in right && FromPair(y, c, d);
          PairBefore(x, y, left[0], right[0], c, d);
        } else {
          IntersectedFrom(left, right[1..], y);
          var c, d :| c in left && d in right[1..] && FromPair(y, c, d);
          PairBefore(x, y, left[0], right[0], c, d);
        }
      }
    }
  }

  /** The yield of the first pair in front of the rest. */
  lemma FormPrepend(a: Interval, b: Interval, more: seq<Interval>)
    ensures
      var x := Intersect(a, b);
      var out := (if x.Some? && !x.value.Empty() then [x.value] else []) + more;
      && (NoneEmpty(more) ==> NoneEmpty(out))
      && (Separated(more) && (x.Some? ==> forall y :: y in more ==> WellBefore(x.value, y)) ==> Separated(out))
      && (Ordered(more) && (x.Some? ==> forall y :: y in more ==> Before(x.value, y)) ==> Ordered(out))
      && (RightOpen.Fits(a) && RightOpen.Fits(b) && AllFit(RightOpen, more) ==> AllFit(RightOpen, out))
      && ((a.lower.value.At? || b.lower.value.At?) && BoundedBelow(more) ==> BoundedBelow(out))
  {
    var x := Intersect(a, b);
    if x.Some? && !x.value.Empty() {
      assert ([x.value] + more)[1..] == more;
    } else {
      assert [] + more == more;
    }
  }

  lemma {:induction false} IntersectedForm(left: seq<Interval>, right: seq<Interval>)
    requires Crossable(left, right)
    ensures NoneEmpty(Intersected(left, right))
    ensures Separated(left) && Separated(right) ==> Separated(Intersected(left, right))
    ensures AllFit(RightOpen, left) && AllFit(RightOpen, right) ==>
              AllFit(RightOpen, Intersected(left, right)) && Ordered(Intersected(left, right))
    ensures BoundedBelow(left) || BoundedBelow(right) ==> BoundedBelow(Intersected(left, right))
    decreases |left| + |right|
  {
    if left != [] && right != [] {
      CrossableTails(left, right);
      if left[0].upper.Lt(right[0].upper) {
        IntersectedForm(left[1..], right);
        IntersectedHead(left, right, Intersected(left[1..], right));
        FormPrepend(left[0], right[0], Intersected(left[1..], right));
      } else {
        IntersectedForm(left, right[1..]);
        IntersectedHead(left, right, Intersected(left, right[1..]));
        FormPrepend(left[0], right[0], Intersected(left, right[1..]));
      }
    }
  }
}
