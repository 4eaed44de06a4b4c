/** The order in which ELF segments are laid out (tools/elfio/elfio.hpp:675-735). */
module ElfioSegments {
  import opened Words
  import opened Sequences

  /** What the ordering looks at: the file offset, whether it was set, and the section indices. */
  datatype Segment = Segment(offset: nat, offsetSet: bool, sections: seq<U16>) {
    function Size(): nat { |sections| }
  }

  // ----- Inclusion

  /** std::includes */
  predicate Includes(big: seq<U16>, small: seq<U16>) {
    if small == [] then true
    else if big == [] || small[0] < big[0] then false
    else if big[0] < small[0] then Includes(big[1..], small)
    else Includes(big[1..], small[1..])
  }

  predicate IsSubsequenceOf(a: Segment, b: Segment) {
    a.Size() < b.Size() && Includes(b.sections, a.sections)
  }

  predicate Ascending(s: seq<U16>) {
    forall i, j :: 0 <= i < j < |s| ==> s[i] <= s[j]
  }

  /** On section lists in ascending order the test is inclusion, repetitions counted. */
  lemma {:induction false} IncludesIsInclusion(big: seq<U16>, small: seq<U16>)
    requires Ascending(big) && Ascending(small)
    ensures Includes(big, small) <==> multiset(small) <= multiset(big)
    decreases |big|
  {
    if small != [] && big != [] {
      if small[0] < big[0] {
        assert small[0] in multiset(small) && small[0] !in big;
      } else if big[0] < small[0] {
        IncludesIsInclusion(big[1..], small);
        assert big[0] !in small;
        WithoutAbsent(big, small);
      } else {
        IncludesIsInclusion(big[1..], small[1..]);
        WithoutCommon(big, small);
      }
    } else if small != [] {
      assert small[0] in multiset(small);
    }
  }

  lemma WithoutAbsent(big: seq<U16>, small: seq<U16>)
    requires big != [] && big[0] !in small
    ensures multiset(small) <= multiset(big) <==> multiset(small) <= multiset(big[1..])
  {
    assert big == [big[0]] + big[1..];
    assert multiset(big) == multiset{big[0]} + multiset(big[1..]);
  }

  lemma WithoutCommon(big: seq<U16>, small: seq<U16>)
    requires big != [] && small != [] && big[0] == small[0]
    ensures multiset(small) <= multiset(big) <==> multiset(small[1..]) <= multiset(big[1..])
  {
    assert big == [big[0]] + big[1..] && small == [big[0]] + small[1..];
    var x, b, s := multiset{big[0]}, multiset(big[1..]), multiset(small[1..]);
    assert multiset(big) == x + b && multiset(small) == x + s;
    AddBoth(x, s, b);
  }

  lemma AddBoth(x: multiset<U16>, s: multiset<U16>, b: multiset<U16>)
    ensures x + s <= x + b <==> s <= b
  {
    if x + s <= x + b {
      forall e
        ensures s[e] <= b[e]
      {
        assert (x + s)[e] <= (x + b)[e];
      }
    }
  }

  // ----- Segments at offset 0 first

  /** Before a segment set to start at offset 0 there are only segments with offset 0. */
  predicate ZeroFirst(w: seq<Segment>) {
    forall i, k :: 0 <= k < i < |w| && w[i].offsetSet && w[i].offset == 0 ==> w[k].offset == 0
  }

  /** The first loop of get_ordered_segments (elfio.hpp:701-711). */
  method ZeroOffsetsToFront(segments: seq<Segment>) returns (worklist: seq<Segment>)
    ensures multiset(worklist) == multiset(segments) && ZeroFirst(worklist)
  {
    worklist := segments;
    var nextSlot := 0;
    for i := 0 to |worklist|
      invariant |worklist| == |segments| && multiset(worklist) == multiset(segments)
      invariant 0 <= nextSlot <= i
      invariant forall k :: 0 <= k < nextSlot ==> worklist[k].offset == 0
      invariant forall k :: nextSlot < k < i ==> !(worklist[k].offsetSet && worklist[k].offset == 0)
    {
      if i != nextSlot && worklist[i].offsetSet && worklist[i].offset == 0 {
        if worklist[nextSlot].offset == 0 {
          nextSlot := nextSlot + 1;
        }
        worklist := Swapped(worklist, i, nextSlot);
        nextSlot := nextSlot + 1;
      }
    }
  }

  // ----- Containers before what they contain

  /** Position of the first segment with the most sections. */
  function FirstLargest(w: seq<Segment>): (m: nat)
    requires w != []
    ensures m < |w|
    ensures forall k :: 0 <= k < m ==> w[k].Size() < w[m].Size()
    ensures forall k :: m <= k < |w| ==> w[k].Size() <= w[m].Size()
  {
    if |w| == 1 then 0
    else
      var m, last := FirstLargest(w[..|w| - 1]), |w| - 1;
      if w[last].Size() > w[m].Size() then last else m
  }

  predicate ContainedInLater(w: seq<Segment>)
    requires w != []
  {
    exists i :: 1 <= i < |w| && IsSubsequenceOf(w[0], w[i])
  }

  function Requeued(w: seq<Segment>): seq<Segment>
    requires w != []
  {
    w[1..] + [w[0]]
  }

  function Measure(w: seq<Segment>): nat { if w == [] then 0 else FirstLargest(w) }

  /** Sending a contained segment to the back brings the first largest one closer to the front. */
  lemma RequeueProgress(w: seq<Segment>)
    requires w != [] && ContainedInLater(w)
    ensures |Requeued(w)| == |w| && Measure(Requeued(w)) < Measure(w)
  {
    hide Includes;
    var r, m := Requeued(w), FirstLargest(w);
    assert m > 0;
    assert forall k :: 0 <= k < |w| - 1 ==> r[k] == w[k + 1];
    var n := FirstLargest(r);
    assert n <= m - 1;
  }

  /** What the worklist loop produces. */
  function Ordered(w: seq<Segment>): seq<Segment>
    decreases |w|, Measure(w)
  {
    if w == [] then []
    else if ContainedInLater(w) then RequeueProgress(w); Ordered(Requeued(w))
    else [w[0]] + Ordered(w[1..])
  }

  /** No segment comes before one that contains it. */
  predicate ContainersFirst(r: seq<Segment>) {
    forall i, j :: 0 <= i < j < |r| ==> !IsSubsequenceOf(r[i], r[j])
  }

  lemma {:induction false} OrderedPermutes(w: seq<Segment>)
    ensures multiset(Ordered(w)) == multiset(w)
    decreases |w|, Measure(w)
  {
    hide IsSubsequenceOf, Measure;
    if w != [] {
      assert w == [w[0]] + w[1..];
      if ContainedInLater(w) {
        RequeueProgress(w);
        OrderedPermutes(Requeued(w));
      } else {
        OrderedPermutes(w[1..]);
      }
    }
  }

  /** A segment that strictly contains another comes before it, wherever they were. */
  lemma {:induction false} OrderedContainersFirst(w: seq<Segment>)
    ensures ContainersFirst(Ordered(w))
    decreases |w|, Measure(w)
  {
    hide IsSubsequenceOf, Measure;
    if w != [] {
      if ContainedInLater(w) {
        RequeueProgress(w);
        OrderedContainersFirst(Requeued(w));
      } else {
        var rest := Ordered(w[1..]);
        OrderedContainersFirst(w[1..]);
        OrderedPermutes(w[1..]);
        forall j | 0 <= j < |rest|
          ensures !IsSubsequenceOf(w[0], rest[j])
        {
          assert rest[j] in multiset(w[1..]);
          var i :| 0 <= i < |w[1..]| && w[1..][i] == rest[j];
          assert w[i + 1] == rest[j];
        }
      }
    }
  }

  /** Segments already in a good order stay where they are. */
  lemma {:induction false} OrderedKeepsOrder(w: seq<Segment>)
    requires ContainersFirst(w)
    ensures Ordered(w) == w
  {
    hide IsSubsequenceOf;
    if w != [] {
      assert forall i :: 0 <= i < |w[1..]| ==> w[1..][i] == w[i + 1];
      OrderedKeepsOrder(w[1..]);
    }
  }

  lemma OrderedStep(w: seq<Segment>, i: nat)
    requires w != [] && i <= |w[1..]| && forall k :: 0 <= k < i ==> !IsSubsequenceOf(w[0], w[1..][k])
    requires i < |w[1..]| ==> IsSubsequenceOf(w[0], w[1..][i])
    ensures i < |w[1..]| ==> Ordered(w) == Ordered(w[1..] + [w[0]]) && Measure(w[1..] + [w[0]]) < Measure(w)
    ensures i == |w[1..]| ==> Ordered(w) == [w[0]] + Ordered(w[1..])
  {
    hide IsSubsequenceOf, Measure;
    if i < |w[1..]| {
      assert w[i + 1] == w[1..][i];
      RequeueProgress(w);
    } else {
      forall k | 1 <= k < |w|
        ensures !IsSubsequenceOf(w[0], w[k])
      {
        assert w[k] == w[1..][k - 1];
      }
    }
  }

  lemma OrderedEnd(res: seq<Segment>)
    ensures res + Ordered([]) == res
  {
  }

  /** No segment comes before one that has all its sections, repetitions counted, and more. */
  predicate WiderFirst(r: seq<Segment>) {
    forall i, j :: 0 <= i < j < |r| ==>
      !(|r[i].sections| < |r[j].sections| && multiset(r[i].sections) <= multiset(r[j].sections))
  }

  /** With the section lists in ascending order, the test by std::includes puts containers first indeed. */
  lemma ContainersAreWider(r: seq<Segment>)
    requires ContainersFirst(r) && AllAscending(r)
    ensures WiderFirst(r)
  {
    hide Includes, Ascending;
    forall i, j | 0 <= i < j < |r|
      ensures !(|r[i].sections| < |r[j].sections| && multiset(r[i].sections) <= multiset(r[j].sections))
    {
      assert !IsSubsequenceOf(r[i], r[j]);
      IncludesIsInclusion(r[j].sections, r[i].sections);
    }
  }

  predicate AllAscending(segments: seq<Segment>) {
    forall k :: 0 <= k < |segments| ==> Ascending(segments[k].sections)
  }

  lemma WiderIfAscending(segments: seq<Segment>, res: seq<Segment>)
    requires multiset(res) == multiset(segments) && ContainersFirst(res)
    ensures AllAscending(segments) ==> WiderFirst(res)
  {
    hide Ascending, ContainersFirst, WiderFirst;
    if AllAscending(segments) {
      forall k | 0 <= k < |res|
        ensures Ascending(res[k].sections)
      {
        assert res[k] in multiset(segments);
        var j :| 0 <= j < |segments| && segments[j] == res[k];
      }
      ContainersAreWider(res);
    }
  }

  /** get_ordered_segments */
  method GetOrderedSegments(segments: seq<Segment>) returns (res: seq<Segment>)
    ensures multiset(res) == multiset(segments) && ContainersFirst(res)
    ensures AllAscending(segments) ==> WiderFirst(res)
    ensures exists w :: ZeroFirst(w) && multiset(w) == multiset(segments) && res == Ordered(w)
  {
    hide IsSubsequenceOf, ZeroFirst, Measure, Ordered, ContainersFirst, WiderFirst, AllAscending;
    var worklist := ZeroOffsetsToFront(segments);
    ghost var start := worklist;
    res := [];
    while worklist != []
      invariant res + Ordered(worklist) == Ordered(start)
      decreases |worklist|, Measure(worklist)
    {
      ghost var was := worklist;
      var seg := worklist[0];
      worklist := worklist[1..];
      var i := 0;
      while i < |worklist|
        invariant 0 <= i <= |worklist|
        invariant forall k :: 0 <= k < i ==> !IsSubsequenceOf(seg, worklist[k])
      {
        if IsSubsequenceOf(seg, worklist[i]) {
          break;
        }
        i := i + 1;
      }
      OrderedStep(was, i);
      if i < |worklist| {
        worklist := worklist + [seg];
      } else {
        TakenFirst(res, seg, Ordered(worklist));
        res := res + [seg];
      }
    }
    OrderedEnd(res);
    OrderedOutcome(segments, start);
  }

  lemma TakenFirst(res: seq<Segment>, seg: Segment, rest: seq<Segment>)
    ensures res + ([seg] + rest) == res + [seg] + rest
  {
  }

  lemma OrderedOutcome(segments: seq<Segment>, start: seq<Segment>)
    requires multiset(start) == multiset(segments)
    ensures multiset(Ordered(start)) == multiset(segments) && ContainersFirst(Ordered(start))
    ensures AllAscending(segments) ==> WiderFirst(Ordered(start))
  {
    hide Ordered, ContainersFirst, WiderFirst, AllAscending;
    OrderedPermutes(start);
    OrderedContainersFirst(start);
    WiderIfAscending(segments, Ordered(start));
  }

  // ----- Examples

  const FIVE := Segment(0, false, [5])
  const PAIR := Segment(0, false, [5, 6])
  const OTHER := Segment(0, false, [9])

  lemma OnlyFiveIsContained(a: Segment, b: Segment)
    requires a in [FIVE, PAIR, OTHER] && b in [FIVE, PAIR, OTHER]
    ensures IsSubsequenceOf(a, b) <==> a == FIVE && b == PAIR
  {
    assert [5, 6][1..] == [6] && [5][1..] == [] && [6][1..] == [];
    assert Includes([6], []) && !Includes([6], [9]) && !Includes([], [9]);
  }

  /** The segment of two sections comes before that of one of them, which goes to the very end. */
  lemma ContainedGoesLast()
    ensures Ordered([FIVE, PAIR, OTHER]) == [PAIR, OTHER, FIVE]
  {
    hide IsSubsequenceOf;
    var w, r := [FIVE, PAIR, OTHER], [PAIR, OTHER, FIVE];
    forall a, b | a in w && b in w
      ensures IsSubsequenceOf(a, b) <==> a == FIVE && b == PAIR
    {
      OnlyFiveIsContained(a, b);
    }
    assert w[1] == PAIR && ContainedInLater(w) && Requeued(w) == r;
    RequeueProgress(w);
    assert ContainersFirst(r) by {
      forall i, j | 0 <= i < j < |r|
        ensures !IsSubsequenceOf(r[i], r[j])
      {
        OnlyFiveIsContained(r[i], r[j]);
      }
    }
    OrderedKeepsOrder(r);
  }
}
