/**
 Edge detection of hardsub-ripping.py (lines 147-160): one pass over the
 ascending list of frames that carry a subtitle, recording which frames open
 and which close a dialogue, judged only by whether the neighbouring frames
 are in the list.
 */
module Edges {
  import opened Seqs

  /**
   Frame `i` opens a dialogue: frame 0 whenever it is present, an interior frame
   `1 < i < end - 1` when the frame before is absent and the frame after present.
   */
  predicate Opens(present: seq<int>, end: int, i: int)
  {
    i == 0 || (1 < i < end - 1 && (i - 1) !in present && (i + 1) in present)
  }

  /**
   Frame `i` closes a dialogue: an interior frame when the frame before is
   present and the frame after absent, otherwise the frame `end - 1`. Frame 0
   is handled by the opening rule alone.
   */
  predicate Closes(present: seq<int>, end: int, i: int)
  {
    i != 0 &&
    if 1 < i < end - 1 then (i - 1) in present && (i + 1) !in present else i == end - 1
  }

  function Opening(present: seq<int>, end: int): int -> bool
  {
    i => Opens(present, end, i)
  }

  function Closing(present: seq<int>, end: int): int -> bool
  {
    i => Closes(present, end, i)
  }

  /** The `starts` list the pass builds. */
  function Starts(present: seq<int>, end: int): seq<int>
  {
    Filter(Opening(present, end), present)
  }

  /** The `ends` list the pass builds. */
  function Ends(present: seq<int>, end: int): seq<int>
  {
    Filter(Closing(present, end), present)
  }

  /** The loop at hardsub-ripping.py:147-160, appending to `starts` and `ends` in place. */
  method DetectEdges(present: seq<int>, end: int) returns (starts: seq<int>, ends: seq<int>)
    ensures starts == Starts(present, end)
    ensures ends == Ends(present, end)
  {
    starts, ends := [], [];
    for k := 0 to |present|
      invariant starts == Filter(Opening(present, end), present[..k])
      invariant ends == Filter(Closing(present, end), present[..k])
    {
      var i := present[k];
      assert present[..k + 1] == present[..k] + [i];
      FilterSnoc(Opening(present, end), present[..k], i);
      FilterSnoc(Closing(present, end), present[..k], i);
      if i == 0 && i in present {
        starts := starts + [i];
      } else if 1 < i < end - 1 {
        if i - 1 !in present && i + 1 in present {
          starts := starts + [i];
        }
        if i - 1 in present && i + 1 !in present {
          ends := ends + [i];
        }
      } else if i == end - 1 && i in present {
        ends := ends + [i];
      }
    }
    assert present[..|present|] == present;
  }

  /** The classification rules, stated on the lists the pass returns. */
  lemma EdgeRules(present: seq<int>, end: int)
    ensures var starts, ends := Starts(present, end), Ends(present, end);
      && (forall i :: i in starts ==> i in present)
      && (forall i :: i in ends ==> i in present)
      // frame 0 opens whenever it is present, and never closes
      && (0 in present ==> 0 in starts && 0 !in ends)
      // interior frames follow the neighbour rules
      && (forall i :: i in present && 1 < i < end - 1 ==>
            (i in starts <==> (i - 1) !in present && (i + 1) in present) &&
            (i in ends <==> (i - 1) in present && (i + 1) !in present))
      // an isolated interior frame neither opens nor closes
      && (forall i :: i in present && 1 < i < end - 1 && (i - 1) !in present && (i + 1) !in present ==>
            i !in starts && i !in ends)
      // frame 1 is classified only when it is the last frame
      && (end != 2 ==> 1 !in starts && 1 !in ends)
      // the last frame always closes, unless it is frame 0
      && ((end - 1) in present && end - 1 != 0 ==> (end - 1) in ends)
      // nothing else is classified
      && (forall i :: i in starts ==> i == 0 || 1 < i < end - 1)
      && (forall i :: i in ends ==> i != 0 && (1 < i < end - 1 || i == end - 1))
  {
    FilterMembers(Opening(present, end), present);
    FilterMembers(Closing(present, end), present);
  }

  /** Both lists are strictly increasing and keep the order of `present`. */
  lemma EdgesOrdered(present: seq<int>, end: int)
    requires StrictlyIncreasing(present)
    ensures StrictlyIncreasing(Starts(present, end)) && StrictlyIncreasing(Ends(present, end))
    ensures Subsequence(Starts(present, end), present) && Subsequence(Ends(present, end), present)
  {
    FilterIncreasing(Opening(present, end), present);
    FilterIncreasing(Closing(present, end), present);
    FilterIsSubsequence(Opening(present, end), present);
    FilterIsSubsequence(Closing(present, end), present);
  }

  /**
   The presence list as the scan at hardsub-ripping.py:140-143 builds it,
   with every run of present frames at least two long and inside frames 2 to
   `end - 1`.
   */
  predicate WellSeparated(present: seq<int>, end: int)
  {
    && StrictlyIncreasing(present)
    && (forall x :: x in present ==> 2 <= x <= end - 1)
    && (forall k :: 0 <= k < |present| ==> Neighboured(present, k))
  }

  /** The frame at index k is not an isolated present frame. */
  predicate Neighboured(present: seq<int>, k: int)
    requires 0 <= k < |present|
  {
    (present[k] - 1) in present || (present[k] + 1) in present
  }

  /** starts[k] < ends[k] < starts[k + 1], with a possibly unfinished last dialogue. */
  predicate Interleaved(starts: seq<int>, ends: seq<int>)
  {
    && (|starts| == |ends| || |starts| == |ends| + 1)
    && (forall k :: 0 <= k < |ends| ==> starts[k] < ends[k])
    && (forall k :: 0 <= k < |starts| - 1 ==> ends[k] < starts[k + 1])
  }

  /** On well-separated runs the two lists pair up into disjoint dialogues in order. */
  lemma RunsPairUp(present: seq<int>, end: int)
    requires WellSeparated(present, end)
    ensures |Starts(present, end)| == |Ends(present, end)|
    ensures Interleaved(Starts(present, end), Ends(present, end))
  {
    PairedPrefix(present, end, |present|);
    assert present[..|present|] == present;
  }

  /** Every element of a strictly increasing sequence before index k is below xs[k]. */
  lemma PrefixBelow(xs: seq<int>, k: int)
    requires StrictlyIncreasing(xs) && 0 <= k < |xs|
    ensures forall y :: y in xs[..k] ==> y < xs[k]
  {
  }

  /** A member below xs[k] is at most xs[k - 1]. */
  lemma Below(xs: seq<int>, k: int, y: int)
    requires StrictlyIncreasing(xs) && 0 <= k < |xs|
    ensures y in xs && y < xs[k] ==> k > 0 && y <= xs[k - 1]
  {
    if y in xs && y < xs[k] {
      var m :| 0 <= m < |xs| && xs[m] == y;
      assert m < k;
      assert xs[m] <= xs[k - 1];
    }
  }

  /** On well-separated runs a frame opens iff its predecessor is absent and closes iff its successor is. */
  lemma SimpleRules(present: seq<int>, end: int, x: int)
    requires WellSeparated(present, end) && x in present
    ensures Opens(present, end, x) <==> (x - 1) !in present
    ensures Closes(present, end, x) <==> (x + 1) !in present
    ensures !(Opens(present, end, x) && Closes(present, end, x))
  {
    assert end !in present;
    var k :| 0 <= k < |present| && present[k] == x;
    assert Neighboured(present, k);
  }

  /** The run of consecutive frames through index k - 1 goes on at index k. */
  predicate Continues(present: seq<int>, k: int)
  {
    0 < k < |present| && present[k] == present[k - 1] + 1
  }

  /** In a strictly increasing list, the successor of the frame at k - 1 is present iff it sits at index k. */
  lemma SuccessorAt(present: seq<int>, k: int)
    requires StrictlyIncreasing(present) && 0 < k <= |present|
    ensures (present[k - 1] + 1) in present <==> Continues(present, k)
  {
    var x := present[k - 1];
    if (x + 1) in present {
      var m :| 0 <= m < |present| && present[m] == x + 1;
      assert m >= k;
      assert present[k] <= present[m];
    }
  }

  /**
   The frame at index k - 1 opens iff the run before it has ended, and closes
   iff its own run ends with it.
   */
  lemma StepRules(present: seq<int>, end: int, k: int)
    requires WellSeparated(present, end) && 0 < k <= |present|
    ensures var x := present[k - 1];
            && (Opens(present, end, x) <==> !Continues(present, k - 1))
            && (Closes(present, end, x) <==> !Continues(present, k))
            && !(Opens(present, end, x) && Closes(present, end, x))
  {
    var x := present[k - 1];
    SimpleRules(present, end, x);
    SuccessorAt(present, k);
    Below(present, k - 1, x - 1);
    if k > 1 {
      var p := present[k - 2];
      SuccessorAt(present, k - 1);
      assert (x - 1) in present <==> p + 1 == x;
    }
  }

  lemma {:induction false} PairedPrefix(present: seq<int>, end: int, k: int)
    requires WellSeparated(present, end) && 0 <= k <= |present|
    ensures var starts := Filter(Opening(present, end), present[..k]);
            var ends := Filter(Closing(present, end), present[..k]);
            && Interleaved(starts, ends)
            && (|starts| == |ends| + 1 <==> Continues(present, k))
  {
    if k > 0 {
      PairedPrefix(present, end, k - 1);
      var before := present[..k - 1];
      StepLists(present, end, k);
      InterleavedStep(Filter(Opening(present, end), before), Filter(Closing(present, end), before),
                      Filter(Opening(present, end), present[..k]), Filter(Closing(present, end), present[..k]),
                      present[k - 1], Continues(present, k - 1), !Continues(present, k));
    }
  }

  /** The two lists after frame index k - 1, in terms of the lists before it. */
  lemma StepLists(present: seq<int>, end: int, k: int)
    requires WellSeparated(present, end) && 0 < k <= |present|
    ensures var x, before := present[k - 1], present[..k - 1];
            var o, c := Filter(Opening(present, end), before), Filter(Closing(present, end), before);
            && (!Continues(present, k - 1) ==> Continues(present, k))
            && Filter(Opening(present, end), present[..k]) == (if Continues(present, k - 1) then o else o + [x])
            && Filter(Closing(present, end), present[..k]) == (if !Continues(present, k) then c + [x] else c)
            && (forall y :: y in o ==> y < x) && (forall y :: y in c ==> y < x)
  {
    var x, before := present[k - 1], present[..k - 1];
    assert present[..k] == before + [x];
    FilterSnoc(Opening(present, end), before, x);
    FilterSnoc(Closing(present, end), before, x);
    StepRules(present, end, k);
    PrefixBelow(present, k - 1);
    FilterBelow(Opening(present, end), before, x);
    FilterBelow(Closing(present, end), before, x);
  }

  /**
   One more frame x, above everything so far: it opens exactly when no
   dialogue is open, and may close only an open one.
   */
  lemma InterleavedStep(o: seq<int>, c: seq<int>, o2: seq<int>, c2: seq<int>, x: int, wasOpen: bool, closes: bool)
    requires Interleaved(o, c) && (|o| == |c| + 1 <==> wasOpen)
    requires (forall y :: y in o ==> y < x) && (forall y :: y in c ==> y < x)
    requires !wasOpen ==> !closes
    requires o2 == (if wasOpen then o else o + [x]) && c2 == (if closes then c + [x] else c)
    ensures Interleaved(o2, c2) && (|o2| == |c2| + 1 <==> !closes)
  {
    if !wasOpen {
      if |c| > 0 { assert c[|c| - 1] in c; }
      InterleavedOpen(o, c, x);
    } else if closes {
      assert o[|c|] in o;
      InterleavedClose(o, c, x);
    }
  }

  lemma InterleavedOpen(o: seq<int>, c: seq<int>, x: int)
    requires Interleaved(o, c) && |o| == |c| && (|c| > 0 ==> c[|c| - 1] < x)
    ensures Interleaved(o + [x], c)
  {
  }

  lemma InterleavedClose(o: seq<int>, c: seq<int>, x: int)
    requires Interleaved(o, c) && |o| == |c| + 1 && o[|c|] < x
    ensures Interleaved(o, c + [x])
  {
  }

  /** present {2, 3, 4} with end 7 gives starts [2] and ends [4]. */
  lemma ScenarioA()
    ensures Starts([2, 3, 4], 7) == [2] && Ends([2, 3, 4], 7) == [4]
  {
    var present := [2, 3, 4];
    assert 1 !in present && 5 !in present && 2 in present && 3 in present && 4 in present;
    var opening, closing := Opening(present, 7), Closing(present, 7);
    assert opening(2) && !opening(3) && !opening(4);
    assert !closing(2) && !closing(3) && closing(4);
    FilterThree(opening, 2, 3, 4);
    FilterThree(closing, 2, 3, 4);
  }

  /**
   present {0, 1, 3, 4} with end 5 gives starts [0, 3] but ends [4] only:
   frame 1 is never classified, so the first run is never closed.
   */
  lemma ScenarioB()
    ensures Starts([0, 1, 3, 4], 5) == [0, 3] && Ends([0, 1, 3, 4], 5) == [4]
  {
    var present := [0, 1, 3, 4];
    assert 2 !in present && 4 in present && 1 in present;
    var opening, closing := Opening(present, 5), Closing(present, 5);
    assert opening(0) && !opening(1) && opening(3) && !opening(4);
    assert !closing(0) && !closing(1) && !closing(3) && closing(4);
    FilterThree(opening, 0, 1, 3);
    FilterThree(closing, 0, 1, 3);
    assert present == [0, 1, 3] + [4];
    FilterSnoc(opening, [0, 1, 3], 4);
    FilterSnoc(closing, [0, 1, 3], 4);
  }

  /** Filter over a three-element sequence, one element at a time. */
  lemma FilterThree(p: int -> bool, a: int, b: int, c: int)
    ensures Filter(p, [a, b, c]) == (if p(a) then [a] else []) + (if p(b) then [b] else []) + (if p(c) then [c] else [])
  {
    assert [a, b, c] == [a, b] + [c] && [a, b] == [a] + [b] && [a] == [] + [a];
    FilterSnoc(p, [], a);
    FilterSnoc(p, [a], b);
    FilterSnoc(p, [a, b], c);
  }
}
