/**
 Subdivision of hardsub-ripping.py (lines 162-176): each dialogue found by
 edge detection whose first and last frames read differently is scanned
 backwards, and a cut is appended wherever the text changes. The text
 recogniser and the similarity judgement are abstract parameters.
 */
module Subdivision {
  import opened Optional

  /** The lines recognised on a frame (`transcriber`), an abstract input. */
  type Sampler = int -> seq<string>

  /**
   `is_same_sentence`, abstract: it joins each sample's lines and judges the
   two texts similar by a difflib ratio of at least 0.5. The join is part of
   the abstract judgement, so the model takes the samples as they are.
   */
  type Similar = (seq<string>, seq<string>) -> bool


  /** The two lists the script keeps: `starts[k]` is meant to pair with `ends[k]`. */
  datatype Timings = Timings(starts: seq<int>, ends: seq<int>)

  /** Each cut at frame j appends j + 1 to `starts`. */
  function Successors(cuts: seq<int>): (r: seq<int>)
    ensures |r| == |cuts|
  {
    seq(|cuts|, k requires 0 <= k < |cuts| => cuts[k] + 1)
  }

  /**
   The cuts the inner loop makes from frame `j` down to `s + 1`, where
   `contentEnd` is the rolling reference text: a frame whose text differs from
   it is a cut; the scan stops after a cut whose text matches `contentStart`,
   and otherwise continues with that frame's text as the new reference.
   */
  function ScanCuts(j: int, s: int, contentStart: seq<string>, contentEnd: seq<string>,
                    text: Sampler, same: Similar): seq<int>
    decreases j - s
  {
    if j <= s then []
    else
      var boundary := text(j);
      if !same(boundary, contentEnd) then
        if same(boundary, contentStart) then [j]
        else [j] + ScanCuts(j - 1, s, contentStart, boundary, text, same)
      else ScanCuts(j - 1, s, contentStart, contentEnd, text, same)
  }

  /** The cuts made for the dialogue (s, e): none when its two end texts are similar. */
  function IntervalCuts(s: int, e: int, text: Sampler, same: Similar): seq<int>
  {
    if same(text(s), text(e)) then []
    else ScanCuts(e, s, text(s), text(e), text, same)
  }

  /** Every cut lies in (lo, hi] and the cuts strictly decrease. */
  predicate Descending(cuts: seq<int>, lo: int, hi: int)
  {
    && (forall k :: 0 <= k < |cuts| ==> lo < cuts[k] <= hi)
    && (forall k, l :: 0 <= k < l < |cuts| ==> cuts[k] > cuts[l])
  }

  lemma {:induction false} ScanCutsShape(j: int, s: int, contentStart: seq<string>, contentEnd: seq<string>,
                                         text: Sampler, same: Similar)
    ensures Descending(ScanCuts(j, s, contentStart, contentEnd, text, same), s, j)
    ensures |ScanCuts(j, s, contentStart, contentEnd, text, same)| <= if j > s then j - s else 0
    decreases j - s
  {
    if j > s {
      var boundary := text(j);
      if !same(boundary, contentEnd) {
        if !same(boundary, contentStart) {
          ScanCutsShape(j - 1, s, contentStart, boundary, text, same);
        }
      } else {
        ScanCutsShape(j - 1, s, contentStart, contentEnd, text, same);
      }
    }
  }

  /**
   The cuts of one dialogue: none when its end texts are similar, otherwise
   frames strictly inside (s, e], last frame first, at most one per frame;
   with a reflexive judgement frame e itself is never a cut.
   */
  lemma IntervalCutsShape(s: int, e: int, text: Sampler, same: Similar)
    ensures same(text(s), text(e)) ==> IntervalCuts(s, e, text, same) == []
    ensures Descending(IntervalCuts(s, e, text, same), s, e)
    ensures |IntervalCuts(s, e, text, same)| <= if e > s then e - s else 0
    ensures same(text(e), text(e)) ==>
              forall k :: 0 <= k < |IntervalCuts(s, e, text, same)| ==> IntervalCuts(s, e, text, same)[k] < e
  {
    if !same(text(s), text(e)) {
      if e > s && same(text(e), text(e)) {
        ScanCutsShape(e - 1, s, text(s), text(e), text, same);
      }
      ScanCutsShape(e, s, text(s), text(e), text, same);
    }
  }

  /** How the cuts of one dialogue (s, e) are found; the outer loop does not depend on how. */
  type CutFinder = (int, int) -> seq<int>

  /** The backward scan of lines 165-176 as a cut finder. */
  function Scanner(text: Sampler, same: Similar): CutFinder
  {
    (s, e) => IntervalCuts(s, e, text, same)
  }

  /** Lines 171-172 for every cut j: `starts.append(j + 1)` and `ends.append(j)`. */
  function Append(t: Timings, cuts: seq<int>): Timings
  {
    Timings(t.starts + Successors(cuts), t.ends + cuts)
  }

  /** Iteration i of the outer loop on the current lists; None when `ends[i]` raises IndexError. */
  function Iteration(t: Timings, i: nat, cutsOf: CutFinder): Option<Timings>
    requires i < |t.starts|
  {
    if i < |t.ends| then Some(Append(t, cutsOf(t.starts[i], t.ends[i]))) else None
  }

  /**
   The lists after the first `n` iterations of the outer loop, or None when an
   iteration raised IndexError at `ends[i]` (line 164). Iteration i reads
   `starts[i]` and `ends[i]` from the lists as they are by then.
   */
  function SubdivideUpTo(t0: Timings, n: nat, cutsOf: CutFinder): (r: Option<Timings>)
    requires n <= |t0.starts|
    ensures r.Some? ==> |r.value.starts| >= |t0.starts|
  {
    if n == 0 then Some(t0)
    else
      var previous := SubdivideUpTo(t0, n - 1, cutsOf);
      if previous.None? then None else Iteration(previous.value, n - 1, cutsOf)
  }

  /**
   `t` is `t0` with pairs appended: existing entries are untouched, and each
   appended start is one past the end appended with it.
   */
  predicate Extends(t0: Timings, t: Timings)
  {
    && |t.starts| >= |t0.starts| && t.starts[..|t0.starts|] == t0.starts
    && |t.ends| >= |t0.ends| && t.ends[..|t0.ends|] == t0.ends
    && |t.starts| - |t0.starts| == |t.ends| - |t0.ends|
    && forall m :: |t0.starts| <= m < |t.starts| ==> t.starts[m] == t.ends[m - |t0.starts| + |t0.ends|] + 1
  }

  lemma ExtendsAppend(t0: Timings, t: Timings, cuts: seq<int>)
    requires Extends(t0, t)
    ensures Extends(t0, Append(t, cuts))
  {
    var u := Append(t, cuts);
    assert u.starts[..|t0.starts|] == t.starts[..|t0.starts|];
    assert u.ends[..|t0.ends|] == t.ends[..|t0.ends|];
    forall m | |t0.starts| <= m < |u.starts|
      ensures u.starts[m] == u.ends[m - |t0.starts| + |t0.ends|] + 1
    {
      if m >= |t.starts| {
        assert u.starts[m] == Successors(cuts)[m - |t.starts|];
        assert u.ends[m - |t0.starts| + |t0.ends|] == cuts[m - |t.starts|];
      }
    }
  }

  /**
   The loop only appends: whatever the recogniser reads, the original entries
   stay in place, and the appended entries are pairs (j + 1, j).
   */
  lemma {:induction false} SubdivideExtends(t0: Timings, n: nat, cutsOf: CutFinder)
    requires n <= |t0.starts|
    ensures SubdivideUpTo(t0, n, cutsOf).Some? ==> Extends(t0, SubdivideUpTo(t0, n, cutsOf).value)
  {
    if n == 0 {
      assert t0.starts[..|t0.starts|] == t0.starts && t0.ends[..|t0.ends|] == t0.ends;
    } else {
      SubdivideExtends(t0, n - 1, cutsOf);
      var previous := SubdivideUpTo(t0, n - 1, cutsOf);
      if previous.Some? && n - 1 < |previous.value.ends| {
        var t := previous.value;
        ExtendsAppend(t0, t, cutsOf(t.starts[n - 1], t.ends[n - 1]));
      }
    }
  }

  /** The loop at hardsub-ripping.py:162-176 raises IndexError only if `ends` was shorter than `starts`. */
  lemma {:induction false} PairedNeverCrashes(t0: Timings, n: nat, cutsOf: CutFinder)
    requires n <= |t0.starts| <= |t0.ends|
    ensures SubdivideUpTo(t0, n, cutsOf).Some?
  {
    if n > 0 {
      PairedNeverCrashes(t0, n - 1, cutsOf);
      SubdivideExtends(t0, n - 1, cutsOf);
    }
  }

  /** Reference definition: the cuts of the first n original dialogues, in order. */
  function AllCuts(t0: Timings, n: nat, cutsOf: CutFinder): (cuts: seq<int>)
    requires n <= |t0.starts| && n <= |t0.ends|
  {
    if n == 0 then [] else AllCuts(t0, n - 1, cutsOf) + cutsOf(t0.starts[n - 1], t0.ends[n - 1])
  }

  lemma SuccessorsConcat(a: seq<int>, b: seq<int>)
    ensures Successors(a + b) == Successors(a) + Successors(b)
  {
  }

  lemma AppendAppend(t: Timings, a: seq<int>, b: seq<int>)
    ensures Append(Append(t, a), b) == Append(t, a + b)
  {
    SuccessorsConcat(a, b);
    assert t.starts + Successors(a) + Successors(b) == t.starts + (Successors(a) + Successors(b));
    assert t.ends + a + b == t.ends + (a + b);
  }

  /**
   With `ends` at least as long as `starts`, the n iterations examine only the
   dialogues that existed before the loop: the appended pairs are never
   themselves subdivided, because the loop bound was fixed at the start.
   */
  lemma {:induction false} OnlyOriginalIntervals(t0: Timings, n: nat, cutsOf: CutFinder)
    requires n <= |t0.starts| <= |t0.ends|
    ensures SubdivideUpTo(t0, n, cutsOf) == Some(Append(t0, AllCuts(t0, n, cutsOf)))
  {
    if n == 0 {
      assert t0.starts + [] == t0.starts && t0.ends + [] == t0.ends;
    } else {
      OnlyOriginalIntervals(t0, n - 1, cutsOf);
      var before := AllCuts(t0, n - 1, cutsOf);
      var t := Append(t0, before);
      var cuts := cutsOf(t0.starts[n - 1], t0.ends[n - 1]);
      assert SubdivideUpTo(t0, n - 1, cutsOf) == Some(t);
      assert t.starts[n - 1] == t0.starts[n - 1] && t.ends[n - 1] == t0.ends[n - 1];
      assert Iteration(t, n - 1, cutsOf) == Some(Append(t, cuts));
      AppendAppend(t0, before, cuts);
      assert AllCuts(t0, n, cutsOf) == before + cuts;
    }
  }

  /**
   The loop at hardsub-ripping.py:162-176. `ok` is false when it stops with an
   IndexError; the loop bound is `len(starts)` taken once, before anything is appended.
   */
  method Subdivide(starts0: seq<int>, ends0: seq<int>, text: Sampler, same: Similar)
    returns (starts: seq<int>, ends: seq<int>, ok: bool)
    ensures ok <==> SubdivideUpTo(Timings(starts0, ends0), |starts0|, Scanner(text, same)).Some?
    ensures ok ==> SubdivideUpTo(Timings(starts0, ends0), |starts0|, Scanner(text, same)) == Some(Timings(starts, ends))
  {
    ghost var t0 := Timings(starts0, ends0);
    ghost var cutsOf := Scanner(text, same);
    starts, ends := starts0, ends0;
    var n := |starts|;
    for i := 0 to n
      invariant SubdivideUpTo(t0, i, cutsOf) == Some(Timings(starts, ends))
    {
      if i >= |ends| {
        CrashPersists(t0, i + 1, n, cutsOf);
        return starts, ends, false;
      }
      starts, ends := CutInterval(starts, ends, starts[i], ends[i], text, same);
    }
    ok := true;
  }

  /**
   The body of one outer iteration (hardsub-ripping.py:163-176) for the
   dialogue (s, e): the backward scan, appending each cut j as start j + 1
   and end j.
   */
  method CutInterval(starts0: seq<int>, ends0: seq<int>, s: int, e: int, text: Sampler, same: Similar)
    returns (starts: seq<int>, ends: seq<int>)
    ensures starts == starts0 + Successors(IntervalCuts(s, e, text, same))
    ensures ends == ends0 + IntervalCuts(s, e, text, same)
  {
    starts, ends := starts0, ends0;
    ghost var cuts := IntervalCuts(s, e, text, same);
    var contentStart := text(s);
    var contentEnd := text(e);
    if !same(contentStart, contentEnd) {
      ghost var done: seq<int> := [];
      var j := e;
      while j > s
        invariant done + ScanCuts(j, s, contentStart, contentEnd, text, same) == cuts
        invariant starts == starts0 + Successors(done) && ends == ends0 + done
      {
        var boundary := text(j);
        ScanAdvance(done, cuts, j, s, contentStart, contentEnd, text, same);
        if !same(boundary, contentEnd) {
          starts := starts + [j + 1];
          ends := ends + [j];
          SuccessorsSnoc(done, j);
          done := done + [j];
          if same(boundary, contentStart) {
            break;
          }
          contentEnd := boundary;
        }
        j := j - 1;
      }
      ScanFinished(done, cuts, j, s, contentStart, contentEnd, text, same);
    } else {
      assert cuts == [];
      assert starts0 + [] == starts0 && ends0 + [] == ends0;
    }
  }

  /** What is left of the cuts after one step of the backward scan at frame j. */
  lemma ScanAdvance(done: seq<int>, cuts: seq<int>, j: int, s: int, contentStart: seq<string>, contentEnd: seq<string>,
                    text: Sampler, same: Similar)
    requires done + ScanCuts(j, s, contentStart, contentEnd, text, same) == cuts && j > s
    ensures !same(text(j), contentEnd) && same(text(j), contentStart) ==>
              done + [j] == cuts
    ensures !same(text(j), contentEnd) && !same(text(j), contentStart) ==>
              (done + [j]) + ScanCuts(j - 1, s, contentStart, text(j), text, same) == cuts
    ensures same(text(j), contentEnd) ==>
              done + ScanCuts(j - 1, s, contentStart, contentEnd, text, same) == cuts
  {
    assert done + ([j] + ScanCuts(j - 1, s, contentStart, text(j), text, same))
        == (done + [j]) + ScanCuts(j - 1, s, contentStart, text(j), text, same);
  }

  /** The scan has nothing left to cut once it is past frame s + 1. */
  lemma ScanFinished(done: seq<int>, cuts: seq<int>, j: int, s: int, contentStart: seq<string>, contentEnd: seq<string>,
                     text: Sampler, same: Similar)
    requires (done + ScanCuts(j, s, contentStart, contentEnd, text, same) == cuts && j <= s) || done == cuts
    ensures done == cuts
  {
    if j <= s {
      assert ScanCuts(j, s, contentStart, contentEnd, text, same) == [];
      assert done + [] == done;
    }
  }

  /** Once an iteration has raised IndexError, the loop is over. */
  lemma {:induction false} CrashPersists(t0: Timings, i: nat, n: nat, cutsOf: CutFinder)
    requires i <= n <= |t0.starts|
    ensures SubdivideUpTo(t0, i, cutsOf).None? ==> SubdivideUpTo(t0, n, cutsOf).None?
    decreases n - i
  {
    if i < n {
      CrashPersists(t0, i + 1, n, cutsOf);
    }
  }

  lemma SuccessorsSnoc(cuts: seq<int>, j: int)
    ensures Successors(cuts + [j]) == Successors(cuts) + [j + 1]
  {
    assert (cuts + [j])[..|cuts|] == cuts;
  }

  /** The scan skips frames that read like the current reference text. */
  lemma {:induction false} ScanSkips(j: int, k: int, s: int, contentStart: seq<string>, contentEnd: seq<string>,
                                     text: Sampler, same: Similar)
    requires s <= k <= j
    requires forall f :: k < f <= j ==> same(text(f), contentEnd)
    ensures ScanCuts(j, s, contentStart, contentEnd, text, same) == ScanCuts(k, s, contentStart, contentEnd, text, same)
    decreases j - k
  {
    if k < j {
      ScanSkips(j - 1, k, s, contentStart, contentEnd, text, same);
    }
  }

  /**
   A dialogue over frames 10-20 that reads "Hello" up to frame 14 and
   "Goodbye" from frame 15 is cut once, at frame 14: the pair appended is
   start 15 and end 14, and the original pair (10, 20) is left as it was.
   */
  lemma SplitDialogue(text: Sampler, same: Similar)
    requires forall f :: f <= 14 ==> text(f) == ["Hello"]
    requires forall f :: f >= 15 ==> text(f) == ["Goodbye"]
    requires same(["Hello"], ["Hello"]) && same(["Goodbye"], ["Goodbye"])
    requires !same(["Hello"], ["Goodbye"]) && !same(["Goodbye"], ["Hello"])
    ensures IntervalCuts(10, 20, text, same) == [14]
    ensures SubdivideUpTo(Timings([10], [20]), 1, Scanner(text, same)) == Some(Timings([10, 15], [20, 14]))
  {
    assert text(10) == ["Hello"] && text(20) == ["Goodbye"] && text(14) == ["Hello"];
    ScanSkips(20, 14, 10, ["Hello"], ["Goodbye"], text, same);
    assert IntervalCuts(10, 20, text, same) == [14];
    assert Scanner(text, same)(10, 20) == [14];
    assert Successors([14]) == [15];
    assert Append(Timings([10], [20]), [14]) == Timings([10, 15], [20, 14]);
    assert Iteration(Timings([10], [20]), 0, Scanner(text, same)) == Some(Timings([10, 15], [20, 14]));
  }
}
