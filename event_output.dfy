/**
 The output stage of hardsub-ripping.py (lines 179-183): one SubRip event per
 entry of `ends`, numbered from 1 in list order, timed from `starts[i]` to
 the frame after `ends[i]`, with the text read at the middle frame. The
 frame-to-timestamp conversion is an abstract parameter.
 */
module EventOutput {
  import opened PyInt
  import opened Srt
  import opened Subdivision
  import opened Strings

  /** `ms_to_str(frames_to_ms(frame, fps))`: the timestamp written for a frame, abstract. */
  type Stamp = int -> string

  /** Python's `int(n / 2)`: halving, truncated toward zero. */
  function TruncHalf(n: int): (r: int)
    ensures n >= 0 ==> 0 <= n - 2 * r <= 1
    ensures n < 0 ==> 0 <= 2 * r - n <= 1
  {
    if n >= 0 then n / 2 else -((-n) / 2)
  }

  /** The frame whose text an event carries: `int((start + end + 1) / 2)`. */
  function Midpoint(s: int, e: int): int
  {
    TruncHalf(s + e + 1)
  }

  /** For a dialogue with s <= e the middle frame lies inside it. */
  lemma MidpointWithin(s: int, e: int)
    requires s <= e && s + e + 1 >= 0
    ensures s <= Midpoint(s, e) <= e
  {
  }

  /** A pair (j + 1, j) appended by the subdivision reads its text at frame j + 1. */
  lemma CutMidpoint(j: int)
    requires j >= -1
    ensures Midpoint(j + 1, j) == j + 1
  {
  }

  /** The lines of event i as `writer` writes them. */
  function EventLinesOf(starts: seq<int>, ends: seq<int>, text: Sampler, stamp: Stamp, i: nat): seq<string>
    requires i < |starts| && i < |ends|
  {
    BlockLines(IntToString(i + 1), stamp(starts[i]), stamp(ends[i] + 1), text(Midpoint(starts[i], ends[i])))
  }

  /** The lines of the first n events, in list order. */
  function EventLines(starts: seq<int>, ends: seq<int>, text: Sampler, stamp: Stamp, n: nat): seq<string>
    requires n <= |starts| && n <= |ends|
  {
    if n == 0 then [] else EventLines(starts, ends, text, stamp, n - 1) + EventLinesOf(starts, ends, text, stamp, n - 1)
  }

  /**
   The loop at hardsub-ripping.py:179-183. It runs over `range(len(ends))`, so
   it raises IndexError (`ok` false) when `starts` is shorter, after writing the
   events it could; no sorting happens, events appear in list order.
   */
  method WriteEvents(sub: SubtitleFile, starts: seq<int>, ends: seq<int>, text: Sampler, stamp: Stamp)
    returns (ok: bool)
    modifies sub
    ensures ok <==> |ends| <= |starts|
    ensures sub.text == old(sub.text) + Terminated(EventLines(starts, ends, text, stamp, if ok then |ends| else |starts|))
  {
    for i := 0 to |ends|
      invariant i <= |starts|
      invariant sub.text == old(sub.text) + Terminated(EventLines(starts, ends, text, stamp, i))
    {
      if i >= |starts| {
        return false;
      }
      var start := stamp(starts[i]);
      var end := stamp(ends[i] + 1);
      var content := text(Midpoint(starts[i], ends[i]));
      ghost var written := sub.text;
      Writer(sub, IntToString(i + 1), start, end, content);
      EventStep(starts, ends, text, stamp, i, written, sub.text, old(sub.text));
    }
    ok := true;
  }

  /** Writing event i after the first i events gives the first i + 1 events. */
  lemma EventStep(starts: seq<int>, ends: seq<int>, text: Sampler, stamp: Stamp, i: nat, before: string, after: string, initial: string)
    requires i < |starts| && i < |ends|
    requires before == initial + Terminated(EventLines(starts, ends, text, stamp, i))
    requires after == before + EventBlock(IntToString(i + 1), stamp(starts[i]), stamp(ends[i] + 1), text(Midpoint(starts[i], ends[i])))
    ensures after == initial + Terminated(EventLines(starts, ends, text, stamp, i + 1))
  {
    TerminatedAppend(EventLines(starts, ends, text, stamp, i), EventLinesOf(starts, ends, text, stamp, i));
  }

  /** The recognised text and the timestamps never hold a newline. */
  ghost predicate SingleLines(text: Sampler, stamp: Stamp)
  {
    && (forall f :: '\n' !in stamp(f))
    && (forall f, k :: 0 <= k < |text(f)| ==> '\n' !in text(f)[k])
  }

  lemma {:induction false} EventLinesSingle(starts: seq<int>, ends: seq<int>, text: Sampler, stamp: Stamp, n: nat)
    requires n <= |starts| && n <= |ends| && SingleLines(text, stamp)
    ensures forall k :: 0 <= k < |EventLines(starts, ends, text, stamp, n)| ==>
              '\n' !in EventLines(starts, ends, text, stamp, n)[k]
  {
    if n > 0 {
      EventLinesSingle(starts, ends, text, stamp, n - 1);
      var before := EventLines(starts, ends, text, stamp, n - 1);
      var block := EventLinesOf(starts, ends, text, stamp, n - 1);
      BlockSingle(IntToString(n), stamp(starts[n - 1]), stamp(ends[n - 1] + 1), text(Midpoint(starts[n - 1], ends[n - 1])));
      forall k | 0 <= k < |before + block| ensures '\n' !in (before + block)[k] {
        if k >= |before| { assert (before + block)[k] == block[k - |before|]; }
      }
    }
  }

  lemma BlockSingle(number: string, start: string, end: string, content: seq<string>)
    requires '\n' !in number && '\n' !in start && '\n' !in end
    requires forall k :: 0 <= k < |content| ==> '\n' !in content[k]
    ensures forall k :: 0 <= k < |BlockLines(number, start, end, content)| ==> '\n' !in BlockLines(number, start, end, content)[k]
  {
    var lines := BlockLines(number, start, end, content);
    forall k | 0 <= k < |lines| ensures '\n' !in lines[k] {
      if k == 1 {
        assert lines[1] == start + " --> " + end;
      } else if 2 <= k < |lines| - 1 {
        assert lines[k] == content[k - 2];
      }
    }
  }

  /**
   Read back line by line, the written file is exactly the event lines in
   order, followed by nothing but the final newline.
   */
  lemma ReadEvents(starts: seq<int>, ends: seq<int>, text: Sampler, stamp: Stamp, n: nat)
    requires n <= |starts| && n <= |ends| && SingleLines(text, stamp)
    ensures Split(Terminated(EventLines(starts, ends, text, stamp, n)), "\n") == EventLines(starts, ends, text, stamp, n) + [""]
  {
    EventLinesSingle(starts, ends, text, stamp, n);
    ReadBack(EventLines(starts, ends, text, stamp, n));
  }

  /**
   An event made from an appended pair (j + 1, j) starts and ends at the same
   timestamp and carries the text of frame j + 1.
   */
  lemma CutEventIsInstant(starts: seq<int>, ends: seq<int>, text: Sampler, stamp: Stamp, i: nat)
    requires i < |starts| && i < |ends| && starts[i] == ends[i] + 1 && ends[i] >= -1
    ensures EventLinesOf(starts, ends, text, stamp, i)
            == BlockLines(IntToString(i + 1), stamp(starts[i]), stamp(starts[i]), text(starts[i]))
  {
    CutMidpoint(ends[i]);
  }

  /**
   The dialogue over frames 10-20 that changes from "Hello" to "Goodbye" at
   frame 15 is written as two events in list order: event 1 still spans
   frames 10-20 and carries the text of its middle frame 15, and event 2 is the
   instant at frame 15.
   */
  lemma SplitDialogueOutput(text: Sampler, stamp: Stamp)
    requires forall f :: f >= 15 ==> text(f) == ["Goodbye"]
    ensures EventLines([10, 15], [20, 14], text, stamp, 2)
            == BlockLines("1", stamp(10), stamp(21), ["Goodbye"]) + BlockLines("2", stamp(15), stamp(15), ["Goodbye"])
  {
    assert Midpoint(10, 20) == 15 && Midpoint(15, 14) == 15;
    assert IntToString(1) == "1" && IntToString(2) == "2";
    assert EventLines([10, 15], [20, 14], text, stamp, 1) == [] + EventLinesOf([10, 15], [20, 14], text, stamp, 0);
  }
}
