/**
 The SubRip event layout both subtitle scripts write through their `writer`
 helper (hardsub-ripping.py and multi-release.py define the same function):
 the event number, a `start --> end` line, one line per content item and a
 blank line, each followed by a newline.
 */
module Srt {
  import opened Strings

  /** An output subtitle file opened for appending; `text` is everything written to it so far. */
  class SubtitleFile {
    var text: string

    constructor ()
      ensures text == []
    {
      text := [];
    }

    /** `file.write(s)`. */
    method Write(s: string)
      modifies this
      ensures text == old(text) + s
    {
      text := text + s;
    }
  }

  /** The lines of one event, in the order `writer` writes them. */
  function BlockLines(number: string, start: string, end: string, content: seq<string>): seq<string>
  {
    [number, start + " --> " + end] + content + [""]
  }

  /** Each line followed by a newline character. */
  function Terminated(lines: seq<string>): string
  {
    if lines == [] then [] else lines[0] + "\n" + Terminated(lines[1..])
  }

  /** Everything one call of `writer` appends to the file. */
  function EventBlock(number: string, start: string, end: string, content: seq<string>): string
  {
    Terminated(BlockLines(number, start, end, content))
  }

  lemma {:induction false} TerminatedAppend(a: seq<string>, b: seq<string>)
    ensures Terminated(a + b) == Terminated(a) + Terminated(b)
  {
    if a == [] {
      assert a + b == b;
    } else {
      assert (a + b)[1..] == a[1..] + b;
      TerminatedAppend(a[1..], b);
    }
  }

  /** Terminated lines are the lines joined by newlines, with a final empty field. */
  lemma {:induction false} TerminatedIsJoin(lines: seq<string>)
    ensures Terminated(lines) == Join(lines + [""], "\n")
  {
    if lines != [] {
      TerminatedIsJoin(lines[1..]);
      assert (lines + [""])[1..] == lines[1..] + [""];
    }
  }

  /**
   Reading a written file back line by line recovers exactly the lines that
   were written, provided none of them holds a newline itself.
   */
  lemma ReadBack(lines: seq<string>)
    requires forall k :: 0 <= k < |lines| ==> '\n' !in lines[k]
    ensures Split(Terminated(lines), "\n") == lines + [""]
  {
    var fields := lines + [""];
    TerminatedIsJoin(lines);
    assert forall k :: 0 <= k < |fields| ==> '\n' !in fields[k] by {
      forall k | 0 <= k < |fields| ensures '\n' !in fields[k] {
        if k < |lines| { assert fields[k] == lines[k]; }
      }
    }
    SplitJoin(fields, '\n');
  }

  /** `writer(sub, number, start, end, content)` (hardsub-ripping.py and multi-release.py). */
  method Writer(sub: SubtitleFile, number: string, start: string, end: string, content: seq<string>)
    modifies sub
    ensures sub.text == old(sub.text) + EventBlock(number, start, end, content)
  {
    sub.Write(number + "\n");
    sub.Write(start + " --> " + end + "\n");
    var header := [number, start + " --> " + end];
    var arrow := start + " --> " + end;
    assert Terminated(header) == number + "\n" + (arrow + "\n") by {
      assert header[1..] == [arrow] && [arrow][1..] == [];
      assert Terminated([arrow]) == arrow + "\n" + Terminated([]);
    }
    assert header + content[..0] == header;
    for k := 0 to |content|
      invariant sub.text == old(sub.text) + Terminated(header + content[..k])
    {
      sub.Write(content[k] + "\n");
      TerminatedAppend(header + content[..k], [content[k]]);
      assert header + content[..k + 1] == header + content[..k] + [content[k]];
    }
    sub.Write("\n");
    TerminatedAppend(header + content, [""]);
    assert content[..|content|] == content;
  }
}
