/**
 `string_to_frame` of hardsub-ripping.py: turns a `MM:SS` or `HH:MM:SS`
 start/end marker into a frame number, assuming a fixed rate of 30 frames per
 second rather than the video's own rate.
 */
module FrameMarkers {
  import opened Optional
  import opened Strings
  import opened PyInt

  /**
   What `string_to_frame` produces: a frame number, Python's `None` (the
   function falls off its end), or the `sys.exit()` taken on a malformed marker.
   */
  datatype FrameMarker = Frame(frame: int) | NoFrame | InputError

  function StringToFrame(marker: string): (r: FrameMarker)
    // A plain integer is parsed at the first `int()`, but `return frame` sits
    // in the `except` branch, so the result is None.
    ensures ParseInt(marker).Some? ==> r == NoFrame
    // Exit when a colon field is not an integer, or there are 1 or at least 4 fields.
    ensures r == InputError <==>
              ParseInt(marker).None? &&
              (ParseInts(Split(marker, ":")).None? ||
               |Split(marker, ":")| == 1 || |Split(marker, ":")| >= 4)
    // Every converted marker is a whole number of seconds at 30 frames per second (the literal 30 of the source).
    ensures r.Frame? ==> r.frame % 30 == 0
  {
    if ParseInt(marker).Some? then NoFrame
    else
      var timing := Split(marker, ":");
      match ParseInts(timing)
      case None => InputError
      case Some(f) =>
        if |f| == 1 || |f| >= 4 then InputError
        else if |f| == 2 then Frame(MinutesFrame(f[0], f[1]))
        else Frame(HoursFrame(f[0], f[1], f[2]))
  }

  /** `MM:SS` at 30 frames per second: a whole number of seconds. */
  function MinutesFrame(mm: int, ss: int): (frame: int)
    ensures frame % 30 == 0
  {
    WholeSeconds(mm * 60 * 30 + ss * 30, mm * 60 + ss);
    mm * 60 * 30 + ss * 30
  }

  /** `HH:MM:SS` at 30 frames per second: a whole number of seconds. */
  function HoursFrame(hh: int, mm: int, ss: int): (frame: int)
    ensures frame % 30 == 0
  {
    WholeSeconds(hh * 60 * 60 * 30 + mm * 60 * 30 + ss * 30, hh * 60 * 60 + mm * 60 + ss);
    hh * 60 * 60 * 30 + mm * 60 * 30 + ss * 30
  }

  lemma WholeSeconds(frame: int, seconds: int)
    requires frame == seconds * 30
    ensures frame % 30 == 0
  {
  }

  /** A marker that is not a plain integer and has two integer colon fields is converted. */
  lemma ConvertedMinutes(marker: string, mm: int, ss: int)
    requires ParseInt(marker).None? && ParseInts(Split(marker, ":")) == Some([mm, ss])
    ensures StringToFrame(marker) == Frame(MinutesFrame(mm, ss))
  {
  }

  /** A marker that is not a plain integer and has three integer colon fields is converted. */
  lemma ConvertedHours(marker: string, hh: int, mm: int, ss: int)
    requires ParseInt(marker).None? && ParseInts(Split(marker, ":")) == Some([hh, mm, ss])
    ensures StringToFrame(marker) == Frame(HoursFrame(hh, mm, ss))
  {
  }

  /** A text holding a colon is never a plain integer. */
  lemma ColonIsNotInteger(s: string)
    requires ':' in s
    ensures ParseInt(s).None?
  {
    ParseIntChars(s);
    var i :| 0 <= i < |s| && s[i] == ':';
    assert !IsNumeralChar(s[i]);
  }

  /** Rendered integers joined by colons split back into those integers. */
  lemma ColonFields(ns: seq<int>)
    requires |ns| >= 2
    ensures ParseInt(Join(RenderAll(ns), ":")).None?
    ensures ParseInts(Split(Join(RenderAll(ns), ":"), ":")) == Some(ns)
  {
    SplitRendered(ns, ':');
    var parts := RenderAll(ns);
    var text := Join(parts, ":");
    assert text == parts[0] + ":" + Join(parts[1..], ":");
    assert text[|parts[0]|] == ':';
    ColonIsNotInteger(text);
  }

  /** `MM:SS` becomes MM*60*30 + SS*30. */
  lemma MinutesSeconds(mm: int, ss: int)
    ensures StringToFrame(IntToString(mm) + ":" + IntToString(ss)) == Frame(MinutesFrame(mm, ss))
  {
    var a, b := IntToString(mm), IntToString(ss);
    assert RenderAll([mm, ss]) == [a, b];
    JoinTwo(a, b);
    ColonFieldsAt([mm, ss], a + ":" + b);
    ConvertedMinutes(a + ":" + b, mm, ss);
  }

  /** `HH:MM:SS` becomes HH*60*60*30 + MM*60*30 + SS*30. */
  lemma HoursMinutesSeconds(hh: int, mm: int, ss: int)
    ensures StringToFrame(IntToString(hh) + ":" + IntToString(mm) + ":" + IntToString(ss))
            == Frame(HoursFrame(hh, mm, ss))
  {
    var a, b, c := IntToString(hh), IntToString(mm), IntToString(ss);
    assert RenderAll([hh, mm, ss]) == [a, b, c];
    JoinThree(a, b, c);
    ColonFieldsAt([hh, mm, ss], a + ":" + b + ":" + c);
    ConvertedHours(a + ":" + b + ":" + c, hh, mm, ss);
  }

  lemma ColonFieldsAt(ns: seq<int>, text: string)
    requires |ns| >= 2 && text == Join(RenderAll(ns), ":")
    ensures ParseInt(text).None? && ParseInts(Split(text, ":")) == Some(ns)
  {
    ColonFields(ns);
  }

  lemma JoinTwo(a: string, b: string)
    ensures Join([a, b], ":") == a + ":" + b
  {
    assert [a, b][1..] == [b];
  }

  lemma JoinThree(a: string, b: string, c: string)
    ensures Join([a, b, c], ":") == a + ":" + b + ":" + c
  {
    assert [a, b, c][1..] == [b, c];
    assert [b, c][1..] == [c];
    assert Join([b, c], ":") == b + ":" + c;
    assert Join([a, b, c], ":") == a + ":" + (b + ":" + c);
  }

  /** A plain integer marker yields None, not a frame. */
  lemma PlainIntegerIsNone(n: int)
    ensures StringToFrame(IntToString(n)) == NoFrame
  {
    ParseIntToString(n);
  }

  /** Four or more integer fields are refused. */
  lemma TooManyFields(ns: seq<int>)
    requires |ns| >= 4
    ensures StringToFrame(Join(RenderAll(ns), ":")) == InputError
  {
    ColonFields(ns);
  }
}
