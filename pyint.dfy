/**
 A model of Python's `int(text)` on strings and of `str(n)` on integers.
 `int()` is modelled as: surrounding ASCII whitespace is ignored, then an
 optional `+` or `-` sign, then one or more ASCII digits. Digit-group
 underscores and non-ASCII digits or whitespace are not modelled.
 */
module PyInt {
  import opened Optional
  import opened Strings

  /** The characters `str.strip()` removes that this model knows about. */
  predicate IsSpace(c: char)
  {
    c == ' ' || c == '\t' || c == '\n' || c == '\r' || c == '\U{B}' || c == '\U{C}'
  }

  predicate IsDigit(c: char)
  {
    '0' <= c <= '9'
  }

  /** A character that can appear anywhere in a text `int()` accepts. */
  predicate IsNumeralChar(c: char)
  {
    IsSpace(c) || IsDigit(c) || c == '+' || c == '-'
  }

  predicate IsDigits(ds: string)
  {
    |ds| > 0 && forall i :: 0 <= i < |ds| ==> IsDigit(ds[i])
  }

  /** Drops leading whitespace; what is dropped is whitespace and what is kept is a suffix. */
  function TrimStart(s: string): (r: string)
    ensures |r| <= |s| && r == s[|s| - |r|..]
    ensures forall i :: 0 <= i < |s| - |r| ==> IsSpace(s[i])
    ensures r != [] ==> !IsSpace(r[0])
  {
    if |s| > 0 && IsSpace(s[0]) then TrimStart(s[1..]) else s
  }

  /** Drops trailing whitespace; what is dropped is whitespace and what is kept is a prefix. */
  function TrimEnd(s: string): (r: string)
    ensures |r| <= |s| && r == s[..|r|]
    ensures forall i :: |r| <= i < |s| ==> IsSpace(s[i])
    ensures r != [] ==> !IsSpace(r[|r| - 1])
  {
    if |s| > 0 && IsSpace(s[|s| - 1]) then TrimEnd(s[..|s| - 1]) else s
  }

  /** Python's `s.strip()` restricted to ASCII whitespace. */
  function Strip(s: string): string
  {
    TrimEnd(TrimStart(s))
  }

  function DigitValue(c: char): nat
    requires IsDigit(c)
  {
    (c as int) - ('0' as int)
  }

  /** The number a run of decimal digits denotes, most significant first. */
  function DigitsValue(ds: string): nat
    requires forall i :: 0 <= i < |ds| ==> IsDigit(ds[i])
  {
    if ds == [] then 0 else DigitsValue(ds[..|ds| - 1]) * 10 + DigitValue(ds[|ds| - 1])
  }

  /** Python's `int(s)`: `None` stands for the `ValueError` it raises. */
  function ParseInt(s: string): Option<int>
  {
    var t := Strip(s);
    if |t| > 0 && (t[0] == '+' || t[0] == '-') then
      var ds := t[1..];
      var v: int := if IsDigits(ds) then DigitsValue(ds) else 0;
      if IsDigits(ds) then Some(if t[0] == '-' then -v else v)
      else None
    else if IsDigits(t) then Some(DigitsValue(t))
    else None
  }

  /** Each character of a text is whitespace or survives the strip. */
  lemma StripKeeps(s: string, i: nat)
    requires i < |s| && !IsSpace(s[i])
    ensures s[i] in Strip(s)
  {
    var u := TrimStart(s);
    var t := TrimEnd(u);
    var j := i - (|s| - |u|);
    assert 0 <= j < |u| && u[j] == s[i];
    assert j < |t|;
    assert t[j] == s[i];
  }

  /** A text `int()` accepts holds only whitespace, digits and signs. */
  lemma ParseIntChars(s: string)
    ensures ParseInt(s).Some? ==> forall i :: 0 <= i < |s| ==> IsNumeralChar(s[i])
  {
    if ParseInt(s).None? { return; }
    var t := Strip(s);
    assert forall k :: 0 <= k < |t| ==> IsNumeralChar(t[k]) by {
      forall k | 0 <= k < |t| ensures IsNumeralChar(t[k]) {
        if k > 0 && (t[0] == '+' || t[0] == '-') { assert t[1..][k - 1] == t[k]; }
      }
    }
    forall i | 0 <= i < |s| ensures IsNumeralChar(s[i]) {
      if !IsSpace(s[i]) { StripKeeps(s, i); }
    }
  }

  /** Python's `[int(f) for f in fields]`: `None` as soon as one field is not an integer. */
  function ParseInts(fields: seq<string>): (r: Option<seq<int>>)
    ensures r.Some? <==> forall k :: 0 <= k < |fields| ==> ParseInt(fields[k]).Some?
    ensures r.Some? ==> |r.value| == |fields| &&
                        forall k :: 0 <= k < |fields| ==> ParseInt(fields[k]) == Some(r.value[k])
  {
    if fields == [] then Some([])
    else
      match ParseInt(fields[0])
      case None => None
      case Some(n) =>
        match ParseInts(fields[1..])
        case None => None
        case Some(ns) => Some([n] + ns)
  }

  function DigitChar(d: nat): (c: char)
    requires d < 10
    ensures IsDigit(c) && DigitValue(c) == d
  {
    ('0' as int + d) as char
  }

  /** Python's `str(n)` for a natural number: decimal digits, no leading zeros. */
  function NatToString(n: nat): (s: string)
    ensures IsDigits(s)
    ensures DigitsValue(s) == n
  {
    if n < 10 then [DigitChar(n)]
    else
      var s := NatToString(n / 10) + [DigitChar(n % 10)];
      assert s[..|s| - 1] == NatToString(n / 10);
      s
  }

  /** Python's `str(n)`: a `-` in front of the digits of a negative number. */
  function IntToString(n: int): (s: string)
    ensures s != [] && forall i :: 0 <= i < |s| ==> IsDigit(s[i]) || s[i] == '-'
  {
    if n < 0 then "-" + NatToString(-n) else NatToString(n)
  }

  /** `[str(n) for n in ns]`. */
  function RenderAll(ns: seq<int>): (r: seq<string>)
    ensures |r| == |ns| && forall k :: 0 <= k < |ns| ==> r[k] == IntToString(ns[k])
  {
    if ns == [] then [] else [IntToString(ns[0])] + RenderAll(ns[1..])
  }

  /** Parsing the rendered numbers gives them back. */
  lemma {:induction false} ParseRenderAll(ns: seq<int>)
    ensures ParseInts(RenderAll(ns)) == Some(ns)
  {
    if ns != [] {
      var fields := RenderAll(ns);
      ParseIntToString(ns[0]);
      ParseRenderAll(ns[1..]);
      assert fields[1..] == RenderAll(ns[1..]);
      ParseIntsCons(fields, ns[0], ns[1..]);
      assert [ns[0]] + ns[1..] == ns;
    }
  }

  lemma ParseIntsCons(fields: seq<string>, n: int, ns: seq<int>)
    requires fields != [] && ParseInt(fields[0]) == Some(n) && ParseInts(fields[1..]) == Some(ns)
    ensures ParseInts(fields) == Some([n] + ns)
  {
  }

  /**
   Rendered integers joined by a separator that is neither a digit nor a minus
   sign split back into fields that parse to those integers.
   */
  lemma SplitRendered(ns: seq<int>, c: char)
    requires |ns| >= 1 && !IsDigit(c) && c != '-'
    ensures Split(Join(RenderAll(ns), [c]), [c]) == RenderAll(ns)
    ensures ParseInts(Split(Join(RenderAll(ns), [c]), [c])) == Some(ns)
  {
    var parts := RenderAll(ns);
    assert forall k :: 0 <= k < |parts| ==> c !in parts[k];
    SplitJoin(parts, c);
    ParseRenderAll(ns);
  }

  /** A text that neither starts nor ends with whitespace is its own strip. */
  lemma StripUnpadded(s: string)
    requires s != [] && !IsSpace(s[0]) && !IsSpace(s[|s| - 1])
    ensures Strip(s) == s
  {
  }

  /** `int(str(n)) == n`: the decimal rendering parses back to the number. */
  lemma ParseIntToString(n: int)
    ensures ParseInt(IntToString(n)) == Some(n)
  {
    var s := IntToString(n);
    StripUnpadded(s);
    if n < 0 {
      assert s[1..] == NatToString(-n);
    }
  }

  lemma TrimStartSpace(x: string)
    ensures TrimStart(" " + x) == TrimStart(x)
  {
    assert (" " + x)[1..] == x;
  }

  lemma TrimEndSpace(x: string)
    ensures TrimEnd(x + " ") == TrimEnd(x)
  {
    assert (x + " ")[..|x|] == x;
  }

  /** `int` ignores surrounding spaces: `int(" " + str(n) + " ") == n`. */
  lemma ParseIntPadded(n: int)
    ensures ParseInt(" " + IntToString(n) + " ") == Some(n)
  {
    var s := IntToString(n);
    StripPadded(s);
    ParseIntSameStrip(" " + s + " ", s);
    ParseIntToString(n);
  }

  /** One space on each side of a text with no whitespace at its ends is stripped off again. */
  lemma StripPadded(s: string)
    requires s != [] && !IsSpace(s[0]) && !IsSpace(s[|s| - 1])
    ensures Strip(" " + s + " ") == s
  {
    assert " " + s + " " == " " + (s + " ");
    TrimStartSpace(s + " ");
    assert TrimStart(s + " ") == s + " " by {
      assert !IsSpace((s + " ")[0]);
    }
    TrimEndSpace(s);
    StripUnpadded(s);
  }

  lemma ParseIntSameStrip(a: string, b: string)
    requires Strip(a) == Strip(b)
    ensures ParseInt(a) == ParseInt(b)
  {
  }
}
