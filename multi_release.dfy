/**
 multi-release.py: each event of a bilingual subtitle file is split into its
 dialogues at the two-character separator backslash-N; a dialogue holding a
 CJK Unified Ideograph is Chinese, every other one is English with speaker
 names, and the English lines lose their names through `truncater`. Up to
 four variants are written, each in the SubRip layout of `writer`.
 */
module MultiRelease {
  import opened Optional
  import opened Seqs
  import opened Strings
  import opened PyInt
  import opened Srt

  /** Keywords marking credit lines that keep their names (line 24). */
  const Ignored: seq<string> := ["Translator", "Proofreader", "Timing", "Qin's Moon", "Note"]

  /** The dialogue separator of an event's text: a backslash followed by `N`. */
  const Separator: string := "\\N"

  /** The dialogues of an event's text, `text.split('\\N')` (line 66). */
  function Dialogues(text: string): (r: seq<string>)
    ensures |r| >= 1
  {
    Split(text, Separator)
  }

  /** Splitting an event's text into dialogues loses nothing: re-joining them gives the text back. */
  lemma DialoguesRejoin(text: string)
    ensures Join(Dialogues(text), Separator) == text
  {
    JoinSplit(text, Separator);
  }

  /** A character of the CJK Unified Ideographs block, U+4E00 to U+9FFF. */
  predicate IsCjk(c: char)
  {
    '\U{4E00}' <= c <= '\U{9FFF}'
  }

  /** A Chinese dialogue holds at least one CJK ideograph. */
  predicate IsChinese(d: string)
  {
    exists k | 0 <= k < |d| :: IsCjk(d[k])
  }

  predicate IsEnglish(d: string)
  {
    !IsChinese(d)
  }

  /** The Chinese lines of an event, in order. */
  function ChineseLines(text: string): seq<string>
  {
    Filter(IsChinese, Dialogues(text))
  }

  /** The English lines of an event, names included, in order. */
  function EnglishLines(text: string): seq<string>
  {
    Filter(IsEnglish, Dialogues(text))
  }

  /**
   The classification loop of lines 67-73: the inner loop stops at the first
   CJK ideograph and files the dialogue as Chinese; the `for`/`else` files a
   dialogue whose scan ran to its end as English.
   */
  method SplitDialogues(text: string) returns (cn: seq<string>, enWithNames: seq<string>)
    ensures cn == ChineseLines(text)
    ensures enWithNames == EnglishLines(text)
  {
    var dialogues := Split(text, Separator);
    cn := [];
    enWithNames := [];
    for d := 0 to |dialogues|
      invariant cn == Filter(IsChinese, dialogues[..d])
      invariant enWithNames == Filter(IsEnglish, dialogues[..d])
    {
      var dialogue := dialogues[d];
      var broke := false;
      var k := 0;
      while k < |dialogue|
        invariant 0 <= k <= |dialogue|
        invariant forall j :: 0 <= j < k ==> !IsCjk(dialogue[j])
      {
        if IsCjk(dialogue[k]) {
          broke := true;
          break;
        }
        k := k + 1;
      }
      assert broke <==> IsChinese(dialogue);
      if broke {
        cn := cn + [dialogue];
      } else {
        enWithNames := enWithNames + [dialogue];
      }
      assert dialogues[..d + 1] == dialogues[..d] + [dialogue];
      FilterSnoc(IsChinese, dialogues[..d], dialogue);
      FilterSnoc(IsEnglish, dialogues[..d], dialogue);
    }
    assert dialogues[..|dialogues|] == dialogues;
  }

  /**
   Every dialogue of an event lands in exactly one of the two lists, each list
   keeps the dialogues' order, and a dialogue is Chinese exactly when it holds
   a CJK ideograph.
   */
  lemma DialoguePartition(text: string)
    ensures |ChineseLines(text)| + |EnglishLines(text)| == |Dialogues(text)|
    ensures multiset(ChineseLines(text)) + multiset(EnglishLines(text)) == multiset(Dialogues(text))
    ensures Subsequence(ChineseLines(text), Dialogues(text))
    ensures Subsequence(EnglishLines(text), Dialogues(text))
    ensures forall d :: d in ChineseLines(text) <==> d in Dialogues(text) && IsChinese(d)
    ensures forall d :: d in EnglishLines(text) <==> d in Dialogues(text) && !IsChinese(d)
  {
    FilterPartition(IsChinese, IsEnglish, Dialogues(text));
    FilterIsSubsequence(IsChinese, Dialogues(text));
    FilterIsSubsequence(IsEnglish, Dialogues(text));
    FilterMembers(IsChinese, Dialogues(text));
    FilterMembers(IsEnglish, Dialogues(text));
  }

  /**
   An event holding a Chinese line and an English line, separated by one
   backslash-N, gives one line to each list.
   */
  lemma BilingualEvent(cn: string, en: string)
    requires !Contains(cn, Separator) && !Contains(en, Separator)
    requires IsChinese(cn) && !IsChinese(en)
    ensures ChineseLines(cn + Separator + en) == [cn]
    ensures EnglishLines(cn + Separator + en) == [en]
  {
    SplitAtSeparator(cn, en);
    SplitSingle(en);
    assert Dialogues(cn + Separator + en) == [cn] + [en];
    FilterSnoc(IsChinese, [cn], en);
    FilterSnoc(IsEnglish, [cn], en);
    assert [cn][..0] == [];
  }

  /** The empty text is one empty dialogue, and it is English. */
  lemma EmptyEventIsEnglish()
    ensures ChineseLines("") == [] && EnglishLines("") == [""]
  {
    assert Dialogues("") == [""];
    assert [""][..0] == [];
  }

  /** The first dialogue ends at the first separator: any text without a backslash-N is a whole dialogue. */
  lemma {:induction false} SplitAtSeparator(p: string, t: string)
    requires !Contains(p, Separator)
    ensures Split(p + Separator + t, Separator) == [p] + Split(t, Separator)
    decreases |p|
  {
    var s := p + Separator + t;
    if p == [] {
      assert s[..2] == Separator && s[2..] == t;
    } else {
      assert s[..2] != Separator by {
        if |p| >= 2 {
          assert s[..2] == p[0..2] && !OccursAt(p, Separator, 0);
        } else {
          assert s[1] == '\\' && Separator[1] == 'N';
        }
      }
      assert s[1..] == p[1..] + Separator + t;
      NoSeparatorInTail(p);
      SplitAtSeparator(p[1..], t);
      assert [p[0]] + p[1..] == p;
    }
  }

  /** A text without a backslash-N is a single dialogue. */
  lemma {:induction false} SplitSingle(b: string)
    requires !Contains(b, Separator)
    ensures Split(b, Separator) == [b]
    decreases |b|
  {
    if |b| >= |Separator| {
      assert b[..2] != Separator by { assert !OccursAt(b, Separator, 0); }
      NoSeparatorInTail(b);
      SplitSingle(b[1..]);
      assert [b[0]] + b[1..] == b;
    }
  }

  /** Dropping the first character creates no separator. */
  lemma NoSeparatorInTail(p: string)
    requires p != [] && !Contains(p, Separator)
    ensures !Contains(p[1..], Separator)
  {
    forall i | 0 <= i <= |p[1..]| - 2 ensures !OccursAt(p[1..], Separator, i) {
      assert p[1..][i..i + 2] == p[i + 1..i + 3];
      assert !OccursAt(p, Separator, i + 1);
    }
  }

  /** The position of the last `": "` in a line, if any. */
  function LastNameMark(l: string): (r: Option<nat>)
    ensures r.Some? ==> OccursAt(l, ": ", r.value) && forall j :: r.value < j ==> !OccursAt(l, ": ", j)
    ensures r.None? ==> !Contains(l, ": ")
  {
    if |l| < 2 then None
    else if l[|l| - 2..] == ": " then Some(|l| - 2)
    else
      var r := LastNameMark(l[..|l| - 1]);
      assert forall j :: OccursAt(l, ": ", j) <==> OccursAt(l[..|l| - 1], ": ", j) by {
        forall j ensures OccursAt(l, ": ", j) <==> OccursAt(l[..|l| - 1], ": ", j) {
          MarkInPrefix(l, j);
        }
      }
      r
  }

  /** Below its last two characters a line has the same `": "` marks as the line without its last character. */
  lemma MarkInPrefix(l: string, j: int)
    requires |l| >= 2 && l[|l| - 2..] != ": "
    ensures OccursAt(l, ": ", j) <==> OccursAt(l[..|l| - 1], ": ", j)
  {
    if 0 <= j <= |l| - 3 {
      assert l[..|l| - 1][j..j + 2] == l[j..j + 2];
    }
  }

  /** The greedy `(.*: )` removed from one line: everything up to and including its last `": "`. */
  function StripName(l: string): string
  {
    match LastNameMark(l)
    case None => l
    case Some(i) => l[i + 2..]
  }

  /** Nothing of the line but a suffix is kept. */
  lemma StripNameSuffix(l: string)
    ensures exists i | 0 <= i <= |l| :: StripName(l) == l[i..]
  {
    if LastNameMark(l).None? {
      assert StripName(l) == l[0..];
    }
  }

  /** A stripped line holds no further `": "`. */
  lemma StripNameLeavesNoMark(l: string)
    ensures !Contains(StripName(l), ": ")
  {
    match LastNameMark(l)
    case None =>
    case Some(i) =>
      var t := l[i + 2..];
      forall j | 0 <= j <= |t| - 2 ensures !OccursAt(t, ": ", j) {
        assert t[j..j + 2] == l[i + 2 + j..i + 2 + j + 2];
        assert !OccursAt(l, ": ", i + 2 + j);
      }
  }

  /** Stripping a name a second time changes nothing. */
  lemma StripNameIdempotent(l: string)
    ensures StripName(StripName(l)) == StripName(l)
  {
    StripNameLeavesNoMark(l);
  }

  /** `re.sub('(.*: )', '', s)`: `.` stops at a newline, so each line loses its own name. */
  function RemoveNames(s: string): string
  {
    Join(StripLines(Split(s, "\n")), "\n")
  }

  function StripLines(lines: seq<string>): (r: seq<string>)
    ensures |r| == |lines|
    ensures forall k :: 0 <= k < |r| ==> r[k] == StripName(lines[k])
  {
    seq(|lines|, k requires 0 <= k < |lines| => StripName(lines[k]))
  }

  /** `truncater` (lines 49-59): credit lines are kept whole, every other line loses its speaker name. */
  function Truncate(s: string): string
  {
    if IsCredit(s) then s else RemoveNames(s)
  }

  /** Some ignored keyword occurs in the line (`i in string`, lines 54-56). */
  predicate IsCredit(s: string)
  {
    exists k | 0 <= k < |Ignored| :: Contains(s, Ignored[k])
  }

  /** A credit line is returned unchanged. */
  lemma CreditKept(s: string, k: nat)
    requires k < |Ignored| && Contains(s, Ignored[k])
    ensures Truncate(s) == s
  {
  }

  /** On a single line that is not a credit, truncation removes everything up to the last `": "`. */
  lemma TruncateLine(s: string)
    requires '\n' !in s && !IsCredit(s)
    ensures Truncate(s) == StripName(s)
    ensures Contains(s, ": ") ==> exists i | 0 <= i <= |s| - 2 :: OccursAt(s, ": ", i) && Truncate(s) == s[i + 2..]
    ensures !Contains(s, ": ") ==> Truncate(s) == s
  {
    SplitWithoutSeparator(s, '\n');
    assert StripLines([s]) == [StripName(s)];
  }

  /** No line of the name-stripped text holds a newline or a `": "`. */
  lemma StrippedLinesClean(s: string)
    ensures forall k :: 0 <= k < |StripLines(Split(s, "\n"))| ==>
              '\n' !in StripLines(Split(s, "\n"))[k] && StripName(StripLines(Split(s, "\n"))[k]) == StripLines(Split(s, "\n"))[k]
  {
    var lines := Split(s, "\n");
    SplitFieldsLackSeparator(s, '\n');
    forall k | 0 <= k < |lines| ensures '\n' !in StripName(lines[k]) && StripName(StripName(lines[k])) == StripName(lines[k]) {
      StripNameSuffix(lines[k]);
      var i :| 0 <= i <= |lines[k]| && StripName(lines[k]) == lines[k][i..];
      assert forall c :: c in lines[k][i..] ==> c in lines[k];
      StripNameIdempotent(lines[k]);
    }
  }

  /** Removing names twice is removing them once. */
  lemma RemoveNamesIdempotent(s: string)
    ensures RemoveNames(RemoveNames(s)) == RemoveNames(s)
  {
    var stripped := StripLines(Split(s, "\n"));
    StrippedLinesClean(s);
    SplitJoin(stripped, '\n');
    assert StripLines(stripped) == stripped;
  }

  /** `truncater` is idempotent. */
  lemma TruncateIdempotent(s: string)
    ensures Truncate(Truncate(s)) == Truncate(s)
  {
    if !IsCredit(s) {
      RemoveNamesIdempotent(s);
    }
  }

  /** `EN_lines = [truncater(i) for i in ENWithNames_lines]` (line 74). */
  function TruncateAll(lines: seq<string>): (r: seq<string>)
    ensures |r| == |lines|
    ensures forall k :: 0 <= k < |r| ==> r[k] == Truncate(lines[k])
  {
    seq(|lines|, k requires 0 <= k < |lines| => Truncate(lines[k]))
  }

  /** The four outputs the script can write (lines 26-37). */
  datatype Variant = Cn | CnEn | EnWithNames | En

  /** The content lines each variant writes for an event (lines 76-88). */
  function Content(v: Variant, cn: seq<string>, enWithNames: seq<string>): seq<string>
  {
    match v
    case Cn => cn
    case CnEn => cn + TruncateAll(enWithNames)
    case EnWithNames => enWithNames
    case En => TruncateAll(enWithNames)
  }

  /** A loaded event: start and end in milliseconds and its text. */
  datatype Event = Event(start: int, end: int, text: string)

  /** One event in one variant, numbered i + 1. */
  function ReleaseBlock(v: Variant, events: seq<Event>, stamp: int -> string, i: nat): seq<string>
    requires i < |events|
  {
    BlockLines(IntToString(i + 1), stamp(events[i].start), stamp(events[i].end),
               Content(v, ChineseLines(events[i].text), EnglishLines(events[i].text)))
  }

  /** The lines of the first n events in one variant. */
  function ReleaseLines(v: Variant, events: seq<Event>, stamp: int -> string, n: nat): seq<string>
    requires n <= |events|
  {
    if n == 0 then [] else ReleaseLines(v, events, stamp, n - 1) + ReleaseBlock(v, events, stamp, n - 1)
  }

  /**
   Every variant writes the same event with the same number and timing; the
   bilingual one carries the Chinese lines followed by the name-stripped
   English lines, and the variants only differ in their content lines.
   */
  lemma VariantsAgree(events: seq<Event>, stamp: int -> string, i: nat, v: Variant, w: Variant)
    requires i < |events|
    ensures ReleaseBlock(v, events, stamp, i)[..2] == ReleaseBlock(w, events, stamp, i)[..2]
            == [IntToString(i + 1), stamp(events[i].start) + " --> " + stamp(events[i].end)]
    ensures ReleaseBlock(CnEn, events, stamp, i)[2..|ReleaseBlock(CnEn, events, stamp, i)| - 1]
            == ChineseLines(events[i].text) + TruncateAll(EnglishLines(events[i].text))
  {
    var b := ReleaseBlock(CnEn, events, stamp, i);
    assert b[2..|b| - 1] == Content(CnEn, ChineseLines(events[i].text), EnglishLines(events[i].text));
  }

  /** `writer(sub, str(i + 1), start, end, lines)` for one variant, skipped when it was not requested (`NameError`). */
  method WriteVariant(sub: SubtitleFile?, v: Variant, events: seq<Event>, stamp: int -> string, i: nat,
                      cn: seq<string>, enWithNames: seq<string>)
    requires i < |events| && cn == ChineseLines(events[i].text) && enWithNames == EnglishLines(events[i].text)
    requires sub != null ==> sub.text == Terminated(ReleaseLines(v, events, stamp, i))
    modifies sub
    ensures sub != null ==> sub.text == Terminated(ReleaseLines(v, events, stamp, i + 1))
  {
    if sub != null {
      ghost var before := sub.text;
      var content := Content(v, cn, enWithNames);
      Writer(sub, IntToString(i + 1), stamp(events[i].start), stamp(events[i].end), content);
      ReleaseStep(v, events, stamp, i, before, sub.text);
    }
  }

  lemma ReleaseStep(v: Variant, events: seq<Event>, stamp: int -> string, i: nat, before: string, after: string)
    requires i < |events|
    requires before == Terminated(ReleaseLines(v, events, stamp, i))
    requires after == before + EventBlock(IntToString(i + 1), stamp(events[i].start), stamp(events[i].end),
                                          Content(v, ChineseLines(events[i].text), EnglishLines(events[i].text)))
    ensures after == Terminated(ReleaseLines(v, events, stamp, i + 1))
  {
    TerminatedAppend(ReleaseLines(v, events, stamp, i), ReleaseBlock(v, events, stamp, i));
  }

  /** The output files are different files. */
  predicate Distinct(a: SubtitleFile?, b: SubtitleFile?, c: SubtitleFile?, d: SubtitleFile?)
  {
    && (a != null ==> a != b && a != c && a != d)
    && (b != null ==> b != c && b != d)
    && (c != null ==> c != d)
  }

  /**
   The event loop of lines 61-90 writing to the freshly created output files;
   a `null` file is a variant that was not requested.
   */
  method Release(events: seq<Event>, stamp: int -> string,
                 cnSub: SubtitleFile?, cnEnSub: SubtitleFile?, enWithNamesSub: SubtitleFile?, enSub: SubtitleFile?)
    requires Distinct(cnSub, cnEnSub, enWithNamesSub, enSub)
    requires cnSub != null ==> cnSub.text == []
    requires cnEnSub != null ==> cnEnSub.text == []
    requires enWithNamesSub != null ==> enWithNamesSub.text == []
    requires enSub != null ==> enSub.text == []
    modifies cnSub, cnEnSub, enWithNamesSub, enSub
    ensures cnSub != null ==> cnSub.text == Terminated(ReleaseLines(Cn, events, stamp, |events|))
    ensures cnEnSub != null ==> cnEnSub.text == Terminated(ReleaseLines(CnEn, events, stamp, |events|))
    ensures enWithNamesSub != null ==> enWithNamesSub.text == Terminated(ReleaseLines(EnWithNames, events, stamp, |events|))
    ensures enSub != null ==> enSub.text == Terminated(ReleaseLines(En, events, stamp, |events|))
  {
    for i := 0 to |events|
      invariant cnSub != null ==> cnSub.text == Terminated(ReleaseLines(Cn, events, stamp, i))
      invariant cnEnSub != null ==> cnEnSub.text == Terminated(ReleaseLines(CnEn, events, stamp, i))
      invariant enWithNamesSub != null ==> enWithNamesSub.text == Terminated(ReleaseLines(EnWithNames, events, stamp, i))
      invariant enSub != null ==> enSub.text == Terminated(ReleaseLines(En, events, stamp, i))
    {
      var cn, enWithNames := SplitDialogues(events[i].text);
      WriteVariant(cnSub, Cn, events, stamp, i, cn, enWithNames);
      WriteVariant(cnEnSub, CnEn, events, stamp, i, cn, enWithNames);
      WriteVariant(enWithNamesSub, EnWithNames, events, stamp, i, cn, enWithNames);
      WriteVariant(enSub, En, events, stamp, i, cn, enWithNames);
    }
  }
}
