/**
 `text_area_test` of auto-transcription.py: validates the text-area argument,
 which is either `"Default"` or a comma-separated box of integers whose first,
 second and fourth fields are compared.
 */
module TextArea {
  import opened Optional
  import opened Strings
  import opened PyInt

  /** The three values the Python function can return. */
  datatype PyValue = PyTrue | PyFalse | PyNone

  /** The caller refuses the argument unless the result is truthy (auto-transcription.py:75). */
  predicate Accepted(r: PyValue)
  {
    r == PyTrue
  }

  function TextAreaTest(textArea: string): (r: PyValue)
    ensures textArea == "Default" ==> r == PyTrue
    // A field that is not an integer (ValueError) or fewer than four fields
    // (IndexError) are caught by the bare `except` and give False.
    ensures r == PyFalse <==>
              textArea != "Default" &&
              (ParseInts(Split(textArea, ",")).None? || |Split(textArea, ",")| < 4)
    // Otherwise the box is accepted iff c[3] > c[1] and c[0] > c[1]; if not, the
    // function falls off its end and returns None.
    ensures textArea != "Default" && ParseInts(Split(textArea, ",")).Some? && |Split(textArea, ",")| >= 4 ==>
              var c := ParseInts(Split(textArea, ",")).value;
              r == (if c[3] > c[1] && c[0] > c[1] then PyTrue else PyNone)
  {
    if textArea == "Default" then PyTrue
    else
      match ParseInts(Split(textArea, ","))
      case None => PyFalse
      case Some(coordinates) =>
        if |coordinates| < 4 then PyFalse
        else if coordinates[3] > coordinates[1] && coordinates[0] > coordinates[1] then PyTrue
        else PyNone
  }

  /**
   The caller (auto-transcription.py:75) goes on only when the result is
   truthy: "Default", or four integer fields with c[3] > c[1] and c[0] > c[1].
   The None of a failed comparison is a refusal like False.
   */
  lemma CallerVerdict(textArea: string)
    ensures Accepted(TextAreaTest(textArea)) <==>
              textArea == "Default" ||
              (ParseInts(Split(textArea, ",")).Some? && |Split(textArea, ",")| >= 4 &&
               var c := ParseInts(Split(textArea, ",")).value;
               c[3] > c[1] && c[0] > c[1])
  {
  }

  /**
   A box written as comma-separated integers: fewer than four fields are
   refused, otherwise only c[0], c[1] and c[3] decide.
   */
  lemma RenderedBox(cs: seq<int>)
    ensures TextAreaTest(Join(RenderAll(cs), ",")) ==
              if |cs| < 4 then PyFalse
              else if cs[3] > cs[1] && cs[0] > cs[1] then PyTrue
              else PyNone
  {
    if cs == [] {
      EmptyArea();
    } else {
      SplitRendered(cs, ',');
      RenderedIsNotDefault(cs);
      DecidedByFields(Join(RenderAll(cs), ","), cs);
    }
  }

  lemma EmptyArea()
    ensures TextAreaTest("") == PyFalse
  {
    assert Split("", ",") == [[]];
    assert ParseInt([]) == None;
  }

  lemma RenderedIsNotDefault(cs: seq<int>)
    requires cs != []
    ensures Join(RenderAll(cs), ",") != "Default"
  {
    var parts := RenderAll(cs);
    var text := Join(parts, ",");
    if |parts| == 1 {
      assert text == parts[0];
    } else {
      assert text == parts[0] + "," + Join(parts[1..], ",");
    }
    assert text[0] == parts[0][0];
  }

  lemma DecidedByFields(text: string, cs: seq<int>)
    requires text != "Default" && ParseInts(Split(text, ",")) == Some(cs)
    ensures TextAreaTest(text) ==
              if |cs| < 4 then PyFalse
              else if cs[3] > cs[1] && cs[0] > cs[1] then PyTrue
              else PyNone
  {
  }

  /** Fields after the fourth never change the verdict. */
  lemma ExtraFieldsIgnored(box: seq<int>, extra: seq<int>)
    requires |box| == 4
    ensures TextAreaTest(Join(RenderAll(box + extra), ",")) == TextAreaTest(Join(RenderAll(box), ","))
  {
    RenderedBox(box + extra);
    RenderedBox(box);
  }
}
