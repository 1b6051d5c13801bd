/**
 * The extraction window of `get_text_ocr`: of the texts the OCR engine
 * recognised on one screenshot, keep those after the first "ACTION" header
 * up to and including the last "Select" button, joined by newlines.
 *
 * The OCR engine itself is not modelled: its result arrives as a parameter,
 * `None` standing for a failed recognition.
 */
module Window {
  import opened Wrappers
  import opened Text

  const StartMarker: string := "ACTION"
  const EndMarker: string := "Select"

  /** The index of the first `x` in `texts`, or |texts| when there is none. */
  function FirstIndex(texts: seq<string>, x: string): (i: nat)
    ensures i <= |texts| && x !in texts[..i]
    ensures i < |texts| <==> x in texts
    ensures i < |texts| ==> texts[i] == x
  {
    if texts == [] then 0
    else if texts[0] == x then 0
    else
      assert texts[1..][..FirstIndex(texts[1..], x)] == texts[1..1 + FirstIndex(texts[1..], x)];
      1 + FirstIndex(texts[1..], x)
  }

  /** One past the index of the last `x` in `texts`, or 0 when there is none. */
  function EndAfterLast(texts: seq<string>, x: string): (e: nat)
    ensures e <= |texts| && x !in texts[e..]
    ensures e > 0 <==> x in texts
    ensures e > 0 ==> texts[e - 1] == x
  {
    if texts == [] then 0
    else if texts[|texts| - 1] == x then |texts|
    else
      var init := texts[..|texts| - 1];
      assert texts == init + [texts[|texts| - 1]];
      EndAfterLast(init, x)
  }

  /** Where the window starts: right after the first "ACTION", else at 0. */
  function WindowStart(texts: seq<string>): nat {
    var i := FirstIndex(texts, StartMarker);
    if i < |texts| then i + 1 else 0
  }

  /** Where the window ends: right after the last "Select" (kept), else at the end. */
  function WindowEnd(texts: seq<string>): nat {
    var e := EndAfterLast(texts, EndMarker);
    if e > 0 then e else |texts|
  }

  /** Python's slice `s[lo:hi]` for bounds within the sequence: empty when lo >= hi. */
  function Slice<T>(s: seq<T>, lo: nat, hi: nat): seq<T>
    requires lo <= |s| && hi <= |s|
  {
    if lo < hi then s[lo..hi] else []
  }

  /** `data[start:end]` */
  function Window(texts: seq<string>): seq<string> {
    Slice(texts, WindowStart(texts), WindowEnd(texts))
  }

  /**
   * The two scans of `get_text_ocr`: forward to the first "ACTION", backward
   * to the last "Select", each stopping at its first hit.
   */
  method FindBounds(texts: seq<string>) returns (start: nat, end: nat)
    ensures start == WindowStart(texts) && end == WindowEnd(texts)
  {
    start, end := 0, |texts|;
    var k := 0;
    while k < |texts|
      invariant k <= |texts|
      invariant StartMarker !in texts[..k]
      invariant start == 0
    {
      if texts[k] == StartMarker {
        start := k + 1;
        break;
      }
      assert texts[..k + 1] == texts[..k] + [texts[k]];
      k := k + 1;
    }
    FirstIndexUnique(texts, StartMarker, k);
    k := 0;
    while k < |texts|
      invariant k <= |texts|
      invariant EndMarker !in texts[|texts| - k..]
      invariant end == |texts|
    {
      if texts[|texts| - 1 - k] == EndMarker {
        end := |texts| - k;
        break;
      }
      assert texts[|texts| - (k + 1)..] == [texts[|texts| - 1 - k]] + texts[|texts| - k..];
      k := k + 1;
    }
    EndAfterLastUnique(texts, EndMarker, |texts| - k);
  }

  lemma FirstIndexUnique(texts: seq<string>, x: string, i: nat)
    requires i <= |texts| && x !in texts[..i] && (i < |texts| ==> texts[i] == x)
    ensures FirstIndex(texts, x) == i
  {
  }

  lemma EndAfterLastUnique(texts: seq<string>, x: string, e: nat)
    requires e <= |texts| && x !in texts[e..] && (e > 0 ==> texts[e - 1] == x)
    requires e == 0 ==> x !in texts
    ensures EndAfterLast(texts, x) == e
  {
  }

  /**
   * `get_text_ocr` after recognition: the window's texts joined by newlines,
   * and "" when recognition failed (the `except` branch).
   */
  method GetTextOcr(recognised: Option<seq<string>>) returns (text: string)
    ensures recognised.None? ==> text == ""
    ensures recognised.Some? ==> text == Join("\n", Window(recognised.value))
  {
    text := "";
    if recognised.Some? {
      var data := recognised.value;
      var start, end := FindBounds(data);
      text := Join("\n", Slice(data, start, end));
    }
  }

  // ---------------------------------------------------------------------------
  // Properties of the window

  /** The start is one past the first "ACTION", or 0 when there is none. */
  lemma WindowStartSpec(texts: seq<string>)
    ensures StartMarker !in texts ==> WindowStart(texts) == 0
    ensures StartMarker in texts ==>
      var s := WindowStart(texts);
      0 < s <= |texts| && texts[s - 1] == StartMarker && StartMarker !in texts[..s - 1]
  {
  }

  /** The end is one past the last "Select", which the window keeps, or |texts| when there is none. */
  lemma WindowEndSpec(texts: seq<string>)
    ensures EndMarker !in texts ==> WindowEnd(texts) == |texts|
    ensures EndMarker in texts ==>
      var e := WindowEnd(texts);
      0 < e <= |texts| && texts[e - 1] == EndMarker && EndMarker !in texts[e..]
  {
  }

  /** Without either marker the window is all the texts. */
  lemma NoMarkersWholeWindow(texts: seq<string>)
    requires StartMarker !in texts && EndMarker !in texts
    ensures Window(texts) == texts
  {
    assert texts[0..|texts|] == texts;
  }

  /** When the start is not before the end, the window is empty. */
  lemma CrossedMarkersEmptyWindow(texts: seq<string>)
    requires WindowStart(texts) >= WindowEnd(texts)
    ensures Window(texts) == []
  {
  }

  /**
   * With exactly one "ACTION" at a and one "Select" at b > a, the window is
   * texts[a + 1..b + 1]: the "Select" fragment is part of it.
   */
  lemma {:induction false} WindowBetweenMarkers(texts: seq<string>, a: nat, b: nat)
    requires a < b < |texts|
    requires texts[a] == StartMarker && texts[b] == EndMarker
    requires forall i :: 0 <= i < |texts| && i != a ==> texts[i] != StartMarker
    requires forall i :: 0 <= i < |texts| && i != b ==> texts[i] != EndMarker
    ensures Window(texts) == texts[a + 1..b + 1]
    ensures Window(texts)[|Window(texts)| - 1] == EndMarker
  {
    FirstIndexUnique(texts, StartMarker, a);
    EndAfterLastUnique(texts, EndMarker, b + 1);
  }

  /** The window's lines are recovered from the joined text when no text holds a newline. */
  lemma WindowTextSplitsBack(texts: seq<string>)
    requires Window(texts) != []
    requires forall i :: 0 <= i < |texts| ==> '\n' !in texts[i]
    ensures SplitLines(Join("\n", Window(texts))) == Window(texts)
  {
    var w := Window(texts);
    assert forall i :: 0 <= i < |w| ==> w[i] == texts[WindowStart(texts) + i];
    SplitJoinedLines(w);
  }
}
