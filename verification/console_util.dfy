/** `ConsoleUtil.CenterText`: left padding that centres a title in a console
    line of a given width. Colours, window width and the logo are outside the
    model. */
module ConsoleUtil {

  import opened Text

  /** The text, preceded by as many spaces as centre it: half the free room,
      rounded down. Empty text stays empty; text at least as wide as the line
      (any text, when the width is zero or negative) is returned as is. */
  function CenterText(text: string, width: int): (r: string)
    ensures text == [] ==> r == []
    ensures |text| >= width ==> r == text
    ensures |r| >= |text| && r[|r| - |text|..] == text
    ensures forall i :: 0 <= i < |r| - |text| ==> r[i] == ' '
    ensures text != [] && |text| < width ==>
              var left := |r| - |text|;
              && |r| <= width
              && 2 * left <= width - |text| < 2 * left + 2
  {
    if text == [] then []
    else if |text| >= width then text
    else
      var left := (width - |text|) / 2;
      Spaces(left) + text
  }

  /** The contract pins the result down: a string that ends with the text,
      is padded with spaces before it, and leaves at most one more column of
      room on the right than on the left is the centred line. */
  lemma CenterTextUnique(text: string, width: int, r: string)
    requires text != [] && |text| < width
    requires |r| >= |text| && r[|r| - |text|..] == text
    requires forall i :: 0 <= i < |r| - |text| ==> r[i] == ' '
    requires var left := |r| - |text|; 2 * left <= width - |text| < 2 * left + 2
    ensures r == CenterText(text, width)
  {
    var c := CenterText(text, width);
    assert |c| == |r|;
    forall i | 0 <= i < |r|
      ensures r[i] == c[i]
    {
      if i >= |r| - |text| {
        assert r[i] == r[|r| - |text|..][i - (|r| - |text|)];
        assert c[i] == c[|c| - |text|..][i - (|c| - |text|)];
      }
    }
  }
}
