/** The visible characters of a text, those that are not whitespace. */
module VisibleText {
  import Text

  function Ink(s: string): string {
    if s == "" then "" else (if Text.IsSpace(s[0]) then [] else [s[0]]) + Ink(s[1..])
  }

  lemma {:induction false} InkAppend(a: string, b: string)
    ensures Ink(a + b) == Ink(a) + Ink(b)
  {
    if a == "" {
      assert a + b == b;
    } else {
      assert (a + b)[1..] == a[1..] + b;
      InkAppend(a[1..], b);
    }
  }

  lemma {:induction false} BlankHasNoInk(s: string)
    requires Text.Blank(s)
    ensures Ink(s) == ""
  {
    if s != "" {
      BlankHasNoInk(s[1..]);
    }
  }

  lemma {:induction false} BlankEndsHaveNoInk(a: string, middle: string, b: string)
    requires Text.Blank(a) && Text.Blank(b)
    ensures Ink(a + (middle + b)) == Ink(middle)
  {
    InkAppend(a, middle + b);
    InkAppend(middle, b);
    BlankHasNoInk(a);
    BlankHasNoInk(b);
  }

  lemma {:induction false} TrimKeepsInk(s: string)
    ensures Ink(Text.Trim(s)) == Ink(s)
  {
    var a, b := Text.TrimSplits(s);
    BlankEndsHaveNoInk(a, Text.Trim(s), b);
  }

  /** The visible characters of a list of texts, one after the other. */
  function AllInk(texts: seq<string>): string {
    if texts == [] then "" else AllInk(texts[..|texts| - 1]) + Ink(texts[|texts| - 1])
  }

  lemma {:induction false} AllInkSnoc(texts: seq<string>, last: string)
    ensures AllInk(texts + [last]) == AllInk(texts) + Ink(last)
  {
    assert (texts + [last])[..|texts|] == texts;
  }

  /** Joining with whitespace adds nothing visible. */
  lemma {:induction false} JoinKeepsInk(texts: seq<string>, separator: string)
    requires Text.Blank(separator)
    ensures Ink(Text.Join(texts, separator)) == AllInk(texts)
  {
    if texts != [] {
      var n := |texts| - 1;
      var front, last := texts[..n], texts[n];
      assert texts == front + [last];
      AllInkSnoc(front, last);
      if front == [] {
        assert texts == [last] && AllInk(front) == "";
      } else {
        JoinKeepsInk(front, separator);
        Text.JoinAppend(front, [last], separator);
        InkAppend(Text.Join(front, separator) + separator, last);
        InkAppend(Text.Join(front, separator), separator);
        BlankHasNoInk(separator);
      }
    }
  }
}
