/** The string primitives of the two runtimes: whitespace, `trim`, `split` on one character and `join`. */
module Text {

  /** ECMAScript WhiteSpace and LineTerminator, the characters `String.prototype.trim` removes. */
  predicate IsSpace(c: char) {
    || c == ' ' || '\t' <= c <= '\r' || c == '\U{00A0}' || c == '\U{1680}'
    || '\U{2000}' <= c <= '\U{200A}' || c == '\U{2028}' || c == '\U{2029}'
    || c == '\U{202F}' || c == '\U{205F}' || c == '\U{3000}' || c == '\U{FEFF}'
  }

  function TrimStart(s: string): string {
    if s != "" && IsSpace(s[0]) then TrimStart(s[1..]) else s
  }

  function TrimEnd(s: string): string {
    if s != "" && IsSpace(s[|s| - 1]) then TrimEnd(s[..|s| - 1]) else s
  }

  function Trim(s: string): string {
    TrimEnd(TrimStart(s))
  }

  predicate Blank(s: string) {
    forall i | 0 <= i < |s| :: IsSpace(s[i])
  }

  predicate Trimmed(s: string) {
    s != [] ==> !IsSpace(s[0]) && !IsSpace(s[|s| - 1])
  }

  function Split(s: string, c: char): (parts: seq<string>)
    ensures parts != []
  {
    if s == [] then [""]
    else
      var rest := Split(s[1..], c);
      if s[0] == c then [""] + rest else [[s[0]] + rest[0]] + rest[1..]
  }

  function Join(parts: seq<string>, sep: string): string {
    if parts == [] then ""
    else if |parts| == 1 then parts[0]
    else parts[0] + sep + Join(parts[1..], sep)
  }

  lemma {:induction false} StartSplits(s: string) returns (a: string)
    ensures Blank(a) && s == a + TrimStart(s)
    ensures TrimStart(s) != "" ==> !IsSpace(TrimStart(s)[0])
  {
    a := "";
    if s != "" && IsSpace(s[0]) {
      a := StartSplits(s[1..]);
      a := [s[0]] + a;
      assert s == [s[0]] + s[1..];
    }
  }

  lemma {:induction false} EndSplits(s: string) returns (b: string)
    ensures Blank(b) && s == TrimEnd(s) + b
    ensures TrimEnd(s) != "" ==> !IsSpace(TrimEnd(s)[|TrimEnd(s)| - 1]) && TrimEnd(s)[0] == s[0]
  {
    b := "";
    if s != "" && IsSpace(s[|s| - 1]) {
      var n := |s| - 1;
      b := EndSplits(s[..n]);
      b := b + [s[n]];
      assert s == s[..n] + [s[n]];
    }
  }

  /** `trim` takes whitespace off both ends, and all of it. */
  lemma {:induction false} TrimSplits(s: string) returns (a: string, b: string)
    ensures Blank(a) && Blank(b) && s == a + (Trim(s) + b) && Trimmed(Trim(s))
  {
    a := StartSplits(s);
    b := EndSplits(TrimStart(s));
  }

  lemma {:induction false} BlankParts(a: string, middle: string, b: string)
    requires Blank(a) && Blank(b) && Trimmed(middle)
    ensures Blank(a + (middle + b)) <==> middle == ""
    ensures forall i | 0 <= i < |middle| :: middle[i] in a + (middle + b)
  {
    var s := a + (middle + b);
    assert forall i | 0 <= i < |middle| :: s[|a| + i] == middle[i];
  }

  /** `trim` yields a trimmed string and empties exactly the blank ones. */
  lemma {:induction false} TrimResult(s: string)
    ensures Trimmed(Trim(s))
    ensures Trim(s) == "" <==> Blank(s)
    ensures forall i | 0 <= i < |Trim(s)| :: Trim(s)[i] in s
  {
    var a, b := TrimSplits(s);
    BlankParts(a, Trim(s), b);
  }

  lemma {:induction false} TrimmedIsFixed(s: string)
    requires Trimmed(s)
    ensures Trim(s) == s
  {
  }

  lemma {:induction false} SplitParts(s: string, c: char)
    ensures forall i | 0 <= i < |Split(s, c)| :: c !in Split(s, c)[i]
    ensures Join(Split(s, c), [c]) == s
  {
    if s == [] {
    } else {
      SplitParts(s[1..], c);
      var rest := Split(s[1..], c);
      assert s == [s[0]] + s[1..];
      if s[0] == c {
        assert Split(s, c)[1..] == rest;
      } else if |rest| > 1 {
        assert Split(s, c)[1..] == rest[1..];
      }
    }
  }

  lemma {:induction false} SplitPrefix(a: string, c: char, s: string)
    requires c !in a
    ensures Split(a + s, c) == [a + Split(s, c)[0]] + Split(s, c)[1..]
  {
    if a == [] {
      assert a + s == s && a + Split(s, c)[0] == Split(s, c)[0];
    } else {
      assert (a + s)[1..] == a[1..] + s;
      SplitPrefix(a[1..], c, s);
      assert [a[0]] + (a[1..] + Split(s, c)[0]) == a + Split(s, c)[0];
    }
  }

  lemma {:induction false} SplitJoin(parts: seq<string>, c: char)
    requires parts != [] && forall i | 0 <= i < |parts| :: c !in parts[i]
    ensures Split(Join(parts, [c]), c) == parts
  {
    if |parts| == 1 {
      SplitPrefix(parts[0], c, "");
      assert parts[0] + "" == parts[0];
    } else {
      SplitJoin(parts[1..], c);
      var rest := Join(parts[1..], [c]);
      var s := [c] + rest;
      assert s[1..] == rest;
      assert Split(s, c) == [""] + Split(rest, c);
      SplitPrefix(parts[0], c, s);
      assert parts[0] + [c] + rest == parts[0] + s;
      assert parts[0] + "" == parts[0];
    }
  }

  lemma {:induction false} JoinAppend(a: seq<string>, b: seq<string>, sep: string)
    requires a != [] && b != []
    ensures Join(a + b, sep) == Join(a, sep) + sep + Join(b, sep)
  {
    assert (a + b)[1..] == a[1..] + b;
    if |a| == 1 {
      assert a[1..] + b == b;
    } else {
      JoinAppend(a[1..], b, sep);
    }
  }
}
