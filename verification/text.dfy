/** The three string operations the message handlers rely on: Python's
    `str.split(sep)`, `str.strip()` and the decimal rendering of a
    non-negative integer in an f-string. */
module Text {
  import opened Framing

  /** `s.split(sep)`: the pieces between separators. The receive loop cuts a
      buffer at every delimiter and keeps the tail; splitting a string is the
      same cut applied to the string with one separator appended, so every
      piece, the last included, becomes a frame. */
  function Fields(s: string, sep: char): (parts: seq<string>)
    ensures |parts| == Count(s, sep) + 1
    ensures DelimFree(parts, sep)
    ensures Unsplit(parts, sep) == s
  {
    SplitTerminated(s, sep);
    SplitFrames(s + [sep], sep).frames
  }

  /** Splitting `s` with one separator appended: nothing is left over, and
      the frames are one more than the separators in `s` and re-join to `s`. */
  lemma SplitTerminated(s: string, sep: char)
    ensures var r := SplitFrames(s + [sep], sep);
      && r.rest == [] && |r.frames| == Count(s, sep) + 1
      && Unsplit(r.frames, sep) == s
  {
    var r := SplitFrames(s + [sep], sep);
    LastIsSeparator(s, sep, r.frames, r.rest);
    assert |r.frames| == Count(s, sep) + 1 by {
      FramesMatchDelimiters(s + [sep], sep);
      CountAppend(s, [sep], sep);
      assert Count([sep], sep) == 1;
    }
    assert Unsplit(r.frames, sep) == s by {
      JoinIsUnsplit(r.frames, sep);
      PrefixCancel(Unsplit(r.frames, sep), s, sep);
    }
  }

  lemma PrefixCancel(a: string, b: string, c: char)
    requires a + [c] == b + [c]
    ensures a == b
  {
    assert a == (a + [c])[..|a|];
    assert b == (b + [c])[..|b|];
  }

  /** `sep.join(parts)` for a non-empty list of parts. */
  function Unsplit(parts: seq<string>, sep: char): string
    requires |parts| > 0
  {
    if |parts| == 1 then parts[0] else parts[0] + [sep] + Unsplit(parts[1..], sep)
  }

  /** A buffer ending in the separator splits with nothing left over. */
  lemma LastIsSeparator(s: string, sep: char, frames: seq<string>, rest: string)
    requires sep !in rest
    requires Join(frames, sep) + rest == s + [sep]
    ensures rest == []
    ensures |frames| > 0
  {
    var buf := Join(frames, sep) + rest;
    var j := |Join(frames, sep)|;
    assert rest == buf[j..];
    var last, tail := buf[|buf| - 1], buf[j..];
    assert last == sep;
    assert j < |buf| ==> last in tail;
    assert |frames| == 0 ==> Join(frames, sep) == [];
  }

  lemma {:induction false} JoinIsUnsplit(parts: seq<string>, sep: char)
    requires |parts| > 0
    ensures Join(parts, sep) == Unsplit(parts, sep) + [sep]
    decreases |parts|
  {
    if |parts| == 1 {
      assert parts[1..] == [];
    } else {
      JoinIsUnsplit(parts[1..], sep);
    }
  }

  /** `sep.join` followed by `split(sep)` gives the parts back when no part
      contains the separator. */
  lemma FieldsOfUnsplit(parts: seq<string>, sep: char)
    requires |parts| > 0
    requires DelimFree(parts, sep)
    ensures Fields(Unsplit(parts, sep), sep) == parts
  {
    JoinIsUnsplit(parts, sep);
    DecodeEncoded(parts, sep);
  }

  /** Three-field strings, the shape of a price message. */
  lemma FieldsOfThree(a: string, b: string, c: string, sep: char)
    requires sep !in a && sep !in b && sep !in c
    ensures Fields(a + [sep] + b + [sep] + c, sep) == [a, b, c]
  {
    var parts := [a, b, c];
    assert parts[1..] == [b, c] && parts[1..][1..] == [c];
    assert Unsplit(parts[1..], sep) == b + [sep] + c;
    assert Unsplit(parts, sep) == a + [sep] + b + [sep] + c;
    FieldsOfUnsplit(parts, sep);
  }

  /** Two-field strings, the shape of a news message. */
  lemma FieldsOfTwo(a: string, b: string, sep: char)
    requires sep !in a && sep !in b
    ensures Fields(a + [sep] + b, sep) == [a, b]
  {
    var parts := [a, b];
    assert parts[1..] == [b];
    assert Unsplit(parts, sep) == a + [sep] + b;
    FieldsOfUnsplit(parts, sep);
  }

  /** Python's `str.isspace` for one character: the Unicode white-space
      characters. */
  predicate IsSpace(c: char)
  {
    || '\t' <= c <= '\r'
    || '\U{001C}' <= c <= ' '
    || c == '\U{0085}' || c == '\U{00A0}' || c == '\U{1680}'
    || '\U{2000}' <= c <= '\U{200A}'
    || c == '\U{2028}' || c == '\U{2029}' || c == '\U{202F}'
    || c == '\U{205F}' || c == '\U{3000}'
  }

  ghost predicate AllSpace(s: string)
  {
    forall i :: 0 <= i < |s| ==> IsSpace(s[i])
  }

  /** Neither end of `s` is white space. */
  predicate Trimmed(s: string)
  {
    |s| == 0 || (!IsSpace(s[0]) && !IsSpace(s[|s| - 1]))
  }

  /** `s.lstrip()`: `s` without its leading white space. */
  function StripLeft(s: string): (r: string)
    ensures |r| <= |s|
    ensures |r| == 0 || !IsSpace(r[0])
  {
    if |s| > 0 && IsSpace(s[0]) then StripLeft(s[1..]) else s
  }

  /** `s.rstrip()`: `s` without its trailing white space. */
  function StripRight(s: string): (r: string)
    ensures |r| <= |s|
    ensures |r| == 0 || !IsSpace(r[|r| - 1])
  {
    if |s| > 0 && IsSpace(s[|s| - 1]) then StripRight(s[..|s| - 1]) else s
  }

  /** What `lstrip` removes is white space, and it removes only a prefix. */
  lemma {:induction false} StripLeftSuffix(s: string)
    ensures StripLeft(s) == s[|s| - |StripLeft(s)|..]
    ensures AllSpace(s[..|s| - |StripLeft(s)|])
    decreases |s|
  {
    if |s| > 0 && IsSpace(s[0]) {
      var r := StripLeft(s[1..]);
      StripLeftSuffix(s[1..]);
      assert s[..|s| - |r|] == [s[0]] + s[1..][..|s| - 1 - |r|];
    }
  }

  /** What `rstrip` removes is white space, and it removes only a suffix. */
  lemma {:induction false} StripRightPrefix(s: string)
    ensures StripRight(s) == s[..|StripRight(s)|]
    ensures AllSpace(s[|StripRight(s)|..])
    decreases |s|
  {
    if |s| > 0 && IsSpace(s[|s| - 1]) {
      var r := StripRight(s[..|s| - 1]);
      StripRightPrefix(s[..|s| - 1]);
      assert s[|r|..] == s[..|s| - 1][|r|..] + [s[|s| - 1]];
    }
  }

  /** `s.strip()`: `s` without white space at either end. */
  function Strip(s: string): (r: string)
    ensures Trimmed(r)
    ensures |r| <= |s|
  {
    StripRightPrefix(StripLeft(s));
    StripRight(StripLeft(s))
  }

  /** Stripping keeps every non-space character in place: `s` is white
      space, then the stripped text, then white space. */
  lemma StripInfix(s: string)
    ensures exists i :: (0 <= i <= |s| - |Strip(s)|
      && s[i..i + |Strip(s)|] == Strip(s)
      && AllSpace(s[..i]) && AllSpace(s[i + |Strip(s)|..]))
  {
    var l := StripLeft(s);
    var r := Strip(s);
    var i := |s| - |l|;
    StripLeftSuffix(s);
    StripRightPrefix(l);
    assert s[i..i + |r|] == l[..|r|];
    assert s[i + |r|..] == l[|r|..];
  }

  /** A string that is already trimmed is unchanged by `strip`. */
  lemma StripTrimmed(s: string)
    requires Trimmed(s)
    ensures Strip(s) == s
  {
  }

  /** `strip` is idempotent. */
  lemma StripIdempotent(s: string)
    ensures Strip(Strip(s)) == Strip(s)
  {
    StripTrimmed(Strip(s));
  }

  function DigitChar(n: nat): (c: char)
    requires n < 10
  {
    ['0', '1', '2', '3', '4', '5', '6', '7', '8', '9'][n]
  }

  predicate IsDigit(c: char)
  {
    '0' <= c <= '9'
  }

  /** The value of a string of decimal digits; the empty string reads as 0. */
  function DigitsValue(s: string): nat
    requires forall i :: 0 <= i < |s| ==> IsDigit(s[i])
  {
    if |s| == 0 then 0
    else
      var c := s[|s| - 1];
      assert IsDigit(c);
      10 * DigitsValue(s[..|s| - 1]) + ((c as int) - ('0' as int))
  }

  /** `f"{n}"` for a non-negative integer: decimal digits, no leading zero,
      and 0 written as the single digit `0`. */
  function Decimal(n: nat): (r: string)
    ensures |r| > 0
    ensures forall i :: 0 <= i < |r| ==> IsDigit(r[i])
    ensures r[0] == '0' ==> r == "0"
    ensures DigitsValue(r) == n
  {
    if n < 10 then
      assert DigitsValue([DigitChar(n)][..0]) == 0;
      [DigitChar(n)]
    else
      var r := Decimal(n / 10) + [DigitChar(n % 10)];
      assert r[..|r| - 1] == Decimal(n / 10);
      assert r[0] == Decimal(n / 10)[0] && Decimal(n / 10) != "0";
      r
  }
}
