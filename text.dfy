/** The two Python string methods the game applies to user input and to
    trivia answers: `str.strip()` and `str.lower()`. */
module Text {

  /** Python's `str.isspace()` for one character: the characters whose
      bidirectional type is WS, B or S, or whose category is Zs. */
  predicate IsSpace(c: char)
  {
    ('\t' <= c <= '\r') || ('\U{1C}' <= c <= ' ') || c == '\U{85}' || c == '\U{A0}'
    || c == '\U{1680}' || ('\U{2000}' <= c <= '\U{200A}') || c == '\U{2028}' || c == '\U{2029}'
    || c == '\U{202F}' || c == '\U{205F}' || c == '\U{3000}'
  }

  /** Number of whitespace characters at the front of `s`. */
  function LeadingSpace(s: string): (n: nat)
    ensures n <= |s|
  {
    if s == [] || !IsSpace(s[0]) then 0 else 1 + LeadingSpace(s[1..])
  }

  /** `LeadingSpace` counts the whitespace run at the front, up to the first
      other character. */
  lemma {:induction false} LeadingSpaceRun(s: string)
    ensures forall k :: 0 <= k < LeadingSpace(s) ==> IsSpace(s[k])
    ensures LeadingSpace(s) < |s| ==> !IsSpace(s[LeadingSpace(s)])
    decreases |s|
  {
    if s != [] && IsSpace(s[0]) {
      LeadingSpaceRun(s[1..]);
    }
  }

  /** Number of whitespace characters at the end of `s`. */
  function TrailingSpace(s: string): (n: nat)
    ensures n <= |s|
  {
    if s == [] || !IsSpace(s[|s| - 1]) then 0 else 1 + TrailingSpace(s[..|s| - 1])
  }

  /** `TrailingSpace` counts the whitespace run at the end, back to the last
      other character. */
  lemma {:induction false} TrailingSpaceRun(s: string)
    ensures forall k :: |s| - TrailingSpace(s) <= k < |s| ==> IsSpace(s[k])
    ensures TrailingSpace(s) < |s| ==> !IsSpace(s[|s| - TrailingSpace(s) - 1])
    decreases |s|
  {
    if s != [] && IsSpace(s[|s| - 1]) {
      TrailingSpaceRun(s[..|s| - 1]);
    }
  }

  /** `s.strip()`: the slice of `s` left once the whitespace runs at both
      ends are cut off. */
  function Strip(s: string): (r: string)
    ensures LeadingSpace(s) + |r| <= |s| && r == s[LeadingSpace(s)..LeadingSpace(s) + |r|]
  {
    var t := s[LeadingSpace(s)..];
    t[..|t| - TrailingSpace(t)]
  }

  /** What `strip()` keeps neither starts nor ends with whitespace. */
  lemma StripEnds(s: string)
    ensures var r := Strip(s); r == [] || (!IsSpace(r[0]) && !IsSpace(r[|r| - 1]))
  {
    var t := s[LeadingSpace(s)..];
    LeadingSpaceRun(s);
    TrailingSpaceRun(t);
  }

  /** Everything `strip()` cuts off is whitespace. */
  lemma StripCutsSpace(s: string)
    ensures forall k :: 0 <= k < LeadingSpace(s) ==> IsSpace(s[k])
    ensures forall k :: LeadingSpace(s) + |Strip(s)| <= k < |s| ==> IsSpace(s[k])
  {
    var i := LeadingSpace(s);
    var t := s[i..];
    LeadingSpaceRun(s);
    TrailingSpaceRun(t);
    assert forall k :: i + |Strip(s)| <= k < |s| ==> s[k] == t[k - i];
  }

  /** `strip()` keeps nothing exactly when the whole string is whitespace. */
  lemma StripEmpty(s: string)
    ensures Strip(s) == [] <==> forall k :: 0 <= k < |s| ==> IsSpace(s[k])
  {
    LeadingSpaceRun(s);
    StripCutsSpace(s);
  }

  /** `strip()` removes exactly the whitespace at both ends: what it keeps
      neither starts nor ends with whitespace, everything it cuts off is
      whitespace, and it keeps nothing exactly when the whole string is
      whitespace. */
  lemma StripTrims(s: string)
    ensures var r, i := Strip(s), LeadingSpace(s);
      && (r == [] || (!IsSpace(r[0]) && !IsSpace(r[|r| - 1])))
      && (forall k :: 0 <= k < i ==> IsSpace(s[k]))
      && (forall k :: i + |r| <= k < |s| ==> IsSpace(s[k]))
      && (r == [] <==> forall k :: 0 <= k < |s| ==> IsSpace(s[k]))
  {
    StripEnds(s);
    StripCutsSpace(s);
    StripEmpty(s);
  }

  /** Python's `str.lower()` on one character, for the ASCII letters. */
  function LowerChar(c: char): char
  {
    if 'A' <= c <= 'Z' then (c as int + 32) as char else c
  }

  /** `s.lower()`: every ASCII upper-case letter mapped to its lower-case form. */
  function Lower(s: string): (r: string)
    ensures |r| == |s|
    ensures forall k :: 0 <= k < |s| ==> r[k] == LowerChar(s[k])
  {
    seq(|s|, k requires 0 <= k < |s| => LowerChar(s[k]))
  }

  /** Lower-casing twice is lower-casing once, so comparing `a.lower()`
      with an already lower-cased string is a case-insensitive comparison. */
  lemma LowerIdempotent(s: string)
    ensures Lower(Lower(s)) == Lower(s)
  {
  }

  /** Stripping an already stripped string changes nothing. */
  lemma StripIdempotent(s: string)
    ensures Strip(Strip(s)) == Strip(s)
  {
    var r := Strip(s);
    StripEnds(s);
    assert LeadingSpace(r) == 0;
    assert TrailingSpace(r) == 0;
  }

  /** Lower-casing neither creates nor removes whitespace. */
  lemma LowerCharSpace(c: char)
    ensures IsSpace(LowerChar(c)) == IsSpace(c)
  {
  }

  lemma {:induction false} LeadingSpaceLower(s: string)
    ensures LeadingSpace(Lower(s)) == LeadingSpace(s)
    decreases |s|
  {
    if s != [] {
      LowerCharSpace(s[0]);
      assert Lower(s)[1..] == Lower(s[1..]);
      LeadingSpaceLower(s[1..]);
    }
  }

  lemma {:induction false} TrailingSpaceLower(s: string)
    ensures TrailingSpace(Lower(s)) == TrailingSpace(s)
    decreases |s|
  {
    if s != [] {
      LowerCharSpace(s[|s| - 1]);
      assert Lower(s)[..|s| - 1] == Lower(s[..|s| - 1]);
      TrailingSpaceLower(s[..|s| - 1]);
    }
  }

  lemma LowerDrop(s: string, a: nat)
    requires a <= |s|
    ensures Lower(s)[a..] == Lower(s[a..])
  {
  }

  lemma LowerTake(s: string, b: nat)
    requires b <= |s|
    ensures Lower(s)[..b] == Lower(s[..b])
  {
  }

  /** `strip()` as the two cuts it makes. */
  lemma StripCuts(s: string)
    ensures var t := s[LeadingSpace(s)..]; Strip(s) == t[..|t| - TrailingSpace(t)]
  {
  }

  /** `s.lower().strip() == s.strip().lower()`: the order in which the
      client normalises an answer does not matter. */
  lemma StripLower(s: string)
    ensures Strip(Lower(s)) == Lower(Strip(s))
  {
    var i := LeadingSpace(s);
    var t := s[i..];
    var j := |t| - TrailingSpace(t);
    var u := Lower(s)[i..];
    assert u == Lower(t) by { LowerDrop(s, i); }
    assert LeadingSpace(Lower(s)) == i by { LeadingSpaceLower(s); }
    assert TrailingSpace(u) == TrailingSpace(t) by { TrailingSpaceLower(t); }
    assert Strip(Lower(s)) == u[..j] by { StripCuts(Lower(s)); }
    assert Strip(s) == t[..j] by { StripCuts(s); }
    assert u[..j] == Lower(t[..j]) by { LowerTake(t, j); }
  }

  /** A whitespace character in front does not change what `strip()` keeps. */
  lemma StripSpaceFront(c: char, s: string)
    requires IsSpace(c)
    ensures Strip([c] + s) == Strip(s)
  {
    var x := [c] + s;
    assert x[1..] == s;
    assert LeadingSpace(x) == 1 + LeadingSpace(s);
    assert x[LeadingSpace(x)..] == s[LeadingSpace(s)..];
  }

  lemma {:induction false} LeadingSpaceAppend(s: string, c: char)
    ensures LeadingSpace(s) < |s| ==> LeadingSpace(s + [c]) == LeadingSpace(s)
    ensures LeadingSpace(s) == |s| ==> LeadingSpace(s + [c]) == |s| + (if IsSpace(c) then 1 else 0)
    decreases |s|
  {
    if s != [] {
      assert (s + [c])[1..] == s[1..] + [c];
      LeadingSpaceAppend(s[1..], c);
    }
  }

  lemma TrailingSpaceAppend(t: string, c: char)
    requires IsSpace(c)
    ensures TrailingSpace(t + [c]) == 1 + TrailingSpace(t)
  {
    assert (t + [c])[..|t|] == t;
  }

  /** A whitespace character at the back does not change what `strip()` keeps. */
  lemma StripSpaceBack(s: string, c: char)
    requires IsSpace(c)
    ensures Strip(s + [c]) == Strip(s)
  {
    var i := LeadingSpace(s);
    LeadingSpaceAppend(s, c);
    if i < |s| {
      var t := s[i..];
      var j := |t| - TrailingSpace(t);
      assert (s + [c])[i..] == t + [c];
      TrailingSpaceAppend(t, c);
      assert Strip(s + [c]) == (t + [c])[..j] by { StripCuts(s + [c]); }
      assert Strip(s) == t[..j] by { StripCuts(s); }
      assert (t + [c])[..j] == t[..j];
    }
  }

  /** `strip()` ignores any whitespace around the text. */
  lemma {:induction false} StripPadded(front: string, s: string, back: string)
    requires forall k :: 0 <= k < |front| ==> IsSpace(front[k])
    requires forall k :: 0 <= k < |back| ==> IsSpace(back[k])
    ensures Strip(front + s + back) == Strip(s)
    decreases |front| + |back|
  {
    if front != [] {
      assert front + s + back == [front[0]] + (front[1..] + s + back);
      StripSpaceFront(front[0], front[1..] + s + back);
      StripPadded(front[1..], s, back);
    } else if back != [] {
      var last := back[|back| - 1];
      assert front + s + back == (front + s + back[..|back| - 1]) + [last];
      StripSpaceBack(front + s + back[..|back| - 1], last);
      StripPadded(front, s, back[..|back| - 1]);
    } else {
      assert front + s + back == s;
    }
  }
}
