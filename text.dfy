/** The .NET string operations the controller relies on, written out over `seq<char>`:
    Char.IsWhiteSpace / string.IsNullOrWhiteSpace, ordinal String.Contains and
    String.Replace, String.Split on one character (with its inverse, String.Join),
    String.LastIndexOf on one character, Enumerable.Where(x => x != v), and the
    decimal formatting of an `int` inside an interpolated string. */
module Text {

  /** Char.IsWhiteSpace, which is also the class `\s` of .NET regular expressions:
      U+0009..U+000D, U+0085 and the Unicode separators (categories Zs, Zl, Zp). */
  predicate IsWhiteSpace(c: char) {
    ('\t' <= c <= '\r') || c == ' ' || c == '\U{85}' || c == '\U{A0}' || c == '\U{1680}'
    || ('\U{2000}' <= c <= '\U{200A}') || c == '\U{2028}' || c == '\U{2029}'
    || c == '\U{202F}' || c == '\U{205F}' || c == '\U{3000}'
  }

  /** string.IsNullOrWhiteSpace of a non-null string: empty, or white space only. */
  predicate IsBlank(s: string): (b: bool)
    ensures |s| == 0 ==> b
  {
    forall i :: 0 <= i < |s| ==> IsWhiteSpace(s[i])
  }

  predicate IsPrefix(p: string, s: string) {
    |p| <= |s| && s[..|p|] == p
  }

  predicate OccursAt(s: string, p: string, i: int) {
    0 <= i && i + |p| <= |s| && s[i..i + |p|] == p
  }

  /** Ordinal String.Contains: `p` occurs somewhere in `s` (the empty string occurs everywhere). */
  predicate Contains(s: string, p: string): (b: bool)
    ensures |p| == 0 ==> b
    ensures b ==> |p| <= |s|
    decreases |s|
  {
    IsPrefix(p, s) || (|s| > 0 && Contains(s[1..], p))
  }

  lemma OccursAtStart(s: string, p: string)
    ensures OccursAt(s, p, 0) <==> IsPrefix(p, s)
  {
    if |p| <= |s| {
      assert s[0..|p|] == s[..|p|];
    }
  }

  /** The scan above finds exactly the positions at which `p` occurs. */
  lemma {:induction false} ContainsIffOccurs(s: string, p: string)
    ensures Contains(s, p) <==> exists i :: OccursAt(s, p, i)
    decreases |s|
  {
    OccursAtStart(s, p);
    if |s| == 0 {
      forall i | OccursAt(s, p, i) ensures i == 0 { }
    } else {
      ContainsIffOccurs(s[1..], p);
      forall i | OccursAt(s[1..], p, i) ensures OccursAt(s, p, i + 1) {
        assert s[i + 1..i + 1 + |p|] == s[1..][i..i + |p|];
      }
      forall i | 1 <= i && OccursAt(s, p, i) ensures OccursAt(s[1..], p, i - 1) {
        assert s[1..][i - 1..i - 1 + |p|] == s[i..i + |p|];
      }
    }
  }

  /** Ordinal String.Replace(p, r): the occurrences of `p`, found left to right and
      without overlap, are each replaced by `r`. (.NET refuses an empty `p`.) */
  function ReplaceAll(s: string, p: string, r: string): (out: string)
    requires |p| > 0
    ensures !Contains(s, p) ==> out == s
    decreases |s|
  {
    if |s| == 0 then s
    else if IsPrefix(p, s) then r + ReplaceAll(s[|p|..], p, r)
    else [s[0]] + ReplaceAll(s[1..], p, r)
  }

  /** Text none of whose characters can start `p` is copied unchanged in front of the
      replacements made in what follows it. */
  lemma {:induction false} ReplaceAfterPlainText(a: string, t: string, p: string, r: string)
    requires |p| > 0 && p[0] !in a
    ensures ReplaceAll(a + t, p, r) == a + ReplaceAll(t, p, r)
    decreases |a|
  {
    if |a| > 0 {
      var s := a + t;
      assert s[0] == a[0] != p[0];
      assert !IsPrefix(p, s);
      assert s[1..] == a[1..] + t;
      ReplaceAfterPlainText(a[1..], t, p, r);
      assert [a[0]] + a[1..] == a;
    } else {
      assert a + t == t;
    }
  }

  /** A text that starts like `p` but parts from it at its second character, and holds
      no other character that could start `p`, is copied unchanged in front of the
      replacements made in what follows it. */
  lemma ReplaceAfterOtherPattern(n: string, rest: string, p: string, r: string)
    requires |n| >= 2 && |p| >= 2 && n[0] == p[0] && n[1] != p[1] && p[0] !in n[1..]
    ensures ReplaceAll(n + rest, p, r) == n + ReplaceAll(rest, p, r)
  {
    SecondCharDiffers(n, rest, p, r);
    ReplaceAfterPlainText(n[1..], rest, p, r);
    assert [n[0]] + n[1..] == n;
  }

  /** A text whose second character differs from `p`'s keeps its first character. */
  lemma SecondCharDiffers(n: string, rest: string, p: string, r: string)
    requires |n| >= 2 && |p| >= 2 && n[1] != p[1]
    ensures ReplaceAll(n + rest, p, r) == [n[0]] + ReplaceAll(n[1..] + rest, p, r)
  {
    var s := n + rest;
    assert !IsPrefix(p, s) by {
      if |p| <= |s| {
        assert s[..|p|][1] == n[1];
      }
    }
    ReplaceCopiesHead(s, p, r);
    assert s[1..] == n[1..] + rest;
  }

  /** A text that does not start with `p` keeps its first character. */
  lemma ReplaceCopiesHead(s: string, p: string, r: string)
    requires |s| > 0 && |p| > 0 && !IsPrefix(p, s)
    ensures ReplaceAll(s, p, r) == [s[0]] + ReplaceAll(s[1..], p, r)
  {
  }

  /** A leading occurrence is replaced, and the scan resumes right after it. */
  lemma ReplaceLeading(p: string, s: string, r: string)
    requires |p| > 0
    ensures ReplaceAll(p + s, p, r) == r + ReplaceAll(s, p, r)
  {
    assert IsPrefix(p, p + s);
    assert (p + s)[|p|..] == s;
  }

  /** The text without any occurrence of `c`. */
  function RemoveChar(s: string, c: char): string
    decreases |s|
  {
    if |s| == 0 then [] else (if s[0] == c then [] else [s[0]]) + RemoveChar(s[1..], c)
  }

  /** String.Replace of a one-character string by "" deletes that character everywhere. */
  lemma {:induction false} ReplaceCharByNothing(s: string, c: char)
    ensures ReplaceAll(s, [c], "") == RemoveChar(s, c)
    decreases |s|
  {
    if |s| > 0 {
      ReplaceCharByNothing(s[1..], c);
      assert IsPrefix([c], s) <==> s[0] == c;
    }
  }

  lemma RemoveCharCons(h: char, t: string, c: char)
    ensures RemoveChar([h] + t, c) == (if h == c then [] else [h]) + RemoveChar(t, c)
  {
    assert ([h] + t)[1..] == t;
  }

  /** Regex.Replace(s, "\\s+", ""): every run of white space, hence every white-space
      character, is deleted. */
  function RemoveWhiteSpace(s: string): (r: string)
    ensures |r| <= |s|
    ensures forall i :: 0 <= i < |r| ==> !IsWhiteSpace(r[i])
    decreases |s|
  {
    if |s| == 0 then [] else (if IsWhiteSpace(s[0]) then [] else [s[0]]) + RemoveWhiteSpace(s[1..])
  }

  lemma RemoveWhiteSpaceCons(h: char, t: string)
    ensures RemoveWhiteSpace([h] + t) == (if IsWhiteSpace(h) then [] else [h]) + RemoveWhiteSpace(t)
  {
    assert ([h] + t)[1..] == t;
  }

  function Last<T>(xs: seq<T>): T
    requires |xs| > 0
  {
    xs[|xs| - 1]
  }

  /** String.Split(c): the pieces between the occurrences of `c`, in order; there is
      always one more piece than there are separators, so the result is never empty. */
  function Split(s: string, c: char): (parts: seq<string>)
    ensures |parts| >= 1
    ensures forall i :: 0 <= i < |parts| ==> c !in parts[i]
    decreases |s|
  {
    if |s| == 0 then [""]
    else
      var init := Split(s[..|s| - 1], c);
      var last := s[|s| - 1];
      if last == c then init + [""]
      else init[..|init| - 1] + [Last(init) + [last]]
  }

  /** String.Join(c, parts), the inverse of Split. */
  function Join(parts: seq<string>, c: char): string
    requires |parts| >= 1
  {
    if |parts| == 1 then parts[0]
    else Join(parts[..|parts| - 1], c) + [c] + Last(parts)
  }

  lemma JoinExtendLast(parts: seq<string>, c: char, ch: char)
    requires |parts| >= 1
    ensures Join(parts[..|parts| - 1] + [Last(parts) + [ch]], c) == Join(parts, c) + [ch]
  {
    var q := parts[..|parts| - 1] + [Last(parts) + [ch]];
    if |parts| > 1 {
      assert q[..|q| - 1] == parts[..|parts| - 1];
    }
  }

  /** Joining the pieces of a split gives back the text. */
  lemma {:induction false} JoinSplit(s: string, c: char)
    ensures Join(Split(s, c), c) == s
    decreases |s|
  {
    if |s| > 0 {
      var s', ch := s[..|s| - 1], s[|s| - 1];
      var init := Split(s', c);
      JoinSplit(s', c);
      assert s == s' + [ch];
      if ch == c {
        var parts := init + [""];
        assert Split(s, c) == parts;
        assert parts[..|parts| - 1] == init;
        assert Join(parts, c) == s' + [c] + "";
      } else {
        assert Split(s, c) == init[..|init| - 1] + [Last(init) + [ch]];
        JoinExtendLast(init, c, ch);
      }
    }
  }

  /** Appending separator-free text only extends the last piece. */
  lemma {:induction false} SplitAppend(s: string, t: string, c: char)
    requires c !in t
    ensures var ps := Split(s, c);
      Split(s + t, c) == ps[..|ps| - 1] + [Last(ps) + t]
    decreases |t|
  {
    var ps := Split(s, c);
    if |t| == 0 {
      assert s + t == s;
      assert Last(ps) + t == Last(ps);
      assert ps[..|ps| - 1] + [Last(ps)] == ps;
    } else {
      var t' := t[..|t| - 1];
      var ch := t[|t| - 1];
      SplitAppend(s, t', c);
      var init := Split(s + t', c);
      assert init == ps[..|ps| - 1] + [Last(ps) + t'];
      assert (s + t)[..|s + t| - 1] == s + t';
      assert (s + t)[|s + t| - 1] == ch;
      assert ch != c by { assert ch in t; }
      assert Split(s + t, c) == init[..|init| - 1] + [Last(init) + [ch]];
      assert init[..|init| - 1] == ps[..|ps| - 1];
      assert Last(init) + [ch] == Last(ps) + t' + [ch];
      assert t' + [ch] == t;
      assert Last(ps) + t' + [ch] == Last(ps) + t;
    }
  }

  /** Splitting a join of separator-free pieces gives back the pieces. */
  lemma {:induction false} SplitJoin(parts: seq<string>, c: char)
    requires |parts| >= 1
    requires forall i :: 0 <= i < |parts| ==> c !in parts[i]
    ensures Split(Join(parts, c), c) == parts
    decreases |parts|
  {
    if |parts| == 1 {
      SplitAppend("", parts[0], c);
      assert "" + parts[0] == parts[0];
    } else {
      var init := parts[..|parts| - 1];
      SplitJoin(init, c);
      SplitAfterSeparator(Join(init, c), init, Last(parts), c);
      assert init + [Last(parts)] == parts;
    }
  }

  /** One more separator and a separator-free piece add that piece to a split. */
  lemma SplitAfterSeparator(j: string, init: seq<string>, last: string, c: char)
    requires Split(j, c) == init && c !in last
    ensures Split(j + [c] + last, c) == init + [last]
  {
    assert Split(j + [c], c) == init + [""] by {
      assert (j + [c])[..|j + [c]| - 1] == j;
    }
    SplitAppend(j + [c], last, c);
    assert (init + [""])[..|init|] == init;
    assert "" + last == last;
  }

  /** String.LastIndexOf(c): the position of the last `c`, or -1 when there is none. */
  function LastIndexOf(s: string, c: char): (k: int)
    ensures -1 <= k < |s|
    ensures k >= 0 ==> s[k] == c
    ensures forall j :: k < j < |s| ==> s[j] != c
    decreases |s|
  {
    if |s| == 0 then -1
    else if s[|s| - 1] == c then |s| - 1
    else LastIndexOf(s[..|s| - 1], c)
  }

  /** s.Substring(s.LastIndexOf(c) + 1): the text after the last `c`, or all of `s`. */
  function AfterLast(s: string, c: char): (r: string)
    ensures c !in r
    ensures |r| <= |s| && r == s[|s| - |r|..]
  {
    s[LastIndexOf(s, c) + 1..]
  }

  lemma AfterLastStep(s: string, c: char)
    requires |s| > 0 && Last(s) != c
    ensures AfterLast(s, c) == AfterLast(s[..|s| - 1], c) + [Last(s)]
  {
    var init := s[..|s| - 1];
    var k := LastIndexOf(init, c);
    assert s[|s| - 1] != c;
    assert LastIndexOf(s, c) == k;
    assert s == init + [Last(s)];
    assert s[k + 1..] == init[k + 1..] + [Last(s)];
  }

  lemma LastPieceStep(s: string, c: char)
    requires |s| > 0 && Last(s) != c
    ensures Last(Split(s, c)) == Last(Split(s[..|s| - 1], c)) + [Last(s)]
  {
  }

  /** The last piece of a split is the text after the last separator. */
  lemma {:induction false} LastPieceAfterLastSeparator(s: string, c: char)
    ensures Last(Split(s, c)) == AfterLast(s, c)
    decreases |s|
  {
    if |s| == 0 {
      assert Split(s, c) == [""];
    } else if Last(s) == c {
      assert LastIndexOf(s, c) == |s| - 1;
    } else {
      LastPieceAfterLastSeparator(s[..|s| - 1], c);
      AfterLastStep(s, c);
      LastPieceStep(s, c);
    }
  }

  /** Text without the character is kept whole. */
  lemma AfterLastAbsent(s: string, c: char)
    requires c !in s
    ensures AfterLast(s, c) == s
  {
    assert LastIndexOf(s, c) == -1;
  }

  /** The text after a separator followed by separator-free text is that text. */
  lemma AfterLastAt(a: string, b: string, c: char)
    requires c !in b
    ensures AfterLast(a + [c] + b, c) == b
  {
    var s := a + [c] + b;
    assert s[|a|] == c;
    assert LastIndexOf(s, c) == |a|;
    assert s[|a| + 1..] == b;
  }

  /** Every character of a piece of a split comes from the text. */
  lemma {:induction false} SplitPieceChars(s: string, c: char)
    ensures forall i, j :: 0 <= i < |Split(s, c)| && 0 <= j < |Split(s, c)[i]| ==> Split(s, c)[i][j] in s
    decreases |s|
  {
    if |s| > 0 {
      var s' := s[..|s| - 1];
      assert s == s' + [Last(s)];
      SplitPieceChars(s', c);
      var init := Split(s', c);
      var parts := Split(s, c);
      if Last(s) == c {
        assert parts == init + [""];
        forall i, j | 0 <= i < |parts| && 0 <= j < |parts[i]| ensures parts[i][j] in s {
          assert i < |init|;
          assert parts[i][j] == init[i][j];
        }
      } else {
        assert parts == init[..|init| - 1] + [Last(init) + [Last(s)]];
        forall i, j | 0 <= i < |parts| && 0 <= j < |parts[i]| ensures parts[i][j] in s {
          if i < |init| - 1 {
            assert parts[i][j] == init[i][j];
          } else if j < |Last(init)| {
            assert parts[i][j] == init[|init| - 1][j];
          } else {
            assert parts[i][j] == Last(s);
          }
        }
      }
    }
  }

  /** Enumerable.Where(x => x != v) on a sequence of strings. */
  function Without(xs: seq<string>, v: string): (r: seq<string>)
    ensures forall i :: 0 <= i < |r| ==> r[i] != v && r[i] in xs
    decreases |xs|
  {
    if |xs| == 0 then []
    else Without(xs[..|xs| - 1], v) + (if Last(xs) == v then [] else [Last(xs)])
  }

  /** Nothing is left exactly when every element equals `v`. */
  lemma {:induction false} WithoutEmpty(xs: seq<string>, v: string)
    ensures Without(xs, v) == [] <==> forall i :: 0 <= i < |xs| ==> xs[i] == v
    decreases |xs|
  {
    if |xs| > 0 {
      var init := xs[..|xs| - 1];
      WithoutEmpty(init, v);
      assert forall i :: 0 <= i < |init| ==> init[i] == xs[i];
    }
  }

  /** The position of the last element of `xs` that differs from `v`, which is the last
      element left by Without. */
  lemma {:induction false} LastKept(xs: seq<string>, v: string) returns (k: nat)
    requires Without(xs, v) != []
    ensures k < |xs| && xs[k] != v && Last(Without(xs, v)) == xs[k]
    ensures forall j :: k < j < |xs| ==> xs[j] == v
    decreases |xs|
  {
    var init := xs[..|xs| - 1];
    if Last(xs) == v {
      assert Without(xs, v) == Without(init, v);
      k := LastKept(init, v);
      assert xs[k] == init[k];
      forall j | k < j < |xs| ensures xs[j] == v {
        if j < |xs| - 1 {
          assert xs[j] == init[j];
        }
      }
    } else {
      k := |xs| - 1;
    }
  }

  /** Nothing is left exactly when every element equals `v`; otherwise the last element
      left is the last element of `xs` that differs from `v`. */
  lemma LastOfWithout(xs: seq<string>, v: string)
    ensures Without(xs, v) == [] <==> forall i :: 0 <= i < |xs| ==> xs[i] == v
    ensures Without(xs, v) != [] ==>
      exists k :: 0 <= k < |xs| && xs[k] != v && Last(Without(xs, v)) == xs[k] &&
        forall j :: k < j < |xs| ==> xs[j] == v
  {
    WithoutEmpty(xs, v);
    if Without(xs, v) != [] {
      var k := LastKept(xs, v);
    }
  }

  /** The character of one decimal digit. */
  function DigitChar(d: nat): (ch: char)
    requires d < 10
    ensures '0' <= ch <= '9' && ch as int - '0' as int == d
  {
    ('0' as int + d) as char
  }

  /** Decimal digits of a natural number, most significant first, without leading zeros. */
  function NatToString(n: nat): (s: string)
    ensures |s| >= 1
    ensures forall i :: 0 <= i < |s| ==> '0' <= s[i] <= '9'
    decreases n
  {
    if n < 10 then [DigitChar(n)] else NatToString(n / 10) + [DigitChar(n % 10)]
  }

  /** `{n}` in an interpolated string: the decimal form with a leading '-' when negative. */
  function IntToString(n: int): (s: string)
    ensures forall i :: 0 <= i < |s| ==> s[i] == '-' || '0' <= s[i] <= '9'
  {
    if n < 0 then "-" + NatToString(-n) else NatToString(n)
  }

  /** Reads a string of decimal digits back (the inverse of NatToString). */
  function ParseNat(s: string): nat
    requires forall i :: 0 <= i < |s| ==> '0' <= s[i] <= '9'
    decreases |s|
  {
    if |s| == 0 then 0 else ParseNat(s[..|s| - 1]) * 10 + (Last(s) as int - '0' as int)
  }

  function ParseInt(s: string): int
    requires |s| >= 1
    requires forall i :: 1 <= i < |s| ==> '0' <= s[i] <= '9'
    requires s[0] == '-' || '0' <= s[0] <= '9'
  {
    if s[0] == '-' then 0 - ParseNat(s[1..]) else ParseNat(s)
  }

  lemma {:induction false} ParseNatToString(n: nat)
    ensures ParseNat(NatToString(n)) == n
    decreases n
  {
    if n >= 10 {
      ParseNatToString(n / 10);
      var s := NatToString(n);
      assert s[..|s| - 1] == NatToString(n / 10);
    }
  }

  /** The formatted id reads back as the same number. */
  lemma IntToStringRoundTrip(n: int)
    ensures ParseInt(IntToString(n)) == n
  {
    if n < 0 {
      ParseNatToString(-n);
      assert IntToString(n)[1..] == NatToString(-n);
    } else {
      ParseNatToString(n);
    }
  }
}
