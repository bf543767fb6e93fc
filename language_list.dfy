/** Parsing of the language list stored on an ancestor node: a value such as
    `["en-US", "fr-FR"]` loses its brackets and quotes, then all white space, and is
    cut at the commas. Order and duplicates are kept. */
module LanguageList {
  import opened Text

  /** The characters the parser deletes: '[', ']', '"' and white space. */
  predicate IsListSyntax(ch: char) {
    ch == '[' || ch == ']' || ch == '"' || IsWhiteSpace(ch)
  }

  /** Reference reading of the clean-up: one pass that drops every list-syntax character
      and keeps every other character, in order. */
  function Stripped(s: string): string
    decreases |s|
  {
    if |s| == 0 then [] else (if IsListSyntax(s[0]) then [] else [s[0]]) + Stripped(s[1..])
  }

  /** `Regex.Replace(value.ReplaceMany({ "[" -> "", "]" -> "", "\"" -> "" }), "\\s+", "")`:
      ReplaceMany applies String.Replace once per dictionary entry, in order. */
  function Clean(value: string): (r: string)
    ensures forall i :: 0 <= i < |r| ==> !IsWhiteSpace(r[i])
  {
    RemoveWhiteSpace(ReplaceAll(ReplaceAll(ReplaceAll(value, "[", ""), "]", ""), "\"", ""))
  }

  /** The stored list as codes: `Clean(value).Split(',')`. */
  function ParseLanguageList(value: string): (codes: seq<string>)
    ensures |codes| >= 1
    ensures forall i :: 0 <= i < |codes| ==> ',' !in codes[i]
  {
    Split(Clean(value), ',')
  }

  lemma {:induction false} StrippedHasNoSyntax(s: string)
    ensures forall i :: 0 <= i < |Stripped(s)| ==> !IsListSyntax(Stripped(s)[i])
    decreases |s|
  {
    if |s| > 0 {
      StrippedHasNoSyntax(s[1..]);
    }
  }

  lemma {:induction false} WhiteSpaceAfterRemovals(s: string)
    ensures RemoveWhiteSpace(RemoveChar(RemoveChar(RemoveChar(s, '['), ']'), '"')) == Stripped(s)
    decreases |s|
  {
    if |s| > 0 {
      var h, t := s[0], s[1..];
      assert s == [h] + t;
      WhiteSpaceAfterRemovals(t);
      var a := RemoveChar(t, '[');
      var b := RemoveChar(a, ']');
      var d := RemoveChar(b, '"');
      RemoveCharCons(h, t, '[');
      if h == '[' {
        assert RemoveChar(s, '[') == a;
      } else {
        RemoveCharCons(h, a, ']');
        if h == ']' {
          assert RemoveChar(RemoveChar(s, '['), ']') == b;
        } else {
          RemoveCharCons(h, b, '"');
          if h == '"' {
            assert RemoveChar(RemoveChar(RemoveChar(s, '['), ']'), '"') == d;
          } else {
            RemoveWhiteSpaceCons(h, d);
          }
        }
      }
    }
  }

  /** The three replacements and the white-space removal together delete exactly the
      list-syntax characters. */
  lemma CleanIsStripped(value: string)
    ensures Clean(value) == Stripped(value)
  {
    ReplaceCharByNothing(value, '[');
    var a := RemoveChar(value, '[');
    ReplaceCharByNothing(a, ']');
    var b := RemoveChar(a, ']');
    ReplaceCharByNothing(b, '"');
    WhiteSpaceAfterRemovals(value);
  }

  /** The parse never comes back empty (so the `langs.Any()` guard always holds); joined
      with commas it gives back the stripped text, so order and duplicates are kept; and
      no code holds a comma, a bracket, a quote or white space. */
  lemma ParseLanguageListSpec(value: string)
    ensures var codes := ParseLanguageList(value);
      |codes| >= 1 &&
      Join(codes, ',') == Stripped(value) &&
      forall i, j :: 0 <= i < |codes| && 0 <= j < |codes[i]| ==>
        codes[i][j] != ',' && !IsListSyntax(codes[i][j])
  {
    CleanIsStripped(value);
    JoinSplit(Stripped(value), ',');
    SplitPieceChars(Stripped(value), ',');
    StrippedHasNoSyntax(value);
    var codes := ParseLanguageList(value);
    forall i, j | 0 <= i < |codes| && 0 <= j < |codes[i]|
      ensures codes[i][j] != ',' && !IsListSyntax(codes[i][j])
    {
      assert codes[i][j] in codes[i];
      assert codes[i][j] in Stripped(value);
    }
  }

  /** A stored list of codes separated by commas, with no list syntax in them, parses back
      to exactly those codes. */
  lemma ParseJoined(codes: seq<string>)
    requires |codes| >= 1
    requires forall i, j :: 0 <= i < |codes| && 0 <= j < |codes[i]| ==>
      codes[i][j] != ',' && !IsListSyntax(codes[i][j])
    ensures ParseLanguageList(Join(codes, ',')) == codes
  {
    var text := Join(codes, ',');
    CleanIsStripped(text);
    StrippedIdentity(codes, ',');
    forall i | 0 <= i < |codes| ensures ',' !in codes[i] {
      forall j | 0 <= j < |codes[i]| ensures codes[i][j] != ',' { }
    }
    SplitJoin(codes, ',');
  }

  lemma {:induction false} StrippedIdentity(codes: seq<string>, c: char)
    requires |codes| >= 1
    requires !IsListSyntax(c)
    requires forall i, j :: 0 <= i < |codes| && 0 <= j < |codes[i]| ==> !IsListSyntax(codes[i][j])
    ensures Stripped(Join(codes, c)) == Join(codes, c)
  {
    NoSyntaxStripped(Join(codes, c)) by {
      JoinChars(codes, c);
    }
  }

  lemma {:induction false} JoinChars(codes: seq<string>, c: char)
    requires |codes| >= 1
    requires !IsListSyntax(c)
    requires forall i, j :: 0 <= i < |codes| && 0 <= j < |codes[i]| ==> !IsListSyntax(codes[i][j])
    ensures forall k :: 0 <= k < |Join(codes, c)| ==> !IsListSyntax(Join(codes, c)[k])
    decreases |codes|
  {
    if |codes| == 1 {
      forall k | 0 <= k < |codes[0]| ensures !IsListSyntax(codes[0][k]) { }
    } else {
      var init := codes[..|codes| - 1];
      JoinChars(init, c);
      var j := Join(init, c);
      var l := Last(codes);
      forall k | 0 <= k < |j + [c] + l| ensures !IsListSyntax((j + [c] + l)[k]) {
        if k >= |j| + 1 {
          assert (j + [c] + l)[k] == l[k - |j| - 1];
        }
      }
    }
  }

  lemma {:induction false} NoSyntaxStripped(s: string)
    requires forall k :: 0 <= k < |s| ==> !IsListSyntax(s[k])
    ensures Stripped(s) == s
    decreases |s|
  {
    if |s| > 0 {
      NoSyntaxStripped(s[1..]);
      assert [s[0]] + s[1..] == s;
    }
  }

  lemma {:induction false} StrippedAppend(a: string, b: string)
    ensures Stripped(a + b) == Stripped(a) + Stripped(b)
    decreases |a|
  {
    if |a| > 0 {
      StrippedAppend(a[1..], b);
      assert (a + b)[1..] == a[1..] + b;
    } else {
      assert a + b == b;
    }
  }

  /** An empty stored value parses to one empty code. */
  lemma ParseEmpty()
    ensures ParseLanguageList("") == [""]
  {
    CleanIsStripped("");
  }
}
