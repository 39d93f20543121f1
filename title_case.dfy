/** `capital`: a global regular-expression replace of "a word character followed by
    any number of non-whitespace characters" by the match with its first character
    uppercased and the rest lowercased. The scan runs left to right; wherever a word
    character starts a match, the match runs on over every following non-whitespace
    character. */
module TitleCase {

  /** `\w` without the `u` flag: `[A-Za-z0-9_]`. */
  predicate IsWordChar(c: char) {
    'a' <= c <= 'z' || 'A' <= c <= 'Z' || '0' <= c <= '9' || c == '_'
  }

  /** `\s`: the ECMAScript WhiteSpace and LineTerminator code points. */
  predicate IsSpace(c: char) {
    c == '\t' || c == '\n' || c == '\U{000B}' || c == '\U{000C}' || c == '\r' ||
    c == ' ' || c == '\U{00A0}' || c == '\U{1680}' ||
    ('\U{2000}' <= c <= '\U{200A}') ||
    c == '\U{2028}' || c == '\U{2029}' || c == '\U{202F}' || c == '\U{205F}' ||
    c == '\U{3000}' || c == '\U{FEFF}'
  }

  /** `toUpperCase` on one character, ASCII letters only. */
  function Upper(c: char): char {
    if 'a' <= c <= 'z' then (c as int - 32) as char else c
  }

  /** `toLowerCase` on one character, ASCII letters only. */
  function Lower(c: char): char {
    if 'A' <= c <= 'Z' then (c as int + 32) as char else c
  }

  function LowerAll(t: string): (r: string)
    ensures |r| == |t|
  {
    seq(|t|, i requires 0 <= i < |t| => Lower(t[i]))
  }

  /** Where the non-whitespace repetition stops when started at `j`: the end of the run of non-whitespace
      characters from `j` on. */
  function RunEnd(s: string, j: nat): (e: nat)
    requires j <= |s|
    ensures j <= e <= |s|
    ensures forall m :: j <= m < e ==> !IsSpace(s[m])
    ensures e == |s| || IsSpace(s[e])
    decreases |s| - j
  {
    if j == |s| || IsSpace(s[j]) then j else RunEnd(s, j + 1)
  }

  /** The replaced text from position `i` on, where `i` is not inside a match. */
  function CapitalFrom(s: string, i: nat): string
    requires i <= |s|
    decreases |s| - i
  {
    if i == |s| then []
    else if IsWordChar(s[i]) then
      var e := RunEnd(s, i + 1);
      [Upper(s[i])] + LowerAll(s[i + 1..e]) + CapitalFrom(s, e)
    else [s[i]] + CapitalFrom(s, i + 1)
  }

  /** `capital(val)`. */
  function Capital(s: string): string {
    CapitalFrom(s, 0)
  }

  // ---------------------------------------------------------------------------
  // A position-by-position reference definition

  /** Position `i` lies inside a match of `\w\S*`: it is not whitespace, and it is a
      word character or continues a match. */
  predicate Covered(s: string, i: nat)
    requires i < |s|
  {
    !IsSpace(s[i]) && (IsWordChar(s[i]) || (i > 0 && Covered(s, i - 1)))
  }

  /** What `capital` puts at position `i`: the first character of a match is
      uppercased, the rest of a match lowercased, everything else kept. */
  function TitleAt(s: string, i: nat): char
    requires i < |s|
  {
    if !Covered(s, i) then s[i]
    else if i > 0 && Covered(s, i - 1) then Lower(s[i])
    else Upper(s[i])
  }

  /** Position `i` does not continue a match started before it. */
  predicate Boundary(s: string, i: nat)
    requires i <= |s|
  {
    i == 0 || i == |s| || IsSpace(s[i]) || !Covered(s, i - 1)
  }

  /** A match started at `i` covers the whole non-whitespace run from `i`. */
  lemma {:induction false} RunCovered(s: string, i: nat, m: nat)
    requires i <= m < |s|
    requires IsWordChar(s[i])
    requires forall j :: i < j <= m ==> !IsSpace(s[j])
    ensures Covered(s, m)
    decreases m - i
  {
    if m > i {
      RunCovered(s, i, m - 1);
    }
  }

  /** The reference title-casing of the whole string. */
  function Titled(s: string): (t: string)
    ensures |t| == |s|
  {
    seq(|s|, m requires 0 <= m < |s| => TitleAt(s, m))
  }

  /** A match started at a boundary `i` begins with its first character uppercased. */
  lemma MatchFirst(s: string, i: nat)
    requires i < |s| && Boundary(s, i) && IsWordChar(s[i])
    ensures Titled(s)[i..i + 1] == [Upper(s[i])]
  {
    assert TitleAt(s, i) == Upper(s[i]);
  }

  /** The rest of a match started at `i` is lowercased. */
  lemma MatchRest(s: string, i: nat, m: nat)
    requires i < |s| && IsWordChar(s[i])
    requires i < m < RunEnd(s, i + 1)
    ensures TitleAt(s, m) == Lower(s[m])
  {
    RunCovered(s, i, m);
    RunCovered(s, i, m - 1);
  }

  /** After the first character of a match started at `i`, the rest of its run is
      lowercased. */
  lemma MatchTitled(s: string, i: nat)
    requires i < |s| && IsWordChar(s[i])
    ensures LowerAll(s[i + 1..RunEnd(s, i + 1)]) == Titled(s)[i + 1..RunEnd(s, i + 1)]
  {
    var e := RunEnd(s, i + 1);
    var lowered := LowerAll(s[i + 1..e]);
    var t := Titled(s)[i + 1..e];
    forall j | 0 <= j < |lowered|
      ensures lowered[j] == t[j]
    {
      assert s[i + 1..e][j] == s[i + 1 + j];
      MatchRest(s, i, i + 1 + j);
    }
  }

  /** A suffix is the concatenation of its pieces. */
  lemma SuffixSplit(t: string, i: nat, j: nat, k: nat)
    requires i <= j <= k <= |t|
    ensures t[i..] == t[i..j] + t[j..k] + t[k..]
  {
  }

  /** The left-to-right scan from a position that continues no match produces the
      reference title-casing of the rest of the string. */
  lemma {:induction false} CapitalFromAt(s: string, i: nat)
    requires i <= |s| && Boundary(s, i)
    ensures CapitalFrom(s, i) == Titled(s)[i..]
    decreases |s| - i
  {
    if i < |s| {
      if IsWordChar(s[i]) {
        var e := RunEnd(s, i + 1);
        CapitalFromAt(s, e);
        MatchFirst(s, i);
        MatchTitled(s, i);
        SuffixSplit(Titled(s), i, i + 1, e);
      } else {
        CapitalFromAt(s, i + 1);
        assert TitleAt(s, i) == s[i] by {
          assert !Covered(s, i);
        }
        SuffixSplit(Titled(s), i, i + 1, i + 1);
      }
    }
  }

  /** `capital` keeps the length and is the position-by-position title-casing. */
  lemma CapitalAt(s: string)
    ensures |Capital(s)| == |s|
    ensures forall m :: 0 <= m < |s| ==> Capital(s)[m] == TitleAt(s, m)
  {
    CapitalFromAt(s, 0);
    assert Titled(s)[0..] == Titled(s);
  }

  /** Case mapping never turns a character into or out of whitespace or a word
      character, and applying it twice changes nothing more. */
  lemma CaseMapping(c: char)
    ensures IsSpace(Upper(c)) == IsSpace(c) && IsSpace(Lower(c)) == IsSpace(c)
    ensures IsWordChar(Upper(c)) == IsWordChar(c) && IsWordChar(Lower(c)) == IsWordChar(c)
    ensures Upper(Upper(c)) == Upper(c) && Lower(Lower(c)) == Lower(c)
  {
  }

  /** `capital` keeps every whitespace character where it is, leaves no new
      whitespace, and only changes the case of characters. */
  lemma CapitalKeepsSpaces(s: string)
    ensures |Capital(s)| == |s|
    ensures forall m :: 0 <= m < |s| ==> (IsSpace(Capital(s)[m]) <==> IsSpace(s[m]))
    ensures forall m :: 0 <= m < |s| && IsSpace(s[m]) ==> Capital(s)[m] == s[m]
    ensures forall m :: 0 <= m < |s| ==>
      Capital(s)[m] == s[m] || Capital(s)[m] == Upper(s[m]) || Capital(s)[m] == Lower(s[m])
  {
    CapitalAt(s);
    forall m | 0 <= m < |s|
      ensures IsSpace(Capital(s)[m]) <==> IsSpace(s[m])
    {
      CaseMapping(s[m]);
    }
  }

  /** Two strings with whitespace and word characters at the same places have the
      same matches. */
  lemma {:induction false} SameCovered(s: string, t: string, m: nat)
    requires |s| == |t| && m < |s|
    requires forall j :: 0 <= j <= m ==>
      IsSpace(s[j]) == IsSpace(t[j]) && IsWordChar(s[j]) == IsWordChar(t[j])
    ensures Covered(s, m) == Covered(t, m)
  {
    if m > 0 {
      SameCovered(s, t, m - 1);
    }
  }

  /** Title-casing an already title-cased string changes nothing. */
  lemma CapitalIdempotent(s: string)
    ensures Capital(Capital(s)) == Capital(s)
  {
    var r := Capital(s);
    CapitalAt(s);
    CapitalAt(r);
    forall j | 0 <= j < |s|
      ensures IsSpace(s[j]) == IsSpace(r[j]) && IsWordChar(s[j]) == IsWordChar(r[j])
    {
      CaseMapping(s[j]);
    }
    forall m | 0 <= m < |s|
      ensures Capital(r)[m] == r[m]
    {
      SameCovered(s, r, m);
      if m > 0 {
        SameCovered(s, r, m - 1);
      }
      CaseMapping(s[m]);
    }
  }

  /** Appending text after a position does not change whether a match covers it. */
  lemma {:induction false} CoveredPrefix(a: string, b: string, m: nat)
    requires m < |a|
    ensures Covered(a + b, m) == Covered(a, m)
  {
    if m > 0 {
      CoveredPrefix(a, b, m - 1);
    }
  }

  /** After a whitespace boundary, a suffix's positions are covered as they are in
      the suffix on its own. */
  lemma {:induction false} CoveredSuffix(a: string, b: string, m: nat)
    requires m < |b|
    requires a == [] || IsSpace(a[|a| - 1]) || IsSpace(b[0])
    ensures Covered(a + b, |a| + m) == Covered(b, m)
  {
    if m > 0 {
      CoveredSuffix(a, b, m - 1);
    }
  }

  /** Whitespace separates matches, so `capital` works word by word: the text on
      either side of a whitespace character is title-cased independently. */
  lemma CapitalConcat(a: string, b: string)
    requires a == [] || b == [] || IsSpace(a[|a| - 1]) || IsSpace(b[0])
    ensures Capital(a + b) == Capital(a) + Capital(b)
  {
    var s := a + b;
    CapitalAt(s);
    CapitalAt(a);
    CapitalAt(b);
    forall m | 0 <= m < |s|
      ensures Capital(s)[m] == (Capital(a) + Capital(b))[m]
    {
      if m < |a| {
        CoveredPrefix(a, b, m);
        if m > 0 {
          CoveredPrefix(a, b, m - 1);
        }
      } else {
        CoveredSuffix(a, b, m - |a|);
        if m > |a| {
          CoveredSuffix(a, b, m - |a| - 1);
        } else if m > 0 {
          CoveredPrefix(a, b, m - 1);
          assert IsSpace(a[|a| - 1]) || IsSpace(b[0]);
        }
      }
    }
  }

  /** Worked example: a single lower-case word is capitalised. */
  lemma CapitalWordExample(s: string)
    requires s == "tabby"
    ensures Capital(s) == "Tabby"
  {
    CapitalAt(s);
    assert Covered(s, 4);
  }

  /** Worked example: each word of a label is capitalised. */
  lemma CapitalWordsExample(s: string)
    requires s == "golden retriever"
    ensures Capital(s) == "Golden Retriever"
  {
    CapitalAt(s);
    assert Covered(s, 5) && !Covered(s, 6) && Covered(s, 15);
  }

  /** Worked example: a capital letter survives only at the start of a word. */
  lemma CapitalUpperExample(s: string)
    requires s == "EGYPTIAN CAT"
    ensures Capital(s) == "Egyptian Cat"
  {
    CapitalAt(s);
    assert Covered(s, 7) && !Covered(s, 8) && Covered(s, 11);
  }

  /** Worked example: a match starts at the first word character, so punctuation
      in front of a word is kept and the word after it is capitalised. */
  lemma CapitalPunctuationExample(s: string)
    requires s == "(abc"
    ensures Capital(s) == "(Abc"
  {
    CapitalAt(s);
    assert !Covered(s, 0) && Covered(s, 3);
  }
}
