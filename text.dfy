/** The string operations of Python the scripts rely on: whitespace as `str.isspace`
    and the regular expression class `\s` see it, `strip`/`lstrip`, the whitespace
    normalisation `re.sub(r"\s+", " ", text).strip()`, `upper` and `startswith`. */
module Text {

  /** Python's whitespace characters (`str.isspace`, and `\s` in a `str` pattern). */
  predicate IsSpace(c: char)
  {
    c == ' ' || ('\t' <= c <= '\r') || ('\U{1c}' <= c <= '\U{1f}') ||
    c == '\U{85}' || c == '\U{a0}' || c == '\U{1680}' || ('\U{2000}' <= c <= '\U{200a}') ||
    c == '\U{2028}' || c == '\U{2029}' || c == '\U{202f}' || c == '\U{205f}' || c == '\U{3000}'
  }

  /** `str.lstrip()`: drops the leading whitespace. */
  function LStrip(s: string): (r: string)
    ensures |r| <= |s| && r == s[|s| - |r|..]
    ensures r == [] || !IsSpace(r[0])
    ensures forall i :: 0 <= i < |s| - |r| ==> IsSpace(s[i])
  {
    if s != [] && IsSpace(s[0]) then LStrip(s[1..]) else s
  }

  /** `str.rstrip()`: drops the trailing whitespace. */
  function RStrip(s: string): (r: string)
    ensures |r| <= |s| && r == s[..|r|]
    ensures r == [] || !IsSpace(r[|r| - 1])
    ensures forall i :: |r| <= i < |s| ==> IsSpace(s[i])
  {
    if s != [] && IsSpace(s[|s| - 1]) then RStrip(s[..|s| - 1]) else s
  }

  /** `str.strip()` */
  function Strip(s: string): string
  {
    RStrip(LStrip(s))
  }

  /** The length of the leading whitespace `lstrip` removes. */
  function Lead(s: string): nat
  {
    |s| - |LStrip(s)|
  }

  /** `str.strip()` removes whitespace at both ends and nothing else: the result is the
      slice of the input after `Lead(s)` characters, it starts and ends with a
      non-whitespace character, and everything cut off is whitespace. */
  lemma StripShape(s: string)
    ensures Lead(s) + |Strip(s)| <= |s| && Strip(s) == s[Lead(s)..Lead(s) + |Strip(s)|]
    ensures Strip(s) == [] || (!IsSpace(Strip(s)[0]) && !IsSpace(Strip(s)[|Strip(s)| - 1]))
    ensures forall i :: 0 <= i < Lead(s) ==> IsSpace(s[i])
    ensures forall i :: Lead(s) + |Strip(s)| <= i < |s| ==> IsSpace(s[i])
  {
    StripTail(s, LStrip(s), Lead(s));
  }

  lemma StripTail(s: string, l: string, a: nat)
    requires a <= |s| && l == s[a..]
    ensures a + |RStrip(l)| <= |s| && RStrip(l) == s[a..a + |RStrip(l)|]
    ensures forall i :: a + |RStrip(l)| <= i < |s| ==> IsSpace(s[i])
  {
    var r := RStrip(l);
    assert r == l[..|r|];
    forall i | a + |r| <= i < |s| ensures IsSpace(s[i]) {
      assert s[i] == l[i - a];
    }
  }

  /** A string strips to nothing exactly when all its characters are whitespace. */
  lemma StripEmpty(s: string)
    ensures Strip(s) == [] <==> forall i :: 0 <= i < |s| ==> IsSpace(s[i])
  {
    var l := LStrip(s);
    if Strip(s) != [] {
      StripShape(s);
    }
  }

  /** `re.sub(r"\s+", " ", s)`: every maximal run of whitespace becomes one space. */
  function Collapse(s: string): string
    decreases |s|
  {
    if s == [] then []
    else if IsSpace(s[0]) then [' '] + Collapse(LStrip(s))
    else [s[0]] + Collapse(s[1..])
  }

  /** The whitespace normalisation of the cleaners. */
  function Normalize(s: string): string
  {
    Strip(Collapse(s))
  }

  /** No two whitespace characters in a row, and the only whitespace is the plain space. */
  ghost predicate SingleSpaced(r: string)
  {
    (forall i :: 0 <= i < |r| && IsSpace(r[i]) ==> r[i] == ' ') &&
    (forall i :: 0 <= i < |r| - 1 ==> !IsSpace(r[i]) || !IsSpace(r[i + 1]))
  }

  /** A collapsed string begins with the first character of its input when that one is
      not whitespace. */
  lemma CollapseHead(s: string)
    requires s != [] && !IsSpace(s[0])
    ensures Collapse(s) != [] && Collapse(s)[0] == s[0]
  {
  }

  lemma {:induction false} CollapseSingleSpaced(s: string)
    ensures SingleSpaced(Collapse(s))
    decreases |s|
  {
    if s != [] {
      if IsSpace(s[0]) {
        var t := LStrip(s);
        CollapseSingleSpaced(t);
        if t != [] {
          CollapseHead(t);
        }
        assert Collapse(s) == [' '] + Collapse(t);
      } else {
        CollapseSingleSpaced(s[1..]);
        assert Collapse(s) == [s[0]] + Collapse(s[1..]);
      }
    }
  }

  /** A slice of a single-spaced string is single-spaced. */
  lemma SingleSpacedSlice(c: string, a: nat, b: nat)
    requires a <= b <= |c| && SingleSpaced(c)
    ensures SingleSpaced(c[a..b])
  {
    var r := c[a..b];
    assert forall i :: 0 <= i < |r| ==> r[i] == c[a + i];
  }

  /** Normalised text has no whitespace at either end and no run of two or more
      whitespace characters; what whitespace is left is plain spaces. */
  lemma NormalizeShape(s: string)
    ensures var r := Normalize(s);
      (r == [] || (!IsSpace(r[0]) && !IsSpace(r[|r| - 1]))) && SingleSpaced(r)
  {
    CollapseSingleSpaced(s);
    StripSingleSpaced(Collapse(s));
  }

  lemma StripSingleSpaced(c: string)
    requires SingleSpaced(c)
    ensures var r := Strip(c);
      (r == [] || (!IsSpace(r[0]) && !IsSpace(r[|r| - 1]))) && SingleSpaced(r)
  {
    StripShape(c);
    SingleSpacedSlice(c, Lead(c), Lead(c) + |Strip(c)|);
  }

  /** The characters of a string that are not whitespace, in order. */
  function Visible(s: string): (v: string)
    ensures |v| <= |s|
  {
    if s == [] then [] else if IsSpace(s[0]) then Visible(s[1..]) else [s[0]] + Visible(s[1..])
  }

  lemma {:induction false} VisibleAppend(a: string, b: string)
    ensures Visible(a + b) == Visible(a) + Visible(b)
  {
    if a != [] {
      VisibleAppend(a[1..], b);
      assert (a + b)[0] == a[0] && (a + b)[1..] == a[1..] + b;
    } else {
      assert a + b == b;
    }
  }

  lemma {:induction false} VisibleLStrip(s: string)
    ensures Visible(LStrip(s)) == Visible(s)
    decreases |s|
  {
    if s != [] && IsSpace(s[0]) {
      VisibleLStrip(s[1..]);
    }
  }

  lemma {:induction false} VisibleRStrip(s: string)
    ensures Visible(RStrip(s)) == Visible(s)
    decreases |s|
  {
    if s != [] && IsSpace(s[|s| - 1]) {
      var p := s[..|s| - 1];
      VisibleRStrip(p);
      assert s == p + [s[|s| - 1]];
      VisibleAppend(p, [s[|s| - 1]]);
    }
  }

  lemma {:induction false} VisibleCollapse(s: string)
    ensures Visible(Collapse(s)) == Visible(s)
    decreases |s|
  {
    if s != [] {
      if IsSpace(s[0]) {
        VisibleCollapse(LStrip(s));
        VisibleLStrip(s);
        assert Visible([' '] + Collapse(LStrip(s))) == Visible(Collapse(LStrip(s)));
      } else {
        VisibleCollapse(s[1..]);
        assert ([s[0]] + Collapse(s[1..]))[1..] == Collapse(s[1..]);
      }
    }
  }

  /** Normalisation changes only whitespace: the visible characters stay, in order. */
  lemma NormalizeKeepsVisible(s: string)
    ensures Visible(Normalize(s)) == Visible(s)
  {
    VisibleCollapse(s);
    VisibleLStrip(Collapse(s));
    VisibleRStrip(LStrip(Collapse(s)));
  }

  /** `str.upper` on one character. Lower-case letters of ASCII and Latin-1 map to their
      capitals; so do the characters elsewhere whose capital form holds ASCII letters:
      dotless 'ı' and long 'ſ' become one ASCII letter, while 'ß', the Latin ligatures and
      a few letters without a precomposed capital grow into several characters. Every
      other character is kept. */
  function UpperChar(c: char): (u: string)
    ensures |u| >= 1
    ensures c < '\U{80}' ==> |u| == 1 && ('a' <= c <= 'z' <==> 'A' <= u[0] <= 'Z' && u[0] != c)
  {
    if c < '\U{80}' then
      if 'a' <= c <= 'z' then [(c as int - 32) as char] else [c]
    else UpperWide(c)
  }

  /** `str.upper` on one character outside ASCII. */
  function UpperWide(c: char): (u: string)
    ensures |u| >= 1
  {
    if '\U{E0}' <= c <= '\U{FE}' && c != '\U{F7}' then [(c as int - 32) as char]
    else if c == '\U{B5}' then ['\U{39C}']
    else if c == '\U{FF}' then ['\U{178}']
    else if c == '\U{131}' then "I"
    else if c == '\U{17F}' then "S"
    else if c == '\U{DF}' then "SS"
    else if c == '\U{149}' then "\U{2BC}N"
    else if c == '\U{1F0}' then "J\U{30C}"
    else if c == '\U{1E96}' then "H\U{331}"
    else if c == '\U{1E97}' then "T\U{308}"
    else if c == '\U{1E98}' then "W\U{30A}"
    else if c == '\U{1E99}' then "Y\U{30A}"
    else if c == '\U{1E9A}' then "A\U{2BE}"
    else if c == '\U{FB00}' then "FF"
    else if c == '\U{FB01}' then "FI"
    else if c == '\U{FB02}' then "FL"
    else if c == '\U{FB03}' then "FFI"
    else if c == '\U{FB04}' then "FFL"
    else if c == '\U{FB05}' || c == '\U{FB06}' then "ST"
    else [c]
  }

  /** `str.upper`: never shorter than the text. */
  function Upper(s: string): (u: string)
    ensures |u| >= |s|
  {
    if s == [] then [] else UpperChar(s[0]) + Upper(s[1..])
  }

  /** `str.startswith` */
  predicate StartsWith(s: string, p: string)
  {
    |p| <= |s| && s[..|p|] == p
  }

  lemma {:induction false} UpperAppend(a: string, b: string)
    ensures Upper(a + b) == Upper(a) + Upper(b)
  {
    if a == [] {
      assert a + b == b;
    } else {
      assert (a + b)[0] == a[0] && (a + b)[1..] == a[1..] + b;
      UpperAppend(a[1..], b);
    }
  }

  /** On ASCII text, `str.upper` keeps the length and works character by character. */
  lemma {:induction false} UpperAscii(s: string)
    requires forall i :: 0 <= i < |s| ==> s[i] < '\U{80}'
    ensures |Upper(s)| == |s|
    ensures forall i :: 0 <= i < |s| ==> Upper(s)[i] == UpperChar(s[i])[0]
  {
    if s != [] {
      UpperAscii(s[1..]);
      assert Upper(s) == UpperChar(s[0]) + Upper(s[1..]);
    }
  }

  /** Both ASCII spellings of "#redirect" upper-case to "#REDIRECT". */
  lemma UpperRedirect(p: string)
    requires p == "#redirect" || p == "#REDIRECT"
    ensures Upper(p) == "#REDIRECT"
  {
    UpperAscii(p);
    var u := Upper(p);
    assert u[0] == '#' && u[1] == 'R' && u[2] == 'E' && u[3] == 'D' && u[4] == 'I';
    assert u[5] == 'R' && u[6] == 'E' && u[7] == 'C' && u[8] == 'T';
  }

  /** A text starting with "#redirect" or "#REDIRECT" upper-cases to one starting with
      "#REDIRECT". */
  lemma RedirectSpellings(s: string)
    ensures StartsWith(s, "#redirect") || StartsWith(s, "#REDIRECT") ==> StartsWith(Upper(s), "#REDIRECT")
  {
    if StartsWith(s, "#redirect") || StartsWith(s, "#REDIRECT") {
      var p := s[..9];
      assert s == p + s[9..];
      UpperAppend(p, s[9..]);
      UpperRedirect(p);
    }
  }

  /** Dotless 'ı' upper-cases to 'I'. */
  lemma UpperDotless()
    ensures Upper("\U{131}") == "I"
  {
    assert UpperChar('\U{131}') == "I";
    assert "\U{131}"[1..] == [];
  }

  lemma UpperRed()
    ensures Upper("#red") == "#RED"
  {
    UpperAscii("#red");
    var u := Upper("#red");
    assert u[0] == '#' && u[1] == 'R' && u[2] == 'E' && u[3] == 'D';
  }

  lemma UpperRect()
    ensures Upper("rect") == "RECT"
  {
    UpperAscii("rect");
    var u := Upper("rect");
    assert u[0] == 'R' && u[1] == 'E' && u[2] == 'C' && u[3] == 'T';
  }

  lemma UpperDotlessRedirect()
    ensures Upper("#red\U{131}rect") == "#REDIRECT"
  {
    var a, b, c: string := "#red", "\U{131}", "rect";
    assert a + b + c == "#red\U{131}rect";
    UpperAppend(a + b, c);
    UpperAppend(a, b);
    UpperRed();
    UpperDotless();
    UpperRect();
    assert "#RED" + "I" + "RECT" == "#REDIRECT";
  }

  /** `str in str`: `p` occurs somewhere in `s`. */
  predicate Contains(s: string, p: string)
  {
    StartsWith(s, p) || (s != [] && Contains(s[1..], p))
  }

  /** The pattern occurs in `s` at position `i`. */
  predicate MatchAt(s: string, pat: string, i: nat)
  {
    i + |pat| <= |s| && s[i..i + |pat|] == pat
  }

  /** `s.replace(pat, rep)`: every occurrence of `pat`, found left to right without
      overlapping, becomes `rep`. */
  function Replace(s: string, pat: string, rep: string): string
    requires pat != []
    decreases |s|
  {
    if |s| < |pat| then s
    else if s[..|pat|] == pat then rep + Replace(s[|pat|..], pat, rep)
    else [s[0]] + Replace(s[1..], pat, rep)
  }

  /** A prefix in which no occurrence of the pattern starts is copied unchanged. */
  lemma {:induction false} ReplaceSkip(a: string, b: string, pat: string, rep: string)
    requires pat != []
    requires forall i :: 0 <= i < |a| ==> !MatchAt(a + b, pat, i)
    ensures Replace(a + b, pat, rep) == a + Replace(b, pat, rep)
    decreases |a|
  {
    if a != [] {
      var s := a + b;
      assert !MatchAt(s, pat, 0);
      ReplaceStep(s, pat, rep);
      NoMatchShift(a, b, pat);
      ReplaceSkip(a[1..], b, pat, rep);
      assert s[1..] == a[1..] + b;
      assert [a[0]] + a[1..] == a;
    } else {
      assert a + b == b;
    }
  }

  /** Where no occurrence starts, the first character is copied. */
  lemma ReplaceStep(s: string, pat: string, rep: string)
    requires pat != [] && s != [] && !MatchAt(s, pat, 0)
    ensures Replace(s, pat, rep) == [s[0]] + Replace(s[1..], pat, rep)
  {
    if |s| < |pat| {
      assert Replace(s[1..], pat, rep) == s[1..];
      assert [s[0]] + s[1..] == s;
    } else {
      assert s[0..|pat|] == s[..|pat|];
    }
  }

  lemma NoMatchShift(a: string, b: string, pat: string)
    requires a != []
    requires forall i :: 0 <= i < |a| ==> !MatchAt(a + b, pat, i)
    ensures forall i :: 0 <= i < |a| - 1 ==> !MatchAt(a[1..] + b, pat, i)
  {
    var s := a + b;
    var t := a[1..] + b;
    assert t == s[1..];
    forall i | 0 <= i < |a| - 1 ensures !MatchAt(t, pat, i) {
      assert !MatchAt(s, pat, i + 1);
      if i + |pat| <= |t| {
        assert t[i..i + |pat|] == s[i + 1..i + 1 + |pat|];
      }
    }
  }

  /** A string shorter than the pattern, or one that is the pattern, is replaced as a
      whole or not at all. */
  lemma ReplaceWhole(pat: string, rep: string)
    requires pat != []
    ensures Replace(pat, pat, rep) == rep
  {
    assert pat[..|pat|] == pat;
    assert Replace(pat[|pat|..], pat, rep) == [];
  }
}
