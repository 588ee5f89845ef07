/** Title ordering: Python's str.lower followed by code-point lexicographic comparison. */
module TitleOrder {
  import opened Base

  /** Case folding of one character. Only ASCII letters are folded here; the proofs use
      nothing about this function beyond its being a function. */
  function LowerChar(c: char): char
  {
    if 'A' <= c <= 'Z' then (c as int + 32) as char else c
  }

  function Lower(s: string): (r: string)
    ensures |r| == |s|
  {
    if s == [] then [] else [LowerChar(s[0])] + Lower(s[1..])
  }

  /** The sort key of a row: its lower-cased title. */
  function Key(r: Row): string
  {
    Lower(r.title)
  }

  /** Python's `a < b` on strings: a proper prefix is smaller, otherwise the first
      differing character decides. */
  predicate Less(a: string, b: string)
    ensures Less(a, b) ==> b != [] && a != b
    decreases |a|
  {
    |b| > 0 && (|a| == 0 || a[0] < b[0] || (a[0] == b[0] && Less(a[1..], b[1..])))
  }

  /** `a <= b` */
  predicate LessEq(a: string, b: string)
  {
    !Less(b, a)
  }

  lemma {:induction false} LessIrreflexive(a: string)
    ensures !Less(a, a)
  {
    if |a| > 0 {
      LessIrreflexive(a[1..]);
    }
  }

  lemma {:induction false} LessTransitive(a: string, b: string, c: string)
    requires Less(a, b) && Less(b, c)
    ensures Less(a, c)
  {
    if |a| > 0 && a[0] == b[0] && b[0] == c[0] {
      LessTransitive(a[1..], b[1..], c[1..]);
    }
  }

  /** Exactly one of a < b, a == b, b < a holds. */
  lemma {:induction false} LessTrichotomy(a: string, b: string)
    ensures Less(a, b) || a == b || Less(b, a)
    ensures !(Less(a, b) && Less(b, a))
  {
    if |a| > 0 && |b| > 0 && a[0] == b[0] {
      LessTrichotomy(a[1..], b[1..]);
      if a[1..] == b[1..] {
        assert a == [a[0]] + a[1..] && b == [b[0]] + b[1..];
      }
    }
  }

  lemma LessEqTransitive(a: string, b: string, c: string)
    requires LessEq(a, b) && LessEq(b, c)
    ensures LessEq(a, c)
  {
    if Less(c, a) {
      LessTrichotomy(a, b);
      LessTrichotomy(b, c);
      if a == b {
      } else if b == c {
      } else {
        LessTransitive(a, b, c);
        LessTrichotomy(a, c);
      }
    }
  }

  lemma LessImpliesLessEq(a: string, b: string)
    requires Less(a, b)
    ensures LessEq(a, b) && a != b
  {
    LessTrichotomy(a, b);
    LessIrreflexive(a);
  }
}
