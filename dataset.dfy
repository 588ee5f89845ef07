/** The fake-data generator of build_wikidict_full.py. Faker and `random` are parameters:
    `title(n)` is the title of the n-th draw, `size(k)` the byte target drawn for row k,
    and `text(k)(j)` the j-th piece of text drawn while building row k's value. */
module Dataset {
  import opened Base
  import opened Text

  // ----- generate_fake_value -----

  /** The leading run of non-whitespace characters of `s`. */
  function Word(s: string): (w: string)
    ensures |w| <= |s| && w == s[..|w|]
    ensures s != [] && !IsSpace(s[0]) ==> w != []
  {
    if s == [] || IsSpace(s[0]) then [] else [s[0]] + Word(s[1..])
  }

  /** `str.split()`: the maximal runs of non-whitespace characters, in order. */
  function Words(s: string): seq<string>
    decreases |s|
  {
    if s == [] then []
    else if IsSpace(s[0]) then Words(s[1..])
    else [Word(s)] + Words(s[|Word(s)|..])
  }

  /** `' '.join(parts)` */
  function Join(parts: seq<string>): string
  {
    if parts == [] then [] else if |parts| == 1 then parts[0] else parts[0] + " " + Join(parts[1..])
  }

  /** The clean-up of one drawn text: both line breaks become spaces, then
      `' '.join(text.split())` collapses the whitespace. */
  function Sanitize(t: string): (r: string)
    ensures '\n' !in r && '\r' !in r
  {
    var s := Replace(Replace(t, "\n", " "), "\r", " ");
    WordsShape(s);
    JoinWords(Words(s));
    assert IsSpace('\n') && IsSpace('\r');
    Join(Words(s))
  }

  /** No whitespace in a string. */
  ghost predicate Solid(w: string)
  {
    forall i :: 0 <= i < |w| ==> !IsSpace(w[i])
  }

  lemma {:induction false} WordSolid(s: string)
    ensures Solid(Word(s))
  {
    if s != [] && !IsSpace(s[0]) {
      WordSolid(s[1..]);
    }
  }

  /** The visible characters of a text are its first word followed by the visible
      characters after it. */
  lemma {:induction false} VisibleWord(s: string)
    ensures Visible(s) == Word(s) + Visible(s[|Word(s)|..])
  {
    if s != [] && !IsSpace(s[0]) {
      VisibleWord(s[1..]);
      assert s[1..][|Word(s[1..])|..] == s[|Word(s)|..];
    }
  }

  /** `split` yields non-empty words without whitespace, holding together every visible
      character of the text. */
  lemma {:induction false} WordsShape(s: string)
    ensures forall i :: 0 <= i < |Words(s)| ==> Words(s)[i] != [] && Solid(Words(s)[i])
    ensures Concat(Words(s)) == Visible(s)
    decreases |s|
  {
    if s != [] {
      if IsSpace(s[0]) {
        WordsShape(s[1..]);
      } else {
        var w := Word(s);
        WordSolid(s);
        VisibleWord(s);
        WordsShape(s[|w|..]);
        assert Concat([w] + Words(s[|w|..])) == w + Concat(Words(s[|w|..]));
      }
    }
  }

  /** Joining whitespace-free words with single spaces keeps their characters, adds only
      spaces, and gives nothing only when there is nothing to join. */
  lemma {:induction false} JoinWords(ws: seq<string>)
    requires forall i :: 0 <= i < |ws| ==> ws[i] != [] && Solid(ws[i])
    ensures Visible(Join(ws)) == Concat(ws)
    ensures forall i :: 0 <= i < |Join(ws)| && IsSpace(Join(ws)[i]) ==> Join(ws)[i] == ' '
    ensures Join(ws) == [] <==> ws == []
  {
    if |ws| == 1 {
      VisibleSolid(ws[0]);
      assert Concat(ws) == ws[0] + Concat(ws[1..]);
    } else if |ws| > 1 {
      JoinWords(ws[1..]);
      VisibleSolid(ws[0]);
      VisibleAppend(ws[0] + " ", Join(ws[1..]));
      VisibleAppend(ws[0], " ");
      assert Concat(ws) == ws[0] + Concat(ws[1..]);
      var j := Join(ws);
      assert j == ws[0] + " " + Join(ws[1..]);
      forall i | 0 <= i < |j| ensures IsSpace(j[i]) ==> j[i] == ' ' {
        if i < |ws[0]| {
          assert j[i] == ws[0][i];
        } else if i > |ws[0]| {
          assert j[i] == Join(ws[1..])[i - |ws[0]| - 1];
        }
      }
    }
  }

  /** A string without whitespace is all visible. */
  lemma {:induction false} VisibleSolid(w: string)
    requires Solid(w)
    ensures Visible(w) == w
  {
    if w != [] {
      VisibleSolid(w[1..]);
    }
  }

  /** Replacing a whitespace character by a space changes no visible character. */
  lemma {:induction false} ReplaceSpaceVisible(s: string, c: char)
    requires IsSpace(c)
    ensures Visible(Replace(s, [c], " ")) == Visible(s)
    decreases |s|
  {
    if |s| >= 1 {
      ReplaceSpaceVisible(s[1..], c);
      if s[..1] == [c] {
        assert s[0] == c;
        assert Replace(s, [c], " ") == " " + Replace(s[1..], [c], " ");
      } else {
        assert Replace(s, [c], " ") == [s[0]] + Replace(s[1..], [c], " ");
        assert ([s[0]] + Replace(s[1..], [c], " "))[1..] == Replace(s[1..], [c], " ");
      }
    }
  }

  /** The clean-up changes only whitespace: the visible characters of the text stay, in
      order, the only whitespace left is the plain space (so no line break), and a text
      cleans up to nothing exactly when it has no visible character. */
  lemma SanitizeShape(t: string)
    ensures Visible(Sanitize(t)) == Visible(t)
    ensures forall i :: 0 <= i < |Sanitize(t)| && IsSpace(Sanitize(t)[i]) ==> Sanitize(t)[i] == ' '
    ensures Sanitize(t) == [] <==> Visible(t) == []
  {
    var s1 := Replace(t, "\n", " ");
    var s2 := Replace(s1, "\r", " ");
    ReplaceSpaceVisible(t, '\n');
    ReplaceSpaceVisible(s1, '\r');
    WordsShape(s2);
    JoinWords(Words(s2));
    if Words(s2) != [] {
      assert Concat(Words(s2)) == Words(s2)[0] + Concat(Words(s2)[1..]);
    }
  }

  /** Every text the generator can draw has a visible character; otherwise
      `generate_fake_value` would never reach its size. */
  ghost predicate Productive(text: nat -> string)
  {
    forall j :: Visible(text(j)) != []
  }

  /** Each draw of a productive generator cleans up to something. */
  lemma PieceNonEmpty(text: nat -> string, j: nat)
    requires Productive(text)
    ensures Sanitize(text(j)) != []
  {
    SanitizeShape(text(j));
  }

  /** The cleaned parts `generate_fake_value` collects from the j-th draw on while
      fewer than `size` characters have been collected. */
  function Parts(size: int, text: nat -> string, j: nat): seq<string>
    requires Productive(text)
    decreases size
  {
    if size <= 0 then []
    else PieceNonEmpty(text, j); [Sanitize(text(j))] + Parts(size - |Sanitize(text(j))|, text, j + 1)
  }

  /** The value `generate_fake_value(size)` returns. */
  function FakeValue(size: int, text: nat -> string): string
    requires Productive(text)
  {
    Join(Parts(size, text, 0))
  }

  /** The parts reach the size target. */
  lemma {:induction false} PartsReachSize(size: int, text: nat -> string, j: nat)
    requires Productive(text)
    ensures TotalLen(Parts(size, text, j)) >= size
    decreases size
  {
    if size > 0 {
      var p := Sanitize(text(j));
      PieceNonEmpty(text, j);
      var rest := Parts(size - |p|, text, j + 1);
      PartsReachSize(size - |p|, text, j + 1);
      assert Concat([p] + rest) == p + Concat(rest);
    }
  }

  /** The last part was needed: the parts before it fall short of the size target. */
  lemma {:induction false} PartsStopEarly(size: int, text: nat -> string, j: nat)
    requires Productive(text)
    ensures var ps := Parts(size, text, j);
      ps != [] ==> TotalLen(ps[..|ps| - 1]) < size
    decreases size
  {
    if size > 0 {
      var p := Sanitize(text(j));
      PieceNonEmpty(text, j);
      var rest := Parts(size - |p|, text, j + 1);
      var ps := [p] + rest;
      PartsStopEarly(size - |p|, text, j + 1);
      if rest != [] {
        var front := rest[..|rest| - 1];
        assert ps[..|ps| - 1] == [p] + front;
        assert Concat([p] + front) == p + Concat(front);
      } else {
        assert ps[..|ps| - 1] == [];
      }
    }
  }

  /** Joining parts without line breaks gives a value without line breaks. */
  lemma {:induction false} JoinNoLineBreak(parts: seq<string>)
    requires forall i :: 0 <= i < |parts| ==> '\n' !in parts[i] && '\r' !in parts[i]
    ensures '\n' !in Join(parts) && '\r' !in Join(parts)
  {
    if |parts| > 1 {
      JoinNoLineBreak(parts[1..]);
    }
  }

  /** The parts are cleaned texts. */
  lemma {:induction false} PartsClean(size: int, text: nat -> string, j: nat)
    requires Productive(text)
    ensures forall i :: 0 <= i < |Parts(size, text, j)| ==>
      '\n' !in Parts(size, text, j)[i] && '\r' !in Parts(size, text, j)[i]
    decreases size
  {
    if size > 0 {
      PieceNonEmpty(text, j);
      PartsClean(size - |Sanitize(text(j))|, text, j + 1);
    }
  }

  /** A generated value is a single CSV-friendly line. */
  lemma FakeValueOneLine(size: int, text: nat -> string)
    requires Productive(text)
    ensures '\n' !in FakeValue(size, text) && '\r' !in FakeValue(size, text)
  {
    PartsClean(size, text, 0);
    JoinNoLineBreak(Parts(size, text, 0));
  }

  /** `generate_fake_value(size_bytes)`: draws texts while fewer than `size` characters
      are collected, cleans each up, and joins them with single spaces. */
  method GenerateFakeValue(size: nat, text: nat -> string) returns (value: string)
    requires Productive(text)
    ensures value == FakeValue(size, text)
    ensures '\n' !in value && '\r' !in value
  {
    var valueParts: seq<string> := [];
    var currentSize := 0;
    var j := 0;
    while currentSize < size
      invariant valueParts + Parts(size - currentSize, text, j) == Parts(size, text, 0)
      decreases size - currentSize
    {
      var t := text(j);
      t := Replace(Replace(t, "\n", " "), "\r", " ");
      t := Join(Words(t));
      assert t == Sanitize(text(j));
      PieceNonEmpty(text, j);
      assert Parts(size - currentSize, text, j) == [t] + Parts(size - (currentSize + |t|), text, j + 1);
      valueParts := valueParts + [t];
      currentSize := currentSize + |t|;
      j := j + 1;
    }
    assert valueParts == Parts(size, text, 0);
    value := Join(valueParts);
    FakeValueOneLine(size, text);
  }

  // ----- generate_unsorted_dataset -----

  /** The distinct titles among the first `n` draws, in the order they were first drawn. */
  function Unique(title: nat -> string, n: nat): seq<string>
  {
    if n == 0 then []
    else if title(n - 1) in Unique(title, n - 1) then Unique(title, n - 1)
    else Unique(title, n - 1) + [title(n - 1)]
  }

  /** The kept titles are pairwise distinct. */
  lemma {:induction false} UniqueDistinct(title: nat -> string, n: nat)
    ensures Distinct(Unique(title, n))
  {
    if n > 0 {
      UniqueDistinct(title, n - 1);
    }
  }

  /** A title is kept exactly when it was drawn. */
  lemma {:induction false} UniqueDrawn(title: nat -> string, n: nat, t: string)
    ensures t in Unique(title, n) <==> exists i :: 0 <= i < n && title(i) == t
  {
    if n > 0 {
      UniqueDrawn(title, n - 1, t);
      if title(n - 1) == t {
        assert exists i :: 0 <= i < n && title(i) == t;
      }
      if exists i :: 0 <= i < n && title(i) == t {
        var i :| 0 <= i < n && title(i) == t;
        if i < n - 1 {
          assert exists i :: 0 <= i < n - 1 && title(i) == t;
        }
      }
    }
  }

  /** The number of draws `generate_unsorted_dataset` makes, from `n` draws on: it stops
      once `numRows` titles are kept or after `10 * numRows` draws. */
  function StopAt(title: nat -> string, numRows: nat, n: nat): (stop: nat)
    ensures n <= stop || n >= 10 * numRows
    decreases 10 * numRows - n
  {
    if n >= 10 * numRows || |Unique(title, n)| >= numRows then n
    else StopAt(title, numRows, n + 1)
  }

  /** The rows written for the kept titles `ts`: row k pairs the k-th title with the
      value generated for row k. */
  function RowsFor(ts: seq<string>, size: nat -> nat, text: nat -> nat -> string): (rows: seq<Row>)
    requires forall k :: Productive(text(k))
    ensures |rows| == |ts|
  {
    seq(|ts|, k requires 0 <= k < |ts| => Row(ts[k], FakeValue(size(k), text(k))))
  }

  /** The rows `generate_unsorted_dataset(num_rows)` writes below the header. */
  function Generated(numRows: nat, title: nat -> string, size: nat -> nat, text: nat -> nat -> string): seq<Row>
    requires forall k :: Productive(text(k))
  {
    RowsFor(Unique(title, StopAt(title, numRows, 0)), size, text)
  }

  /** The draws stop at the first point where enough titles are kept, never later than
      `10 * numRows` draws. */
  lemma {:induction false} StopAtFirst(title: nat -> string, numRows: nat, n: nat)
    requires n <= 10 * numRows
    ensures var stop := StopAt(title, numRows, n);
      n <= stop <= 10 * numRows && (stop == 10 * numRows || |Unique(title, stop)| >= numRows) &&
      forall m :: n <= m < stop ==> |Unique(title, m)| < numRows
    decreases 10 * numRows - n
  {
    if n < 10 * numRows && |Unique(title, n)| < numRows {
      StopAtFirst(title, numRows, n + 1);
    }
  }

  /** The generated table: titles pairwise distinct, at most `numRows` rows, exactly
      `numRows` unless the `10 * numRows` draws ran out, and every value on one line. */
  lemma GeneratedShape(numRows: nat, title: nat -> string, size: nat -> nat, text: nat -> nat -> string)
    requires forall k :: Productive(text(k))
    ensures var rows := Generated(numRows, title, size, text);
      Distinct(Titles(rows)) && |rows| <= numRows &&
      (|rows| == numRows || StopAt(title, numRows, 0) == 10 * numRows) &&
      forall k :: 0 <= k < |rows| ==> '\n' !in rows[k].value && '\r' !in rows[k].value
  {
    var stop := StopAt(title, numRows, 0);
    var rows := Generated(numRows, title, size, text);
    StopAtFirst(title, numRows, 0);
    UniqueDistinct(title, stop);
    assert Titles(rows) == Unique(title, stop);
    if stop > 0 {
      UniqueStep(title, stop - 1);
    }
    forall k | 0 <= k < |rows| ensures '\n' !in rows[k].value && '\r' !in rows[k].value {
      FakeValueOneLine(size(k), text(k));
    }
  }

  /** One more draw keeps at most one more title. */
  lemma UniqueStep(title: nat -> string, n: nat)
    ensures |Unique(title, n + 1)| <= |Unique(title, n)| + 1
  {
  }

  /** Writing one more kept title appends its row. */
  lemma RowsForAppend(ts: seq<string>, t: string, size: nat -> nat, text: nat -> nat -> string)
    requires forall k :: Productive(text(k))
    ensures RowsFor(ts + [t], size, text) == RowsFor(ts, size, text) + [Row(t, FakeValue(size(|ts|), text(|ts|)))]
  {
    var a, b := RowsFor(ts + [t], size, text), RowsFor(ts, size, text) + [Row(t, FakeValue(size(|ts|), text(|ts|)))];
    assert forall k :: 0 <= k < |a| ==> a[k] == b[k];
  }

  /** What the loop has built after `n` draws: the rows of the titles kept so far, and
      the set of the titles seen. */
  ghost predicate DrawnSoFar(rows: seq<Row>, seen: set<string>, title: nat -> string, n: nat,
                             size: nat -> nat, text: nat -> nat -> string)
    requires forall k :: Productive(text(k))
  {
    rows == RowsFor(Unique(title, n), size, text) && seen == Members(Unique(title, n))
  }

  /** One draw: a title already seen is skipped; a new one is written with the value
      generated for the next row, and joins the seen set. */
  lemma DrawStep(rows: seq<Row>, seen: set<string>, title: nat -> string, n: nat,
                 size: nat -> nat, text: nat -> nat -> string)
    requires forall k :: Productive(text(k))
    requires DrawnSoFar(rows, seen, title, n, size, text)
    ensures title(n) in seen ==> DrawnSoFar(rows, seen, title, n + 1, size, text)
    ensures title(n) !in seen ==> DrawnSoFar(rows + [Row(title(n), FakeValue(size(|rows|), text(|rows|)))],
      seen + {title(n)}, title, n + 1, size, text)
  {
    if title(n) !in seen {
      RowsForAppend(Unique(title, n), title(n), size, text);
    }
  }

  /** The titles of a list, as a set. */
  function Members(ts: seq<string>): set<string>
  {
    set t | t in ts
  }

  /** A round of the loop that does not stop it leaves the stopping point where it was. */
  lemma StopAtStep(title: nat -> string, numRows: nat, n: nat)
    requires n < 10 * numRows && |Unique(title, n)| < numRows
    ensures StopAt(title, numRows, n + 1) == StopAt(title, numRows, n)
  {
  }

  /** Where the loop condition fails, the draws stop. */
  lemma StopAtExit(title: nat -> string, numRows: nat, n: nat)
    requires |Unique(title, n)| >= numRows || n >= 10 * numRows
    ensures StopAt(title, numRows, n) == n
  {
  }

  /** `generate_unsorted_dataset(output_file, num_rows)`: draws titles until `num_rows`
      distinct ones are kept or `num_rows * 10` draws are made, skipping titles already
      seen, and writes a generated value with each kept title. `attempts` grows on every
      round, which bounds the loop. */
  method GenerateUnsortedDataset(numRows: nat, title: nat -> string, size: nat -> nat, text: nat -> nat -> string)
    returns (rows: seq<Row>, attempts: nat)
    requires forall k :: Productive(text(k))
    ensures rows == Generated(numRows, title, size, text)
    ensures attempts == StopAt(title, numRows, 0) && attempts <= 10 * numRows
  {
    var seenTitles: set<string> := {};
    attempts := 0;
    var maxAttempts := numRows * 10;
    var rowCount := 0;
    rows := [];
    while rowCount < numRows && attempts < maxAttempts
      invariant attempts <= maxAttempts
      invariant StopAt(title, numRows, attempts) == StopAt(title, numRows, 0)
      invariant DrawnSoFar(rows, seenTitles, title, attempts, size, text) && rowCount == |rows|
      decreases maxAttempts - attempts
    {
      StopAtStep(title, numRows, attempts);
      rows, seenTitles := DrawOnce(rows, seenTitles, title, attempts, size, text);
      rowCount := |rows|;
      attempts := attempts + 1;
    }
    StopAtExit(title, numRows, attempts);
  }

  /** One round of the loop of `generate_unsorted_dataset`: a title already seen is
      skipped; a new one joins the seen set and is written with a generated value. */
  method DrawOnce(rows: seq<Row>, seen: set<string>, title: nat -> string, n: nat,
                  size: nat -> nat, text: nat -> nat -> string)
    returns (rows': seq<Row>, seen': set<string>)
    requires forall k :: Productive(text(k))
    requires DrawnSoFar(rows, seen, title, n, size, text)
    ensures DrawnSoFar(rows', seen', title, n + 1, size, text)
  {
    var t := title(n);
    DrawStep(rows, seen, title, n, size, text);
    if t in seen {
      return rows, seen;
    }
    var value := GenerateFakeValue(size(|rows|), text(|rows|));
    rows', seen' := rows + [Row(t, value)], seen + {t};
  }
}
