/** The byte-offset index (`index.json`): for each title, where its line starts in
    `data.csv` and how long it is. `create_index` in build_wikidict_full.py rebuilds it
    by reading the file line by line; `update_wikidict` in build_wikidict.py records it
    while writing. Positions are `tell()` values; one character counts as one byte. */
module ByteIndex {
  import opened Base
  import opened RowCodec

  /** One index value: `{"offset": ..., "length": ...}`. */
  datatype Span = Span(offset: nat, length: nat)

  /** An assignment `index[title] = span`, in the order the builders make them. */
  datatype Located = Located(title: string, span: Span)

  /** The index dict after making the assignments in order: a later one for the same
      title replaces the earlier. */
  function Assign(es: seq<Located>): (index: map<string, Span>)
    ensures |index| <= |es|
  {
    if es == [] then map[]
    else Assign(es[..|es| - 1])[es[|es| - 1].title := es[|es| - 1].span]
  }

  function TitlesOf(es: seq<Located>): seq<string>
  {
    seq(|es|, i requires 0 <= i < |es| => es[i].title)
  }

  /** A title is indexed iff some assignment is for it. */
  lemma {:induction false} AssignKeys(es: seq<Located>, t: string)
    ensures t in Assign(es) <==> exists i :: 0 <= i < |es| && es[i].title == t
  {
    if es != [] {
      var init := es[..|es| - 1];
      AssignKeys(init, t);
      if t in Assign(init) {
        var i :| 0 <= i < |init| && init[i].title == t;
        assert es[i].title == t;
      }
      if exists i :: 0 <= i < |es| && es[i].title == t {
        var i :| 0 <= i < |es| && es[i].title == t;
        if i < |init| {
          assert init[i].title == t;
        }
      }
    }
  }

  /** A title's entry is the span of its last assignment. */
  lemma {:induction false} AssignLastWins(es: seq<Located>, i: nat)
    requires i < |es|
    requires forall j :: i < j < |es| ==> es[j].title != es[i].title
    ensures es[i].title in Assign(es) && Assign(es)[es[i].title] == es[i].span
  {
    if i < |es| - 1 {
      var init := es[..|es| - 1];
      assert init[i] == es[i];
      AssignLastWins(init, i);
    }
  }

  /** The index has one entry per assignment exactly when the titles are pairwise
      distinct, and never more. */
  lemma {:induction false} AssignSize(es: seq<Located>)
    ensures |Assign(es)| <= |es|
    ensures |Assign(es)| == |es| <==> Distinct(TitlesOf(es))
  {
    if es != [] {
      var init, e := es[..|es| - 1], es[|es| - 1];
      var m := Assign(init);
      AssignSize(init);
      AssignKeys(init, e.title);
      assert Assign(es).Keys == m.Keys + {e.title};
      assert TitlesOf(es) == TitlesOf(init) + [e.title];
      if e.title in m {
        var i :| 0 <= i < |init| && init[i].title == e.title;
        assert TitlesOf(es)[i] == TitlesOf(es)[|es| - 1];
        assert |Assign(es)| == |m|;
      } else {
        assert |Assign(es)| == |m| + 1;
        if Distinct(TitlesOf(init)) {
          forall i, j | 0 <= i < j < |es| ensures TitlesOf(es)[i] != TitlesOf(es)[j] {
            if j == |es| - 1 {
              assert init[i].title == TitlesOf(es)[i];
            } else {
              assert TitlesOf(init)[i] != TitlesOf(init)[j];
            }
          }
        } else {
          var i, j :| 0 <= i < j < |init| && TitlesOf(init)[i] == TitlesOf(init)[j];
          assert TitlesOf(es)[i] == TitlesOf(es)[j];
        }
      }
    }
  }

  /** The position `readline` stops at: just past the next '\n', or the end of the file. */
  function LineEnd(f: string, pos: nat): (e: nat)
    requires pos <= |f|
    ensures pos <= e <= |f|
    ensures pos < |f| ==> pos < e
    decreases |f| - pos
  {
    if pos == |f| then pos
    else if f[pos] == '\n' then pos + 1
    else LineEnd(f, pos + 1)
  }

  /** `readline` returns one line: no '\n' before its last byte, and a '\n' as its last
      byte unless it stops at the end of the file. */
  lemma {:induction false} LineEndShape(f: string, pos: nat)
    requires pos <= |f|
    ensures var e := LineEnd(f, pos);
      (forall k :: pos <= k < e - 1 ==> f[k] != '\n') &&
      (e < |f| ==> f[e - 1] == '\n')
    decreases |f| - pos
  {
    if pos < |f| && f[pos] != '\n' {
      LineEndShape(f, pos + 1);
    }
  }

  /** `readline` from `pos` stops at the first '\n'. */
  lemma {:induction false} LineEndAt(f: string, pos: nat, e: nat)
    requires pos < e <= |f| && f[e - 1] == '\n'
    requires forall k :: pos <= k < e - 1 ==> f[k] != '\n'
    ensures LineEnd(f, pos) == e
    decreases e - pos
  {
    if pos < e - 1 {
      LineEndAt(f, pos + 1, e);
    }
  }

  /** The spans of the lines successive `readline` calls return from `pos` on. */
  function LineSpans(f: string, pos: nat): seq<Span>
    requires pos <= |f|
    decreases |f| - pos
  {
    if pos == |f| then []
    else
      var e := LineEnd(f, pos);
      [Span(pos, e - pos)] + LineSpans(f, e)
  }

  /** Every span lies inside the file. */
  predicate Within(f: string, sp: seq<Span>)
  {
    forall i :: 0 <= i < |sp| ==> sp[i].offset + sp[i].length <= |f|
  }

  /** The bytes of a span. */
  function Slice(f: string, s: Span): string
    requires s.offset + s.length <= |f|
  {
    f[s.offset..s.offset + s.length]
  }

  /** The line spans tile the file from `pos` to its end: none is empty, the first
      starts at `pos`, each next one where the previous ends, and the last ends at the
      end of the file. */
  lemma {:induction false} LineSpansTile(f: string, pos: nat)
    requires pos <= |f|
    ensures var sp := LineSpans(f, pos);
      Within(f, sp) &&
      (sp == [] <==> pos == |f|) &&
      (sp != [] ==> sp[0].offset == pos && sp[|sp| - 1].offset + sp[|sp| - 1].length == |f|) &&
      (forall i :: 0 < i < |sp| ==> sp[i].offset == sp[i - 1].offset + sp[i - 1].length) &&
      (forall i :: 0 <= i < |sp| ==> sp[i].length > 0 && pos <= sp[i].offset)
    decreases |f| - pos
  {
    if pos < |f| {
      var e := LineEnd(f, pos);
      LineSpansTile(f, e);
      var sp, rest := LineSpans(f, pos), LineSpans(f, e);
      assert sp == [Span(pos, e - pos)] + rest;
      forall i | 0 < i < |sp| ensures sp[i].offset == sp[i - 1].offset + sp[i - 1].length {
        assert sp[i] == rest[i - 1];
        if i > 1 {
          assert sp[i - 1] == rest[i - 2];
        }
      }
      if e < |f| {
        assert sp[|sp| - 1] == rest[|rest| - 1];
      }
    }
  }

  /** Each span is one line: a '\n' only as its last byte, and as its last byte unless
      it is the last span of the file. */
  lemma {:induction false} LineSpansAreLines(f: string, pos: nat, i: nat)
    requires pos <= |f| && i < |LineSpans(f, pos)|
    ensures var s := LineSpans(f, pos)[i];
      s.length > 0 && s.offset + s.length <= |f| &&
      (forall k :: s.offset <= k < s.offset + s.length - 1 ==> f[k] != '\n') &&
      (i < |LineSpans(f, pos)| - 1 ==> f[s.offset + s.length - 1] == '\n')
    decreases |f| - pos
  {
    var e := LineEnd(f, pos);
    if i == 0 {
      LineEndShape(f, pos);
      if |LineSpans(f, pos)| > 1 {
        assert e < |f|;
      }
    } else {
      assert LineSpans(f, pos) == [Span(pos, e - pos)] + LineSpans(f, e);
      LineSpansAreLines(f, e, i - 1);
      assert LineSpans(f, pos)[i] == LineSpans(f, e)[i - 1];
    }
  }

  /** The assignments `create_index` makes for the lines at `sp`: one per line whose
      title can be read, none for the others. */
  function Parsed(f: string, sp: seq<Span>): (es: seq<Located>)
    requires Within(f, sp)
    ensures |es| <= |sp|
  {
    if sp == [] then []
    else
      var s := sp[|sp| - 1];
      var init := Parsed(f, sp[..|sp| - 1]);
      match ParseTitle(Slice(f, s))
      case Some(t) => init + [Located(t, s)]
      case None => init
  }

  /** Every assignment `create_index` makes is for a readable line, with that line's
      title and span, and in file order. */
  lemma {:induction false} ParsedSound(f: string, sp: seq<Span>, k: nat)
    requires Within(f, sp) && k < |Parsed(f, sp)|
    ensures exists i :: (0 <= i < |sp| && Parsed(f, sp)[k].span == sp[i] &&
      ParseTitle(Slice(f, sp[i])) == Some(Parsed(f, sp)[k].title))
  {
    var init := sp[..|sp| - 1];
    var s := sp[|sp| - 1];
    if k < |Parsed(f, init)| {
      ParsedSound(f, init, k);
      var i :| 0 <= i < |init| && Parsed(f, init)[k].span == init[i] &&
        ParseTitle(Slice(f, init[i])) == Some(Parsed(f, init)[k].title);
      assert sp[i] == init[i];
    } else {
      assert Parsed(f, sp)[k] == Located(ParseTitle(Slice(f, s)).value, s);
    }
  }

  /** Every readable line gets an assignment. */
  lemma {:induction false} ParsedComplete(f: string, sp: seq<Span>, i: nat)
    requires Within(f, sp) && i < |sp| && ParseTitle(Slice(f, sp[i])).Some?
    ensures exists k :: (0 <= k < |Parsed(f, sp)| &&
      Parsed(f, sp)[k] == Located(ParseTitle(Slice(f, sp[i])).value, sp[i]))
  {
    var init := sp[..|sp| - 1];
    if i < |init| {
      ParsedComplete(f, init, i);
      var k :| 0 <= k < |Parsed(f, init)| &&
        Parsed(f, init)[k] == Located(ParseTitle(Slice(f, init[i])).value, init[i]);
      assert Parsed(f, sp)[k] == Parsed(f, init)[k];
    } else {
      assert Parsed(f, sp)[|Parsed(f, sp)| - 1] == Located(ParseTitle(Slice(f, sp[i])).value, sp[i]);
    }
  }

  /** The state of `create_index`'s read loop: the lines before `pos` are `done`, and
      the index and row count are those of their assignments. */
  ghost predicate Scanned(f: string, headerEnd: nat, done: seq<Span>, pos: nat,
                          index: map<string, Span>, rowCount: nat)
  {
    headerEnd <= pos <= |f| &&
    LineSpans(f, headerEnd) == done + LineSpans(f, pos) &&
    Within(f, done) &&
    index == Assign(Parsed(f, done)) && rowCount == |Parsed(f, done)|
  }

  /** Reading one more line keeps `Scanned`. */
  lemma ScanStep(f: string, headerEnd: nat, done: seq<Span>, pos: nat,
                 index: map<string, Span>, rowCount: nat, index': map<string, Span>, rowCount': nat)
    requires Scanned(f, headerEnd, done, pos, index, rowCount) && pos < |f|
    requires var e := LineEnd(f, pos);
      var t := ParseTitle(f[pos..e]);
      index' == (if t.Some? then index[t.value := Span(pos, e - pos)] else index) &&
      rowCount' == (if t.Some? then rowCount + 1 else rowCount)
    ensures var e := LineEnd(f, pos);
      Scanned(f, headerEnd, done + [Span(pos, e - pos)], e, index', rowCount')
  {
    var e := LineEnd(f, pos);
    var span := Span(pos, e - pos);
    var done' := done + [span];
    assert done'[..|done|] == done;
    LineSpansUnfold(f, pos);
    assert done + LineSpans(f, pos) == done' + LineSpans(f, e);
    assert Slice(f, span) == f[pos..e];
  }

  /** `create_index`: skips the header line, then reads the file line by line and
      assigns `index[title] = {offset, length}` for every line whose title can be
      read. `rowCount` is `row_count`. */
  method CreateIndex(f: string) returns (index: map<string, Span>, rowCount: nat)
    ensures var sp := LineSpans(f, LineEnd(f, 0));
      Within(f, sp) && index == Assign(Parsed(f, sp)) && rowCount == |Parsed(f, sp)|
  {
    var headerEnd := LineEnd(f, 0);
    index, rowCount := map[], 0;
    var pos := headerEnd;
    ghost var done: seq<Span> := [];
    while pos < |f|
      invariant Scanned(f, headerEnd, done, pos, index, rowCount)
      decreases |f| - pos
    {
      var rowEnd := LineEnd(f, pos);
      var span := Span(pos, rowEnd - pos);
      var title := ParseTitle(f[pos..rowEnd]);
      ghost var (index0, rowCount0) := (index, rowCount);
      if title.Some? {
        index := index[title.value := span];
        rowCount := rowCount + 1;
      }
      ScanStep(f, headerEnd, done, pos, index0, rowCount0, index, rowCount);
      done, pos := done + [span], rowEnd;
    }
    assert done == LineSpans(f, headerEnd);
  }

  /** A line as `readline` returns it when it is not the last of the file: non-empty,
      ending in '\n', and with no other '\n'. */
  predicate IsLine(l: string)
  {
    l != [] && l[|l| - 1] == '\n' && forall i :: 0 <= i < |l| - 1 ==> l[i] != '\n'
  }

  /** The spans of `lines` written one after another from byte `start` on: each starts
      where the previous ends. */
  function Offsets(start: nat, lines: seq<string>): (sp: seq<Span>)
    ensures |sp| == |lines|
    decreases |lines|
  {
    if lines == [] then []
    else [Span(start, |lines[0]|)] + Offsets(start + |lines[0]|, lines[1..])
  }

  /** Each span starts after all the lines before it. */
  lemma {:induction false} OffsetsAt(start: nat, lines: seq<string>, i: nat)
    requires i < |lines|
    ensures Offsets(start, lines)[i] == Span(start + |Concat(lines[..i])|, |lines[i]|)
    decreases i
  {
    if i == 0 {
      assert lines[..0] == [];
    } else {
      OffsetsAt(start + |lines[0]|, lines[1..], i - 1);
      var p := lines[..i];
      assert p[0] == lines[0] && p[1..] == lines[1..][..i - 1];
    }
  }

  /** The spans of written lines are prefix sums of the line lengths: the first starts
      at `start`, each next one where the previous ends, and the last ends where the
      written text ends. */
  lemma {:induction false} OffsetsContiguous(start: nat, lines: seq<string>)
    ensures var sp := Offsets(start, lines);
      (sp != [] ==> sp[0].offset == start) &&
      (forall i :: 0 < i < |sp| ==> sp[i].offset == sp[i - 1].offset + sp[i - 1].length) &&
      (sp != [] ==> sp[|sp| - 1].offset + sp[|sp| - 1].length == start + |Concat(lines)|)
    decreases |lines|
  {
    if lines != [] {
      var rest := Offsets(start + |lines[0]|, lines[1..]);
      OffsetsContiguous(start + |lines[0]|, lines[1..]);
      var sp := Offsets(start, lines);
      assert sp == [Span(start, |lines[0]|)] + rest;
      forall i | 0 < i < |sp| ensures sp[i].offset == sp[i - 1].offset + sp[i - 1].length {
        assert sp[i] == rest[i - 1];
        if i > 1 {
          assert sp[i - 1] == rest[i - 2];
        }
      }
      if |lines| > 1 {
        assert sp[|sp| - 1] == rest[|rest| - 1];
      }
    }
  }

  /** Writing one more line adds its span at the current end. */
  lemma {:induction false} OffsetsAppend(start: nat, lines: seq<string>, l: string)
    ensures Offsets(start, lines + [l]) == Offsets(start, lines) + [Span(start + |Concat(lines)|, |l|)]
    decreases |lines|
  {
    var ll := lines + [l];
    OffsetsUnfold(start, ll);
    if lines == [] {
      assert ll[1..] == [];
    } else {
      assert ll[0] == lines[0] && ll[1..] == lines[1..] + [l];
      OffsetsAppend(start + |lines[0]|, lines[1..], l);
      OffsetsUnfold(start, lines);
      assert Concat(lines) == lines[0] + Concat(lines[1..]);
    }
  }

  /** The assignments of `titles[i]` to the spans `sp[i]`, in order. */
  function Zip(titles: seq<string>, sp: seq<Span>): seq<Located>
    requires |titles| == |sp|
  {
    seq(|sp|, i requires 0 <= i < |sp| => Located(titles[i], sp[i]))
  }

  lemma ZipAppend(titles: seq<string>, sp: seq<Span>, t: string, s: Span)
    requires |titles| == |sp|
    ensures Zip(titles + [t], sp + [s]) == Zip(titles, sp) + [Located(t, s)]
  {
  }

  /** One more assignment updates the index at its title. */
  lemma AssignAppend(es: seq<Located>, e: Located)
    ensures Assign(es + [e]) == Assign(es)[e.title := e.span]
  {
    assert (es + [e])[..|es|] == es;
  }

  /** Writing one more line records its span at the end of what was written. */
  lemma AssignZipAppend(start: nat, titles: seq<string>, lines: seq<string>, t: string, l: string)
    requires |titles| == |lines|
    ensures Assign(Zip(titles + [t], Offsets(start, lines + [l]))) ==
      Assign(Zip(titles, Offsets(start, lines)))[t := Span(start + |Concat(lines)|, |l|)]
  {
    var s := Span(start + |Concat(lines)|, |l|);
    OffsetsAppend(start, lines, l);
    ZipAppend(titles, Offsets(start, lines), t, s);
    AssignAppend(Zip(titles, Offsets(start, lines)), Located(t, s));
  }

  lemma SliceMiddle(a: string, b: string, c: string)
    ensures (a + b + c)[|a|..|a| + |b|] == b
  {
  }

  /** `readline` at the start of a line stops at its end. */
  lemma LineEndAtLine(f: string, pos: nat, line: string)
    requires pos + |line| <= |f| && f[pos..pos + |line|] == line && IsLine(line)
    ensures LineEnd(f, pos) == pos + |line|
  {
    assert f[pos + |line| - 1] == line[|line| - 1];
    assert forall k :: pos <= k < pos + |line| - 1 ==> f[k] == line[k - pos];
    LineEndAt(f, pos, pos + |line|);
  }

  lemma LineSpansUnfold(f: string, pos: nat)
    requires pos < |f|
    ensures LineSpans(f, pos) == [Span(pos, LineEnd(f, pos) - pos)] + LineSpans(f, LineEnd(f, pos))
  {
  }

  lemma OffsetsUnfold(start: nat, lines: seq<string>)
    requires lines != []
    ensures Offsets(start, lines) == [Span(start, |lines[0]|)] + Offsets(start + |lines[0]|, lines[1..])
  {
  }

  /** Reading written lines back with `readline` finds exactly those lines. */
  lemma {:induction false} LineSpansOfLines(f: string, pos: nat, lines: seq<string>)
    requires pos <= |f| && f[pos..] == Concat(lines)
    requires forall i :: 0 <= i < |lines| ==> IsLine(lines[i])
    ensures LineSpans(f, pos) == Offsets(pos, lines)
    decreases |lines|
  {
    if lines != [] {
      var l, tail := lines[0], Concat(lines[1..]);
      assert f[pos..] == l + tail;
      assert f[pos..pos + |l|] == l;
      assert f[pos + |l|..] == tail;
      LineEndAtLine(f, pos, l);
      LineSpansOfLines(f, pos + |l|, lines[1..]);
      LineSpansUnfold(f, pos);
      OffsetsUnfold(pos, lines);
    }
  }

  lemma {:induction false} ConcatSplit(lines: seq<string>, i: nat)
    requires i < |lines|
    ensures Concat(lines) == Concat(lines[..i]) + lines[i] + Concat(lines[i + 1..])
  {
    if i > 0 {
      ConcatSplit(lines[1..], i - 1);
      assert lines[1..][..i - 1] == lines[..i][1..];
      assert lines[1..][i - 1] == lines[i] && lines[1..][i..] == lines[i + 1..];
    } else {
      assert lines[..0] == [] && lines[1..] == lines[i + 1..];
    }
  }

  /** The bytes at the span of the `i`-th written line are that line. */
  lemma SliceOfLine(prefix: string, lines: seq<string>, i: nat)
    requires i < |lines|
    ensures var f := prefix + Concat(lines);
      var s := Offsets(|prefix|, lines)[i];
      s.offset + s.length <= |f| && Slice(f, s) == lines[i]
  {
    var f := prefix + Concat(lines);
    var s := Offsets(|prefix|, lines)[i];
    OffsetsAt(|prefix|, lines, i);
    ConcatSplit(lines, i);
    var a, b, c := prefix + Concat(lines[..i]), lines[i], Concat(lines[i + 1..]);
    assert f == a + b + c;
    assert s.offset == |a| && s.length == |b|;
    SliceMiddle(a, b, c);
  }

  /** Re-reading written lines whose titles read back makes exactly the assignments
      made while writing them. */
  lemma {:induction false} ParsedLines(prefix: string, lines: seq<string>, titles: seq<string>, n: nat)
    requires |titles| == |lines| && n <= |lines|
    requires forall i :: 0 <= i < |lines| ==> ParseTitle(lines[i]) == Some(titles[i])
    ensures var f := prefix + Concat(lines);
      var sp := Offsets(|prefix|, lines);
      Within(f, sp[..n]) && Parsed(f, sp[..n]) == Zip(titles, sp)[..n]
  {
    if n > 0 {
      var f := prefix + Concat(lines);
      var sp := Offsets(|prefix|, lines);
      var zs := Zip(titles, sp);
      ParsedLines(prefix, lines, titles, n - 1);
      SliceOfLine(prefix, lines, n - 1);
      assert sp[..n][..n - 1] == sp[..n - 1];
      assert sp[..n][n - 1] == sp[n - 1];
      assert zs[..n] == zs[..n - 1] + [zs[n - 1]];
    }
  }

  /** The assignments `update_wikidict` makes while writing `rows` after the header: each
      row's title with the span of its encoded line. */
  function RowEntries(rows: seq<Row>): seq<Located>
  {
    Zip(Titles(rows), Offsets(|Header|, Lines(rows)))
  }

  /** `create_index` run on a table written by the builders skips exactly the header,
      finds every row, and makes the assignments the writer made. */
  lemma CreateIndexOfTable(rows: seq<Row>)
    ensures var f := Table(rows);
      LineEnd(f, 0) == |Header| && Within(f, LineSpans(f, |Header|)) &&
      Parsed(f, LineSpans(f, |Header|)) == RowEntries(rows)
  {
    var f := Table(rows);
    var lines := Lines(rows);
    SliceMiddle([], Header, Concat(lines));
    assert [] + Header + Concat(lines) == f;
    HeaderShape();
    LineEndAtLine(f, 0, Header);
    forall i | 0 <= i < |lines| ensures IsLine(lines[i]) && ParseTitle(lines[i]) == Some(Titles(rows)[i]) {
      ParseEncode(rows[i]);
    }
    assert f[|Header|..] == Concat(lines);
    LineSpansOfLines(f, |Header|, lines);
    var sp := Offsets(|Header|, lines);
    ParsedLines(Header, lines, Titles(rows), |rows|);
    assert sp[..|rows|] == sp;
    assert Zip(Titles(rows), sp)[..|rows|] == Zip(Titles(rows), sp);
  }
}
