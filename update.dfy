/** `update_wikidict` from build_wikidict.py: the two-cursor merge of the sorted base
    table with the sorted changelog, with its five counters and the index recorded while
    writing. */
module IncrementalMerge {
  import opened Base
  import opened TitleOrder
  import opened RowCodec
  import opened ByteIndex

  /** Strictly ascending by lower-cased title, as both input tables are meant to be. */
  predicate Ascending(s: seq<Row>)
  {
    forall i, j :: 0 <= i < j < |s| ==> Less(Key(s[i]), Key(s[j]))
  }

  /** Every row of `s` sorts strictly after `k`. */
  predicate Above(k: string, s: seq<Row>)
  {
    forall x :: x in s ==> Less(k, Key(x))
  }

  /** No row of `s` has the lower-cased title `k`. */
  predicate Absent(k: string, s: seq<Row>)
  {
    forall x :: x in s ==> Key(x) != k
  }

  /** The rows `update_wikidict` writes, one loop round per step: with one input
      exhausted the other one's row is written; otherwise the row with the smaller
      lower-cased title is written and only its cursor advances, and on equal lower-cased
      titles the changelog row (its title and its value) is written and both advance. */
  function Merged(base: seq<Row>, changelog: seq<Row>): (r: seq<Row>)
    ensures |base| <= |r| && |changelog| <= |r| <= |base| + |changelog|
    decreases |base| + |changelog|
  {
    if base == [] then changelog
    else if changelog == [] then base
    else if Less(Key(base[0]), Key(changelog[0])) then [base[0]] + Merged(base[1..], changelog)
    else if Less(Key(changelog[0]), Key(base[0])) then [changelog[0]] + Merged(base, changelog[1..])
    else [changelog[0]] + Merged(base[1..], changelog[1..])
  }

  /** The number of rounds that take the equal-title branch: `updated_count`. */
  function Matches(base: seq<Row>, changelog: seq<Row>): (m: nat)
    ensures m <= |base| && m <= |changelog|
    decreases |base| + |changelog|
  {
    if base == [] || changelog == [] then 0
    else if Less(Key(base[0]), Key(changelog[0])) then Matches(base[1..], changelog)
    else if Less(Key(changelog[0]), Key(base[0])) then Matches(base, changelog[1..])
    else 1 + Matches(base[1..], changelog[1..])
  }

  /** Every round writes one row and consumes one row of each input it advances: the
      output is as long as both inputs together less the updates, and there are no more
      updates than rows in either input. */
  lemma {:induction false} MergedLength(base: seq<Row>, changelog: seq<Row>)
    ensures |Merged(base, changelog)| + Matches(base, changelog) == |base| + |changelog|
    ensures Matches(base, changelog) <= |base| && Matches(base, changelog) <= |changelog|
    decreases |base| + |changelog|
  {
    if base != [] && changelog != [] {
      if Less(Key(base[0]), Key(changelog[0])) {
        MergedLength(base[1..], changelog);
      } else if Less(Key(changelog[0]), Key(base[0])) {
        MergedLength(base, changelog[1..]);
      } else {
        MergedLength(base[1..], changelog[1..]);
      }
    }
  }

  /** Every written row comes from one of the inputs. */
  lemma {:induction false} MergedFrom(base: seq<Row>, changelog: seq<Row>, r: Row)
    requires r in Merged(base, changelog)
    ensures r in base || r in changelog
    decreases |base| + |changelog|
  {
    if base != [] && changelog != [] {
      if Less(Key(base[0]), Key(changelog[0])) {
        if r != base[0] {
          MergedFrom(base[1..], changelog, r);
        }
      } else if Less(Key(changelog[0]), Key(base[0])) {
        if r != changelog[0] {
          MergedFrom(base, changelog[1..], r);
        }
      } else if r != changelog[0] {
        MergedFrom(base[1..], changelog[1..], r);
      }
    }
  }

  /** Every changelog row is written, sorted or not. */
  lemma {:induction false} ChangelogWritten(base: seq<Row>, changelog: seq<Row>, r: Row)
    requires r in changelog
    ensures r in Merged(base, changelog)
    decreases |base| + |changelog|
  {
    if base != [] {
      if Less(Key(base[0]), Key(changelog[0])) {
        ChangelogWritten(base[1..], changelog, r);
      } else if r != changelog[0] {
        if Less(Key(changelog[0]), Key(base[0])) {
          ChangelogWritten(base, changelog[1..], r);
        } else {
          ChangelogWritten(base[1..], changelog[1..], r);
        }
      }
    }
  }

  lemma AscendingSplit(s: seq<Row>)
    requires s != [] && Ascending(s)
    ensures Ascending(s[1..]) && Above(Key(s[0]), s[1..])
  {
    forall x | x in s[1..] ensures Less(Key(s[0]), Key(x)) {
      var j :| 0 <= j < |s[1..]| && s[1..][j] == x;
      assert s[j + 1] == x;
    }
  }

  /** A key below the head of an ascending sequence is below all of it. */
  lemma AboveHead(k: string, s: seq<Row>)
    requires s != [] && Ascending(s) && Less(k, Key(s[0]))
    ensures Above(k, s)
  {
    AscendingSplit(s);
    forall x | x in s ensures Less(k, Key(x)) {
      if x != s[0] {
        LessTransitive(k, Key(s[0]), Key(x));
      }
    }
  }

  lemma AboveAbsent(k: string, s: seq<Row>)
    requires Above(k, s)
    ensures Absent(k, s)
  {
    forall x | x in s ensures Key(x) != k {
      LessIrreflexive(k);
    }
  }

  /** Putting a row in front of an ascending sequence whose rows all sort after it. */
  lemma ConsAscending(x: Row, s: seq<Row>)
    requires Ascending(s) && Above(Key(x), s)
    ensures Ascending([x] + s)
  {
    var t := [x] + s;
    forall i, j | 0 <= i < j < |t| ensures Less(Key(t[i]), Key(t[j])) {
      assert t[j] == s[j - 1];
      if i > 0 {
        assert t[i] == s[i - 1];
      }
    }
  }

  /** Rows sorting after `k` in both inputs sort after `k` in the output. */
  lemma MergedAbove(k: string, base: seq<Row>, changelog: seq<Row>)
    requires Above(k, base) && Above(k, changelog)
    ensures Above(k, Merged(base, changelog))
  {
    forall x | x in Merged(base, changelog) ensures Less(k, Key(x)) {
      MergedFrom(base, changelog, x);
    }
  }

  /** Merging two strictly ascending inputs gives a strictly ascending output: the
      updated table is again sorted and has no two rows with the same lower-cased title. */
  lemma {:induction false} MergedAscending(base: seq<Row>, changelog: seq<Row>)
    requires Ascending(base) && Ascending(changelog)
    ensures Ascending(Merged(base, changelog))
    decreases |base| + |changelog|
  {
    if base != [] && changelog != [] {
      var b, c := base[0], changelog[0];
      AscendingSplit(base);
      AscendingSplit(changelog);
      if Less(Key(b), Key(c)) {
        MergedAscending(base[1..], changelog);
        AboveHead(Key(b), changelog);
        MergedAbove(Key(b), base[1..], changelog);
        ConsAscending(b, Merged(base[1..], changelog));
      } else if Less(Key(c), Key(b)) {
        MergedAscending(base, changelog[1..]);
        AboveHead(Key(c), base);
        MergedAbove(Key(c), base, changelog[1..]);
        ConsAscending(c, Merged(base, changelog[1..]));
      } else {
        LessTrichotomy(Key(b), Key(c));
        MergedAscending(base[1..], changelog[1..]);
        MergedAbove(Key(c), base[1..], changelog[1..]);
        ConsAscending(c, Merged(base[1..], changelog[1..]));
      }
    }
  }

  /** The changelog wins: for strictly ascending inputs, the output holds exactly the
      changelog rows and the base rows whose lower-cased title the changelog lacks. */
  lemma {:induction false} MergedContents(base: seq<Row>, changelog: seq<Row>, r: Row)
    requires Ascending(base) && Ascending(changelog)
    ensures r in Merged(base, changelog) <==> r in changelog || (r in base && Absent(Key(r), changelog))
    decreases |base| + |changelog|
  {
    if base != [] && changelog != [] {
      var b, c := base[0], changelog[0];
      AscendingSplit(base);
      AscendingSplit(changelog);
      if Less(Key(b), Key(c)) {
        MergedContents(base[1..], changelog, r);
        AboveHead(Key(b), changelog);
        AboveAbsent(Key(b), changelog);
      } else if Less(Key(c), Key(b)) {
        MergedContents(base, changelog[1..], r);
        if r in base {
          AboveHead(Key(c), base);
          LessIrreflexive(Key(c));
        }
      } else {
        LessTrichotomy(Key(b), Key(c));
        MergedContents(base[1..], changelog[1..], r);
        if r in base[1..] {
          LessIrreflexive(Key(c));
        }
      }
    }
  }

  /** Inputs that share no lower-cased title never take the update branch, so every row
      of both is written. */
  lemma {:induction false} DisjointNoMatches(base: seq<Row>, changelog: seq<Row>)
    requires forall x, y :: x in base && y in changelog ==> Key(x) != Key(y)
    ensures Matches(base, changelog) == 0
    ensures |Merged(base, changelog)| == |base| + |changelog|
    decreases |base| + |changelog|
  {
    MergedLength(base, changelog);
    if base != [] && changelog != [] {
      if Less(Key(base[0]), Key(changelog[0])) {
        DisjointNoMatches(base[1..], changelog);
      } else if Less(Key(changelog[0]), Key(base[0])) {
        DisjointNoMatches(base, changelog[1..]);
      } else {
        LessTrichotomy(Key(base[0]), Key(changelog[0]));
        assert false;
      }
    }
  }

  /** A changelog made of rows the sorted base already holds reproduces the base. */
  lemma {:induction false} MergedOfContained(base: seq<Row>, changelog: seq<Row>)
    requires Ascending(base) && Ascending(changelog)
    requires forall y :: y in changelog ==> y in base
    ensures Merged(base, changelog) == base
    decreases |base| + |changelog|
  {
    if base == [] && changelog != [] {
      HeadMember(changelog);
      assert false;
    } else if base != [] && changelog != [] {
      var b, c := base[0], changelog[0];
      AscendingSplit(base);
      AscendingSplit(changelog);
      assert c in base;
      assert base == [b] + base[1..];
      LessIrreflexive(Key(b));
      if Less(Key(b), Key(c)) {
        AboveHead(Key(b), changelog);
        forall y | y in changelog ensures y in base[1..] {
          assert y in base && Less(Key(b), Key(y));
        }
        MergedOfContained(base[1..], changelog);
        assert Merged(base, changelog) == [b] + Merged(base[1..], changelog);
      } else if Less(Key(c), Key(b)) {
        AboveHead(Key(c), base);
        LessIrreflexive(Key(c));
        assert false;
      } else {
        LessTrichotomy(Key(b), Key(c));
        if c != b {
          assert false;
        }
        forall y | y in changelog[1..] ensures y in base[1..] {
          assert y in changelog && Less(Key(c), Key(y));
          assert y in base && y != b;
        }
        MergedOfContained(base[1..], changelog[1..]);
        assert Merged(base, changelog) == [c] + Merged(base[1..], changelog[1..]);
      }
    }
  }

  lemma HeadMember(s: seq<Row>)
    ensures s != [] ==> s[0] in s
  {
  }

  /** Applying the same changelog twice gives what applying it once gave: a rerun that
      finds the changelog still in the manifest writes the same table again. */
  lemma MergedIdempotent(base: seq<Row>, changelog: seq<Row>)
    requires Ascending(base) && Ascending(changelog)
    ensures Merged(Merged(base, changelog), changelog) == Merged(base, changelog)
  {
    MergedAscending(base, changelog);
    forall y | y in changelog ensures y in Merged(base, changelog) {
      ChangelogWritten(base, changelog, y);
    }
    MergedOfContained(Merged(base, changelog), changelog);
  }

  /** Distinct lower-cased titles are distinct titles. */
  lemma AscendingDistinctTitles(s: seq<Row>)
    requires Ascending(s)
    ensures Distinct(Titles(s))
  {
    forall i, j | 0 <= i < j < |s| ensures Titles(s)[i] != Titles(s)[j] {
      if s[i].title == s[j].title {
        LessIrreflexive(Key(s[i]));
      }
    }
  }

  /** For strictly ascending inputs the index validation passes: there is one index
      entry per written row. */
  lemma IndexSizeOfAscending(base: seq<Row>, changelog: seq<Row>)
    requires Ascending(base) && Ascending(changelog)
    ensures |Assign(RowEntries(Merged(base, changelog)))| == |Merged(base, changelog)|
  {
    var m := Merged(base, changelog);
    MergedAscending(base, changelog);
    AscendingDistinctTitles(m);
    var es := RowEntries(m);
    assert TitlesOf(es) == Titles(m);
    AssignSize(es);
  }

  /** The five counters of `update_wikidict`. */
  datatype Counts = Counts(existing: nat, changelog: nat, updated: nat, added: nat, total: nat)

  /** The state of the merge loop after the cursors have passed `base[..i]` and
      `changelog[..j]`: `out` has been written, and what is left to write is the merge of
      the rest; the counters count what has been consumed and written. */
  ghost predicate Progress(base: seq<Row>, changelog: seq<Row>, i: nat, j: nat, out: seq<Row>, n: Counts)
  {
    i <= |base| && j <= |changelog| &&
    out + Merged(base[i..], changelog[j..]) == Merged(base, changelog) &&
    n.updated + Matches(base[i..], changelog[j..]) == Matches(base, changelog) &&
    n.existing == i && n.changelog == j && n.added + n.updated == j && n.total == |out|
  }

  /** The output file holds the header and the rows of `out`, and the index holds their
      spans. */
  ghost predicate Written(out: seq<Row>, file: string, index: map<string, Span>)
  {
    file == Table(out) && index == Assign(RowEntries(out))
  }

  /** Writing a row appends its line to the file. */
  lemma TableAppend(out: seq<Row>, r: Row)
    ensures Table(out + [r]) == Table(out) + Encode(r)
  {
    var ls, e := Lines(out), Encode(r);
    assert Lines(out + [r]) == ls + [e];
    ConcatAppend(ls, e);
  }

  /** Writing a row records its span, which starts at the old end of the file. */
  lemma EntriesAppend(out: seq<Row>, r: Row)
    ensures Assign(RowEntries(out + [r])) ==
      Assign(RowEntries(out))[r.title := Span(|Table(out)|, |Encode(r)|)]
  {
    LinesAppend(out, r);
    TitlesAppend(out, r);
    AssignZipAppend(|Header|, Titles(out), Lines(out), r.title, Encode(r));
  }

  lemma LinesAppend(out: seq<Row>, r: Row)
    ensures Lines(out + [r]) == Lines(out) + [Encode(r)]
  {
  }

  lemma TitlesAppend(out: seq<Row>, r: Row)
    ensures Titles(out + [r]) == Titles(out) + [r.title]
  {
  }

  /** A round that writes the base row advances only the base cursor. */
  lemma StepBase(base: seq<Row>, changelog: seq<Row>, i: nat, j: nat)
    requires i < |base| && j <= |changelog|
    requires j == |changelog| || Less(Key(base[i]), Key(changelog[j]))
    ensures Merged(base[i..], changelog[j..]) == [base[i]] + Merged(base[i + 1..], changelog[j..])
    ensures Matches(base[i..], changelog[j..]) == Matches(base[i + 1..], changelog[j..])
  {
    assert base[i..][0] == base[i] && base[i..][1..] == base[i + 1..];
    if j < |changelog| {
      assert changelog[j..][0] == changelog[j];
    }
  }

  /** A round that writes a new changelog row advances only the changelog cursor. */
  lemma StepLog(base: seq<Row>, changelog: seq<Row>, i: nat, j: nat)
    requires i <= |base| && j < |changelog|
    requires i == |base| || Less(Key(changelog[j]), Key(base[i]))
    ensures Merged(base[i..], changelog[j..]) == [changelog[j]] + Merged(base[i..], changelog[j + 1..])
    ensures Matches(base[i..], changelog[j..]) == Matches(base[i..], changelog[j + 1..])
  {
    assert changelog[j..][0] == changelog[j] && changelog[j..][1..] == changelog[j + 1..];
    if i < |base| {
      assert base[i..][0] == base[i];
      LessTrichotomy(Key(base[i]), Key(changelog[j]));
    } else {
      assert base[i..] == [];
    }
  }

  /** A round on equal lower-cased titles writes the changelog row and advances both. */
  lemma StepBoth(base: seq<Row>, changelog: seq<Row>, i: nat, j: nat)
    requires i < |base| && j < |changelog|
    requires !Less(Key(base[i]), Key(changelog[j])) && !Less(Key(changelog[j]), Key(base[i]))
    ensures Merged(base[i..], changelog[j..]) == [changelog[j]] + Merged(base[i + 1..], changelog[j + 1..])
    ensures Matches(base[i..], changelog[j..]) == 1 + Matches(base[i + 1..], changelog[j + 1..])
  {
    assert base[i..][0] == base[i] && base[i..][1..] == base[i + 1..];
    assert changelog[j..][0] == changelog[j] && changelog[j..][1..] == changelog[j + 1..];
  }

  /** One round of the loop keeps `Progress`: it writes `r`, moves the cursors to `i'`
      and `j'`, and counts `upd` updates. */
  lemma ProgressStep(base: seq<Row>, changelog: seq<Row>, i: nat, j: nat, out: seq<Row>, n: Counts,
                     i': nat, j': nat, r: Row, upd: nat, add: nat)
    requires Progress(base, changelog, i, j, out, n)
    requires i <= i' <= |base| && j <= j' <= |changelog|
    requires Merged(base[i..], changelog[j..]) == [r] + Merged(base[i'..], changelog[j'..])
    requires Matches(base[i..], changelog[j..]) == upd + Matches(base[i'..], changelog[j'..])
    requires upd + add == j' - j
    ensures Progress(base, changelog, i', j', out + [r],
                     Counts(i', j', n.updated + upd, n.added + add, n.total + 1))
  {
    assert out + Merged(base[i..], changelog[j..]) == (out + [r]) + Merged(base[i'..], changelog[j'..]);
  }

  /** When both cursors are at the end, everything is written and counted. */
  lemma ProgressDone(base: seq<Row>, changelog: seq<Row>, i: nat, j: nat, out: seq<Row>, n: Counts)
    requires Progress(base, changelog, i, j, out, n)
    requires i == |base| && j == |changelog|
    ensures out == Merged(base, changelog)
    ensures n == Counts(|base|, |changelog|, Matches(base, changelog),
                        |changelog| - Matches(base, changelog), |out|)
  {
    assert base[i..] == [] && changelog[j..] == [];
    assert Merged(base[i..], changelog[j..]) == [] && Matches(base[i..], changelog[j..]) == 0;
    assert out + [] == out;
  }

  /** Writing one row keeps `Written`. */
  lemma WrittenStep(out: seq<Row>, file: string, index: map<string, Span>, r: Row)
    requires Written(out, file, index)
    ensures Written(out + [r], file + Encode(r), index[r.title := Span(|file|, |Encode(r)|)])
  {
    TableAppend(out, r);
    EntriesAppend(out, r);
  }

  /** `writer.writerow` followed by `index[title] = {offset, length}` with the `tell()`
      values before and after the write. */
  method WriteRow(file: string, index: map<string, Span>, row: Row)
    returns (file': string, index': map<string, Span>)
    ensures file' == file + Encode(row)
    ensures index' == index[row.title := Span(|file|, |Encode(row)|)]
  {
    var rowStart := |file|;
    file' := file + Encode(row);
    var rowEnd := |file'|;
    index' := index[row.title := Span(rowStart, rowEnd - rowStart)];
  }

  /** `update_wikidict`: returns the rows written below the header, the written file, the
      index, the counters, and whether the index-size warning is logged. A mismatch is
      only a warning: the function completes either way. */
  method UpdateWikidict(base: seq<Row>, changelog: seq<Row>)
    returns (rows: seq<Row>, file: string, index: map<string, Span>, counts: Counts, warned: bool)
    ensures rows == Merged(base, changelog)
    ensures var merged := Merged(base, changelog);
      file == Table(merged) && index == Assign(RowEntries(merged)) &&
      counts == Counts(|base|, |changelog|, Matches(base, changelog),
                       |changelog| - Matches(base, changelog), |merged|) &&
      warned == (|index| != |merged|)
  {
    file := Header;
    index := map[];
    var existingCount, changelogCount, updatedCount, addedCount, totalCount := 0, 0, 0, 0, 0;
    var i, j := 0, 0;
    var out: seq<Row> := [];
    assert base[0..] == base && changelog[0..] == changelog;
    while i < |base| || j < |changelog|
      invariant Progress(base, changelog, i, j, out,
                         Counts(existingCount, changelogCount, updatedCount, addedCount, totalCount))
      invariant Written(out, file, index)
      decreases |base| - i + |changelog| - j
    {
      var n := Counts(existingCount, changelogCount, updatedCount, addedCount, totalCount);
      var row: Row;
      var takeBase, takeLog := false, false;
      if i == |base| {
        // Only the changelog is left: a new title.
        row, takeLog := changelog[j], true;
        StepLog(base, changelog, i, j);
      } else if j == |changelog| {
        // Only the base is left.
        row, takeBase := base[i], true;
        StepBase(base, changelog, i, j);
      } else if Less(Key(base[i]), Key(changelog[j])) {
        row, takeBase := base[i], true;
        StepBase(base, changelog, i, j);
      } else if Less(Key(changelog[j]), Key(base[i])) {
        // A new title.
        row, takeLog := changelog[j], true;
        StepLog(base, changelog, i, j);
      } else {
        // The same lower-cased title: the changelog row replaces the base row.
        row, takeBase, takeLog := changelog[j], true, true;
        StepBoth(base, changelog, i, j);
      }
      var i', j' := if takeBase then i + 1 else i, if takeLog then j + 1 else j;
      var upd := if takeBase && takeLog then 1 else 0;
      var add := if takeLog && !takeBase then 1 else 0;
      ProgressStep(base, changelog, i, j, out, n, i', j', row, upd, add);
      WrittenStep(out, file, index, row);
      file, index := WriteRow(file, index, row);
      existingCount, changelogCount := i', j';
      updatedCount, addedCount := updatedCount + upd, addedCount + add;
      totalCount := totalCount + 1;
      i, j := i', j';
      out := out + [row];
    }
    ProgressDone(base, changelog, i, j, out,
                 Counts(existingCount, changelogCount, updatedCount, addedCount, totalCount));
    counts := Counts(existingCount, changelogCount, updatedCount, addedCount, totalCount);
    warned := |index| != totalCount;
    rows := out;
  }
}
