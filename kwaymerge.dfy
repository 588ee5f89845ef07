/** Phase 2 of the external merge sort in build_wikidict_full.py, as a specification:
    the k-way merge that always emits the smallest `(title.lower(), chunk_idx)` among the
    heads of the chunks that still have rows. */
module KWayMerge {
  import opened Base
  import opened TitleOrder
  import opened ChunkSort

  /** A heap entry: the tuple `(sort_key, chunk_idx, row)`. */
  datatype Entry = Entry(key: string, idx: nat, row: Row)

  /** Python's tuple order on `(sort_key, chunk_idx, ...)`. The row is never reached:
      the heap never holds two entries of one chunk. */
  predicate EntryLess(e: Entry, f: Entry)
  {
    Less(e.key, f.key) || (e.key == f.key && e.idx < f.idx)
  }

  predicate EntryLessEq(e: Entry, f: Entry)
  {
    !EntryLess(f, e)
  }

  lemma EntryLessEqTotal(e: Entry, f: Entry)
    ensures EntryLessEq(e, f) || EntryLessEq(f, e)
  {
    LessTrichotomy(e.key, f.key);
  }

  lemma EntryLessEqTransitive(e: Entry, f: Entry, g: Entry)
    requires EntryLessEq(e, f) && EntryLessEq(f, g)
    ensures EntryLessEq(e, g)
  {
    LessTrichotomy(e.key, f.key);
    LessTrichotomy(f.key, g.key);
    LessTrichotomy(e.key, g.key);
    if Less(g.key, e.key) {
      if Less(e.key, f.key) {
        LessTransitive(g.key, e.key, f.key);
      } else if Less(f.key, g.key) {
        LessTransitive(f.key, g.key, e.key);
      }
    }
  }

  /** `a <= b` and `b < c` give `a < c`. */
  lemma LessEqLess(a: string, b: string, c: string)
    requires LessEq(a, b) && Less(b, c)
    ensures Less(a, c)
  {
    LessTrichotomy(a, b);
    if Less(a, b) {
      LessTransitive(a, b, c);
    }
  }

  /** The entry that chunk `c` has on the heap while it still has rows. */
  function HeadEntry(rem: seq<seq<Row>>, c: nat): Entry
    requires c < |rem| && rem[c] != []
  {
    Entry(Key(rem[c][0]), c, rem[c][0])
  }

  /** The entries the heap holds when the unmerged rows of chunk `c` are `rem[c]`,
      for the first `n` chunks, in chunk order. */
  function Heads(rem: seq<seq<Row>>, n: nat): seq<Entry>
    requires n <= |rem|
  {
    if n == 0 then []
    else Heads(rem, n - 1) + (if rem[n - 1] == [] then [] else [HeadEntry(rem, n - 1)])
  }

  /** The chunk whose head `heappop` returns among the first `n` chunks: the smallest
      key, and on equal keys the smallest chunk index. `None` when all are exhausted. */
  function MinIdx(rem: seq<seq<Row>>, n: nat): (m: Option<nat>)
    requires n <= |rem|
    ensures m.Some? ==> m.value < n && rem[m.value] != []
  {
    if n == 0 then None
    else
      var m := MinIdx(rem, n - 1);
      if rem[n - 1] == [] then m
      else if m.None? || Less(Key(rem[n - 1][0]), Key(rem[m.value][0])) then Some(n - 1)
      else m
  }

  /** All rows of the chunks, merged. */
  function Merge(rem: seq<seq<Row>>): (r: seq<Row>)
    ensures |r| == TotalLen(rem)
    decreases TotalLen(rem)
  {
    match MinIdx(rem, |rem|)
    case None =>
      MinIdxNone(rem, |rem|);
      ConcatAllEmpty(rem);
      []
    case Some(i) =>
      ConcatDropHead(rem, i);
      [rem[i][0]] + Merge(rem[i := rem[i][1..]])
  }

  /** Every chunk is sorted by key. */
  predicate AllSorted(rem: seq<seq<Row>>)
  {
    forall c :: 0 <= c < |rem| ==> SortedByKey(rem[c])
  }

  /** Each chunk's rows filtered to one key, chunk by chunk. */
  function FilterEach(rem: seq<seq<Row>>, k: string): (fs: seq<seq<Row>>)
    ensures |fs| == |rem|
    ensures forall c :: 0 <= c < |rem| ==> fs[c] == KeyFilter(rem[c], k)
  {
    seq(|rem|, c requires 0 <= c < |rem| => KeyFilter(rem[c], k))
  }

  // ---------------------------------------------------------------------------
  // The heap contents and the minimum.

  /** The heap holds at most one entry per chunk. */
  lemma {:induction false} HeadsLength(rem: seq<seq<Row>>, n: nat)
    requires n <= |rem|
    ensures |Heads(rem, n)| <= n
  {
    if n > 0 {
      HeadsLength(rem, n - 1);
    }
  }

  /** Every entry on the heap is the head of an unexhausted chunk. */
  lemma {:induction false} HeadsMember(rem: seq<seq<Row>>, n: nat, e: Entry)
    requires n <= |rem| && e in Heads(rem, n)
    ensures e.idx < n && rem[e.idx] != [] && e == HeadEntry(rem, e.idx)
  {
    if e !in Heads(rem, n - 1) {
      assert e == HeadEntry(rem, n - 1);
    } else {
      HeadsMember(rem, n - 1, e);
    }
  }

  /** The entries are in increasing chunk order, so no chunk has two. */
  lemma {:induction false} HeadsIncreasing(rem: seq<seq<Row>>, n: nat)
    requires n <= |rem|
    ensures forall p, q :: 0 <= p < q < |Heads(rem, n)| ==> Heads(rem, n)[p].idx < Heads(rem, n)[q].idx
  {
    if n > 0 {
      HeadsIncreasing(rem, n - 1);
      var hs := Heads(rem, n - 1);
      forall p | 0 <= p < |hs| ensures hs[p].idx < n - 1 {
        HeadsMember(rem, n - 1, hs[p]);
      }
    }
  }

  /** Every unexhausted chunk has its head on the heap. */
  lemma {:induction false} HeadsComplete(rem: seq<seq<Row>>, n: nat, c: nat)
    requires c < n <= |rem| && rem[c] != []
    ensures HeadEntry(rem, c) in Heads(rem, n)
  {
    if c < n - 1 {
      HeadsComplete(rem, n - 1, c);
    }
  }

  /** `Heads` is empty exactly when every chunk is exhausted, which is when `MinIdx`
      finds nothing. */
  lemma {:induction false} MinIdxNone(rem: seq<seq<Row>>, n: nat)
    requires n <= |rem|
    ensures MinIdx(rem, n).None? <==> Heads(rem, n) == []
    ensures MinIdx(rem, n).None? <==> forall c :: 0 <= c < n ==> rem[c] == []
  {
    if n > 0 {
      MinIdxNone(rem, n - 1);
    }
  }

  /** The chosen head has a key no larger than any other head's. */
  lemma {:induction false} MinIdxIsMin(rem: seq<seq<Row>>, n: nat)
    requires n <= |rem| && MinIdx(rem, n).Some?
    ensures forall c :: 0 <= c < n && rem[c] != [] ==>
      LessEq(Key(rem[MinIdx(rem, n).value][0]), Key(rem[c][0]))
  {
    var m := MinIdx(rem, n - 1);
    var last := n - 1;
    if rem[last] == [] {
      MinIdxIsMin(rem, n - 1);
    } else if m.None? {
      MinIdxNone(rem, n - 1);
      LessIrreflexive(Key(rem[last][0]));
    } else if Less(Key(rem[last][0]), Key(rem[m.value][0])) {
      MinIdxIsMin(rem, n - 1);
      var k := Key(rem[last][0]);
      LessIrreflexive(k);
      forall c | 0 <= c < n && rem[c] != [] ensures LessEq(k, Key(rem[c][0])) {
        if c < last {
          LessLessEq(k, Key(rem[m.value][0]), Key(rem[c][0]));
          LessImpliesLessEq(k, Key(rem[c][0]));
        }
      }
    } else {
      MinIdxIsMin(rem, n - 1);
    }
  }

  /** ... and strictly smaller than the head of every unexhausted chunk with a lower
      index: on equal keys the lowest chunk index wins. */
  lemma {:induction false} MinIdxFirst(rem: seq<seq<Row>>, n: nat)
    requires n <= |rem| && MinIdx(rem, n).Some?
    ensures forall c :: 0 <= c < MinIdx(rem, n).value && rem[c] != [] ==>
      Less(Key(rem[MinIdx(rem, n).value][0]), Key(rem[c][0]))
  {
    var m := MinIdx(rem, n - 1);
    var last := n - 1;
    if rem[last] == [] {
      MinIdxFirst(rem, n - 1);
    } else if m.None? {
      MinIdxNone(rem, n - 1);
    } else if Less(Key(rem[last][0]), Key(rem[m.value][0])) {
      MinIdxIsMin(rem, n - 1);
      var k := Key(rem[last][0]);
      forall c | 0 <= c < last && rem[c] != [] ensures Less(k, Key(rem[c][0])) {
        LessLessEq(k, Key(rem[m.value][0]), Key(rem[c][0]));
      }
    } else {
      MinIdxFirst(rem, n - 1);
    }
  }

  /** `a < b` and `b <= c` give `a < c`. */
  lemma LessLessEq(a: string, b: string, c: string)
    requires Less(a, b) && LessEq(b, c)
    ensures Less(a, c)
  {
    LessTrichotomy(b, c);
    if Less(b, c) {
      LessTransitive(a, b, c);
    }
  }

  /** What `heappop` returns: the chosen chunk's head is the least entry on the heap
      in the tuple order, and it is the only entry that is. */
  lemma MinEntry(rem: seq<seq<Row>>, e: Entry)
    requires e in Heads(rem, |rem|)
    requires forall f :: f in Heads(rem, |rem|) ==> EntryLessEq(e, f)
    ensures MinIdx(rem, |rem|) == Some(e.idx)
    ensures e == HeadEntry(rem, e.idx)
  {
    var n := |rem|;
    HeadsMember(rem, n, e);
    var j := e.idx;
    MinIdxNone(rem, n);
    var i := MinIdx(rem, n).value;
    HeadsComplete(rem, n, i);
    var h := HeadEntry(rem, i);
    assert EntryLessEq(e, h);
    MinIdxIsMin(rem, n);
    assert LessEq(h.key, e.key);
    LessTrichotomy(e.key, h.key);
    assert e.key == h.key;
    if j < i {
      MinIdxFirst(rem, n);
      LessIrreflexive(e.key);
      assert false;
    } else if j > i {
      assert EntryLess(h, e);
      assert false;
    }
    assert j == i;
  }

  // ---------------------------------------------------------------------------
  // Properties of the merge.

  /** No row is dropped and none is duplicated: the merge is a permutation of all the
      chunks' rows, and as long as all of them together. */
  lemma {:induction false} MergePermutes(rem: seq<seq<Row>>)
    ensures multiset(Merge(rem)) == multiset(Concat(rem))
    ensures |Merge(rem)| == TotalLen(rem)
    decreases TotalLen(rem)
  {
    match MinIdx(rem, |rem|)
    case None =>
      MinIdxNone(rem, |rem|);
      ConcatAllEmpty(rem);
    case Some(i) =>
      ConcatDropHead(rem, i);
      MergePermutes(rem[i := rem[i][1..]]);
  }

  lemma {:induction false} ConcatAllEmpty<T>(ss: seq<seq<T>>)
    requires forall c :: 0 <= c < |ss| ==> ss[c] == []
    ensures Concat(ss) == []
  {
    if ss != [] {
      ConcatAllEmpty(ss[1..]);
    }
  }

  /** An element of the concatenation comes from one of the parts. */
  lemma {:induction false} ConcatMember<T>(ss: seq<seq<T>>, y: T)
    requires y in Concat(ss)
    ensures exists c :: 0 <= c < |ss| && y in ss[c]
  {
    if y !in ss[0] {
      ConcatMember(ss[1..], y);
      var c :| 0 <= c < |ss[1..]| && y in ss[1..][c];
      assert y in ss[c + 1];
    }
  }

  lemma {:induction false} ConcatSplit<T>(ss: seq<seq<T>>, i: nat)
    requires i < |ss|
    ensures Concat(ss) == Concat(ss[..i]) + ss[i] + Concat(ss[i + 1..])
  {
    if i > 0 {
      ConcatSplit(ss[1..], i - 1);
      assert ss[1..][..i - 1] == ss[..i][1..];
      assert ss[1..][i..] == ss[i + 1..];
    } else {
      assert ss[..0] == [];
    }
  }

  /** The first row of a sorted chunk has the least key in it. */
  lemma SortedHead(s: seq<Row>, y: Row)
    requires SortedByKey(s) && y in s
    ensures LessEq(Key(s[0]), Key(y))
  {
    LessIrreflexive(Key(s[0]));
  }

  /** The first merged row is no larger than any row of any chunk. */
  lemma MergeHeadIsMin(rem: seq<seq<Row>>, i: nat, y: Row)
    requires MinIdx(rem, |rem|) == Some(i)
    requires AllSorted(rem)
    requires y in Concat(rem)
    ensures LessEq(Key(rem[i][0]), Key(y))
  {
    ConcatMember(rem, y);
    var c :| 0 <= c < |rem| && y in rem[c];
    MinIdxIsMin(rem, |rem|);
    SortedHead(rem[c], y);
    LessEqTransitive(Key(rem[i][0]), Key(rem[c][0]), Key(y));
  }

  /** One step of the merge: the chosen chunk's head, then the merge of the rest. */
  lemma MergeStep(rem: seq<seq<Row>>, i: nat)
    requires MinIdx(rem, |rem|) == Some(i)
    ensures Merge(rem) == [rem[i][0]] + Merge(rem[i := rem[i][1..]])
    ensures TotalLen(rem[i := rem[i][1..]]) < TotalLen(rem)
  {
    ConcatDropHead(rem, i);
  }

  lemma SortedCons(h: Row, rest: seq<Row>)
    requires SortedByKey(rest)
    requires forall y :: y in rest ==> LessEq(Key(h), Key(y))
    ensures SortedByKey([h] + rest)
  {
    var r := [h] + rest;
    forall p, q | 0 <= p < q < |r| ensures LessEq(Key(r[p]), Key(r[q])) {
      if p == 0 {
        assert r[q] in rest;
      } else {
        assert r[p] == rest[p - 1] && r[q] == rest[q - 1];
      }
    }
  }

  /** Every row merged after the first is no smaller than the first. */
  lemma MergeRestAbove(rem: seq<seq<Row>>, i: nat)
    requires MinIdx(rem, |rem|) == Some(i)
    requires AllSorted(rem)
    ensures forall y :: y in Merge(rem[i := rem[i][1..]]) ==> LessEq(Key(rem[i][0]), Key(y))
  {
    var rem' := rem[i := rem[i][1..]];
    MergePermutes(rem');
    ConcatDropHead(rem, i);
    forall y | y in Merge(rem') ensures LessEq(Key(rem[i][0]), Key(y)) {
      assert y in multiset(Merge(rem'));
      assert y in multiset(Concat(rem));
      MergeHeadIsMin(rem, i, y);
    }
  }

  /** When every chunk is sorted, the merge is sorted. */
  lemma {:induction false} MergeSorted(rem: seq<seq<Row>>)
    requires AllSorted(rem)
    ensures SortedByKey(Merge(rem))
    decreases TotalLen(rem)
  {
    if MinIdx(rem, |rem|).Some? {
      var i := MinIdx(rem, |rem|).value;
      MergeStep(rem, i);
      var rem' := rem[i := rem[i][1..]];
      SortedDrop(rem, i);
      MergeSorted(rem');
      var h, rest := rem[i][0], Merge(rem');
      MergeRestAbove(rem, i);
      SortedCons(h, rest);
    }
  }

  lemma {:induction false} KeyFilterConcat(a: seq<Row>, b: seq<Row>, k: string)
    ensures KeyFilter(a + b, k) == KeyFilter(a, k) + KeyFilter(b, k)
    decreases |b|
  {
    if b == [] {
      assert a + b == a;
    } else {
      var init, last := b[..|b| - 1], b[|b| - 1];
      assert a + b == (a + init) + [last];
      KeyFilterAppend(a + init, last, k);
      KeyFilterConcat(a, init, k);
      KeyFilterAppend(init, last, k);
      assert b == init + [last];
    }
  }

  lemma {:induction false} KeyFilterMembers(s: seq<Row>, k: string)
    ensures forall x :: x in KeyFilter(s, k) ==> x in s && Key(x) == k
  {
    if s != [] {
      KeyFilterMembers(s[..|s| - 1], k);
    }
  }

  /** A chunk none of whose rows can carry key `k` (its head is strictly above it)
      contributes nothing to `k`. */
  lemma KeyFilterAbove(s: seq<Row>, k: string)
    requires SortedByKey(s) && s != [] && Less(k, Key(s[0]))
    ensures KeyFilter(s, k) == []
  {
    KeyFilterMembers(s, k);
    if KeyFilter(s, k) != [] {
      var x := KeyFilter(s, k)[0];
      assert x in KeyFilter(s, k);
      SortedHead(s, x);
    }
  }

  /** Replacing one part changes the concatenation in that part only. */
  lemma ConcatReplace<T>(ss: seq<seq<T>>, i: nat, t: seq<T>)
    requires i < |ss|
    ensures Concat(ss) == Concat(ss[..i]) + ss[i] + Concat(ss[i + 1..])
    ensures Concat(ss[i := t]) == Concat(ss[..i]) + t + Concat(ss[i + 1..])
  {
    ConcatSplit(ss, i);
    ConcatSplit(ss[i := t], i);
    assert ss[i := t][..i] == ss[..i];
    assert ss[i := t][i + 1..] == ss[i + 1..];
  }

  /** The step of `MergeKeyFilter` when the emitted row carries key `k`: every chunk
      before the chosen one has nothing of key `k`. */
  lemma EarlierChunksLack(rem: seq<seq<Row>>, i: nat, k: string)
    requires MinIdx(rem, |rem|) == Some(i) && Key(rem[i][0]) == k
    requires AllSorted(rem)
    ensures Concat(FilterEach(rem, k)[..i]) == []
  {
    var F := FilterEach(rem, k);
    MinIdxFirst(rem, |rem|);
    forall c | 0 <= c < i ensures F[..i][c] == [] {
      if rem[c] != [] {
        KeyFilterAbove(rem[c], k);
      }
    }
    ConcatAllEmpty(F[..i]);
  }

  lemma SortedTail(s: seq<Row>)
    requires SortedByKey(s) && s != []
    ensures SortedByKey(s[1..])
  {
    var t := s[1..];
    forall p, q | 0 <= p < q < |t| ensures LessEq(Key(t[p]), Key(t[q])) {
      assert t[p] == s[p + 1] && t[q] == s[q + 1];
    }
  }

  /** Dropping the head of a sorted chunk leaves it sorted. */
  lemma SortedDrop(rem: seq<seq<Row>>, i: nat)
    requires i < |rem| && rem[i] != []
    requires AllSorted(rem)
    ensures AllSorted(rem[i := rem[i][1..]])
  {
    SortedTail(rem[i]);
  }

  lemma AppendAssoc<T>(a: seq<T>, b: seq<T>, c: seq<T>)
    ensures a + (b + c) == (a + b) + c
  {
  }

  /** Filtering a chunk whose head is `h` splits off the head's contribution. */
  lemma KeyFilterHead(s: seq<Row>, k: string)
    requires s != []
    ensures KeyFilter(s, k) == (if Key(s[0]) == k then [s[0]] else []) + KeyFilter(s[1..], k)
  {
    assert s == [s[0]] + s[1..];
    KeyFilterConcat([s[0]], s[1..], k);
    assert KeyFilter([s[0]], k) == KeyFilter([], k) + (if Key(s[0]) == k then [s[0]] else []);
  }

  /** The key-`k` rows of the merge: the first row's own contribution, then those of
      the merge of the rest. */
  lemma MergeKeyFilterHead(rem: seq<seq<Row>>, i: nat, k: string)
    requires MinIdx(rem, |rem|) == Some(i)
    ensures KeyFilter(Merge(rem), k) ==
      (if Key(rem[i][0]) == k then [rem[i][0]] else []) + KeyFilter(Merge(rem[i := rem[i][1..]]), k)
  {
    var h, M' := rem[i][0], Merge(rem[i := rem[i][1..]]);
    MergeStep(rem, i);
    KeyFilterHead([h] + M', k);
    assert ([h] + M')[1..] == M';
  }

  /** The key-`k` rows of the chunks after the step: those of chunk `i` lose the head's
      contribution, all others are unchanged. */
  lemma FilterEachStep(rem: seq<seq<Row>>, i: nat, k: string)
    requires i < |rem| && rem[i] != []
    ensures FilterEach(rem, k)[i] ==
      (if Key(rem[i][0]) == k then [rem[i][0]] else []) + KeyFilter(rem[i][1..], k)
    ensures FilterEach(rem[i := rem[i][1..]], k) == FilterEach(rem, k)[i := KeyFilter(rem[i][1..], k)]
  {
    KeyFilterHead(rem[i], k);
  }

  /** One emitted row: filtering the merge to key `k` follows the chunks in order. */
  lemma MergeKeyFilterStep(rem: seq<seq<Row>>, i: nat, k: string)
    requires MinIdx(rem, |rem|) == Some(i)
    requires AllSorted(rem)
    requires KeyFilter(Merge(rem[i := rem[i][1..]]), k) == Concat(FilterEach(rem[i := rem[i][1..]], k))
    ensures KeyFilter(Merge(rem), k) == Concat(FilterEach(rem, k))
  {
    var h := rem[i][0];
    var A := if Key(h) == k then [h] else [];
    MergeKeyFilterHead(rem, i, k);
    FilterEachStep(rem, i, k);
    var F := FilterEach(rem, k);
    var KT, P, R := KeyFilter(rem[i][1..], k), Concat(F[..i]), Concat(F[i + 1..]);
    ConcatReplace(F, i, KT);
    if Key(h) == k {
      EarlierChunksLack(rem, i, k);
    }
    MoveHead(A, P, KT, R);
  }

  /** The sequence algebra of one merge step: the head's contribution `a` can be moved
      in front of the earlier chunks' contribution `p` when one of the two is empty. */
  lemma MoveHead<T>(a: seq<T>, p: seq<T>, kt: seq<T>, r: seq<T>)
    requires a == [] || p == []
    ensures a + (p + kt + r) == p + (a + kt) + r
  {
    if a == [] {
      assert a + (p + kt + r) == p + kt + r;
    } else {
      assert p + (a + kt) + r == a + kt + r;
    }
  }

  /** Rows with equal lower-cased titles come out chunk by chunk in increasing chunk
      index, and within one chunk in that chunk's order. */
  lemma {:induction false} MergeKeyFilter(rem: seq<seq<Row>>, k: string)
    requires AllSorted(rem)
    ensures KeyFilter(Merge(rem), k) == Concat(FilterEach(rem, k))
    decreases TotalLen(rem)
  {
    if MinIdx(rem, |rem|).None? {
      MinIdxNone(rem, |rem|);
      ConcatAllEmpty(FilterEach(rem, k));
    } else {
      var i := MinIdx(rem, |rem|).value;
      MergeStep(rem, i);
      SortedDrop(rem, i);
      MergeKeyFilter(rem[i := rem[i][1..]], k);
      MergeKeyFilterStep(rem, i, k);
    }
  }

  /** Filtering the concatenation is concatenating the filtered parts. */
  lemma {:induction false} KeyFilterOfConcat(ss: seq<seq<Row>>, k: string)
    ensures KeyFilter(Concat(ss), k) == Concat(FilterEach(ss, k))
  {
    if ss != [] {
      KeyFilterOfConcat(ss[1..], k);
      KeyFilterConcat(ss[0], Concat(ss[1..]), k);
      assert FilterEach(ss, k)[1..] == FilterEach(ss[1..], k);
    }
  }

  // ---------------------------------------------------------------------------
  // The external sort as a whole.

  lemma SortedLast(s: seq<Row>, y: Row)
    requires SortedByKey(s) && y in s
    ensures LessEq(Key(y), Key(s[|s| - 1]))
  {
    LessIrreflexive(Key(y));
  }

  lemma SortedInit(s: seq<Row>)
    requires SortedByKey(s) && s != []
    ensures SortedByKey(s[..|s| - 1])
  {
  }

  /** Two sorted sequences with the same rows per key end in rows of the same key. */
  lemma LastKeysEqual(a: seq<Row>, b: seq<Row>)
    requires SortedByKey(a) && SortedByKey(b) && a != [] && b != []
    requires forall k :: KeyFilter(a, k) == KeyFilter(b, k)
    ensures Key(a[|a| - 1]) == Key(b[|b| - 1])
  {
    var ka, kb := Key(a[|a| - 1]), Key(b[|b| - 1]);
    LastBelow(a, b, ka);
    LastBelow(b, a, kb);
    LessTrichotomy(ka, kb);
  }

  /** If the last row of `a` has key `ka`, then `b` holds a row of key `ka`, so `ka` is
      no larger than the key of `b`'s last row. */
  lemma LastBelow(a: seq<Row>, b: seq<Row>, ka: string)
    requires SortedByKey(b) && a != [] && b != [] && ka == Key(a[|a| - 1])
    requires KeyFilter(a, ka) == KeyFilter(b, ka)
    ensures LessEq(ka, Key(b[|b| - 1]))
  {
    assert KeyFilter(a, ka) != [];
    KeyFilterMembers(b, ka);
    var y := KeyFilter(b, ka)[0];
    assert y in KeyFilter(b, ka);
    SortedLast(b, y);
  }

  /** A sequence sorted by key is determined by its rows of each key: two sorted
      sequences that agree key by key are equal. */
  lemma {:induction false} SortedUnique(a: seq<Row>, b: seq<Row>)
    requires SortedByKey(a) && SortedByKey(b)
    requires forall k :: KeyFilter(a, k) == KeyFilter(b, k)
    ensures a == b
    decreases |a| + |b|
  {
    if a == [] && b != [] {
      LastFilter(b);
      assert false;
    } else if a != [] && b == [] {
      LastFilter(a);
      assert false;
    } else if a != [] {
      LastKeysEqual(a, b);
      var ai, bi := a[..|a| - 1], b[..|b| - 1];
      assert a == ai + [a[|a| - 1]] && b == bi + [b[|b| - 1]];
      InitsAgree(ai, a[|a| - 1], bi, b[|b| - 1]);
      SortedInit(a);
      SortedInit(b);
      SortedUnique(ai, bi);
    }
  }

  /** A non-empty sequence has a row of the key of its last row. */
  lemma LastFilter(s: seq<Row>)
    requires s != []
    ensures KeyFilter(s, Key(s[|s| - 1])) != []
  {
  }

  /** Removing last rows that carry one key keeps the agreement key by key. */
  lemma InitsAgree(ai: seq<Row>, la: Row, bi: seq<Row>, lb: Row)
    requires Key(la) == Key(lb)
    requires forall k :: KeyFilter(ai + [la], k) == KeyFilter(bi + [lb], k)
    ensures la == lb
    ensures forall k :: KeyFilter(ai, k) == KeyFilter(bi, k)
  {
    var k0 := Key(la);
    KeyFilterAppend(ai, la, k0);
    KeyFilterAppend(bi, lb, k0);
    LastOfAppend(KeyFilter(ai, k0), la, KeyFilter(bi, k0), lb);
    forall k ensures KeyFilter(ai, k) == KeyFilter(bi, k) {
      KeyFilterAppend(ai, la, k);
      KeyFilterAppend(bi, lb, k);
      if k != k0 {
        assert KeyFilter(ai + [la], k) == KeyFilter(ai, k) + [];
        assert KeyFilter(bi + [lb], k) == KeyFilter(bi, k) + [];
        assert KeyFilter(ai, k) + [] == KeyFilter(ai, k);
        assert KeyFilter(bi, k) + [] == KeyFilter(bi, k);
      }
    }
  }

  lemma LastOfAppend<T>(s: seq<T>, x: T, t: seq<T>, y: T)
    requires s + [x] == t + [y]
    ensures s == t && x == y
  {
    assert |s| == |t|;
    assert (s + [x])[|s|] == x && (t + [y])[|t|] == y;
    assert forall p :: 0 <= p < |s| ==> s[p] == (s + [x])[p] && t[p] == (t + [y])[p];
  }

  /** Sorting each chunk does not change which rows carry a key, nor their order. */
  lemma FilterEachSorted(raw: seq<seq<Row>>, k: string)
    ensures FilterEach(SortEach(raw), k) == FilterEach(raw, k)
  {
    SortEachAt(raw);
    forall c | 0 <= c < |raw| ensures KeyFilter(SortEach(raw)[c], k) == KeyFilter(raw[c], k) {
      SortByKeyStable(raw[c], k);
    }
  }

  /** The external merge sort computes exactly Python's stable in-memory sort of the
      whole input: sorting the chunks and merging them by `(title.lower(), chunk_idx)`
      gives `SortByKey` of their concatenation. */
  lemma ExternalSortIsStableSort(raw: seq<seq<Row>>)
    ensures Merge(SortEach(raw)) == SortByKey(Concat(raw))
  {
    var merged, sorted := Merge(SortEach(raw)), SortByKey(Concat(raw));
    EachChunkSorted(raw);
    SortEachAt(raw);
    assert AllSorted(SortEach(raw));
    MergeSorted(SortEach(raw));
    SortByKeySortedPermutation(Concat(raw));
    forall k ensures KeyFilter(merged, k) == KeyFilter(sorted, k) {
      MergeKeyFilter(SortEach(raw), k);
      FilterEachSorted(raw, k);
      KeyFilterOfConcat(raw, k);
      SortByKeyStable(Concat(raw), k);
    }
    SortedUnique(merged, sorted);
  }
}
