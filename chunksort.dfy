/** Phase 1 of the external merge sort in build_wikidict_full.py: the row stream is cut
    into chunks of at most `chunk_size` rows and each chunk is stable-sorted in place by
    its lower-cased title before it is written out. */
module ChunkSort {
  import opened Base
  import opened TitleOrder

  /** Non-decreasing by lower-cased title. */
  predicate SortedByKey(s: seq<Row>)
  {
    forall i, j :: 0 <= i < j < |s| ==> LessEq(Key(s[i]), Key(s[j]))
  }

  /** The rows of `s` whose lower-cased title is `k`, in their order in `s`. */
  function KeyFilter(s: seq<Row>, k: string): seq<Row>
  {
    if s == [] then []
    else KeyFilter(s[..|s| - 1], k) + (if Key(s[|s| - 1]) == k then [s[|s| - 1]] else [])
  }

  /** Inserts `x` into `s` behind every row whose key is not greater than its own:
      the step of a stable insertion sort, scanning from the back. */
  function Insert(s: seq<Row>, x: Row): (r: seq<Row>)
    ensures |r| == |s| + 1
    decreases |s|
  {
    if s == [] || !Less(Key(x), Key(s[|s| - 1])) then s + [x]
    else Insert(s[..|s| - 1], x) + [s[|s| - 1]]
  }

  /** The stable sort by lower-cased title that Python's `list.sort(key=...)` performs,
      written as insertion sort. */
  function SortByKey(s: seq<Row>): (r: seq<Row>)
    ensures |r| == |s|
  {
    if s == [] then [] else Insert(SortByKey(s[..|s| - 1]), s[|s| - 1])
  }

  lemma {:induction false} InsertPermutes(s: seq<Row>, x: Row)
    ensures multiset(Insert(s, x)) == multiset(s) + multiset{x}
    ensures |Insert(s, x)| == |s| + 1
  {
    if s != [] && Less(Key(x), Key(s[|s| - 1])) {
      InsertPermutes(s[..|s| - 1], x);
      MultisetLast(s);
    }
  }

  /** Every element of `Insert(s, x)` is `x` or an element of `s`. */
  lemma {:induction false} InsertElements(s: seq<Row>, x: Row)
    ensures forall y :: y in Insert(s, x) ==> y == x || y in s
  {
    InsertPermutes(s, x);
    forall y | y in Insert(s, x) ensures y == x || y in s {
      assert y in multiset(Insert(s, x));
    }
  }

  lemma {:induction false} InsertSorted(s: seq<Row>, x: Row)
    requires SortedByKey(s)
    ensures SortedByKey(Insert(s, x))
  {
    if s == [] {
    } else if !Less(Key(x), Key(s[|s| - 1])) {
      var r := s + [x];
      forall i, j | 0 <= i < j < |r| ensures LessEq(Key(r[i]), Key(r[j])) {
        if j == |s| && i < |s| - 1 {
          LessEqTransitive(Key(s[i]), Key(s[|s| - 1]), Key(x));
        }
      }
    } else {
      var init, last := s[..|s| - 1], s[|s| - 1];
      InsertSorted(init, x);
      InsertElements(init, x);
      var ins := Insert(init, x);
      var r := ins + [last];
      InsertPermutes(init, x);
      forall i, j | 0 <= i < j < |r| ensures LessEq(Key(r[i]), Key(r[j])) {
        if j == |ins| {
          assert r[i] in ins;
          if r[i] == x {
            LessImpliesLessEq(Key(x), Key(last));
          } else {
            var p :| 0 <= p < |init| && init[p] == r[i];
            assert s[p] == r[i];
          }
        }
      }
    }
  }

  lemma {:induction false} KeyFilterAppend(s: seq<Row>, x: Row, k: string)
    ensures KeyFilter(s + [x], k) == KeyFilter(s, k) + (if Key(x) == k then [x] else [])
  {
    assert (s + [x])[..|s + [x]| - 1] == s;
  }

  /** Insertion moves `x` only past rows with a strictly greater key, so the rows of any
      one key keep their relative order. */
  lemma {:induction false} InsertStable(s: seq<Row>, x: Row, k: string)
    ensures KeyFilter(Insert(s, x), k) == KeyFilter(s, k) + (if Key(x) == k then [x] else [])
  {
    if s == [] || !Less(Key(x), Key(s[|s| - 1])) {
      KeyFilterAppend(s, x, k);
    } else {
      var init, last := s[..|s| - 1], s[|s| - 1];
      var ins := Insert(init, x);
      assert Insert(s, x) == ins + [last];
      InsertStable(init, x, k);
      KeyFilterAppend(ins, last, k);
      var ex := if Key(x) == k then [x] else [];
      var el := if Key(last) == k then [last] else [];
      assert KeyFilter(s, k) == KeyFilter(init, k) + el;
      if Key(x) == k {
        LessIrreflexive(Key(x));
        assert el == [];
      }
      assert ex + el == el + ex;
    }
  }

  /** Python's sort gives a sorted permutation of the chunk ... */
  lemma {:induction false} SortByKeySortedPermutation(s: seq<Row>)
    ensures SortedByKey(SortByKey(s))
    ensures multiset(SortByKey(s)) == multiset(s)
    ensures |SortByKey(s)| == |s|
  {
    if s != [] {
      var init := s[..|s| - 1];
      SortByKeySortedPermutation(init);
      InsertSorted(SortByKey(init), s[|s| - 1]);
      InsertPermutes(SortByKey(init), s[|s| - 1]);
      MultisetLast(s);
    }
  }

  /** ... and the sort is stable: for every key, the rows carrying it appear in the
      same order as in the input. */
  lemma {:induction false} SortByKeyStable(s: seq<Row>, k: string)
    ensures KeyFilter(SortByKey(s), k) == KeyFilter(s, k)
  {
    if s != [] {
      var init := s[..|s| - 1];
      SortByKeyStable(init, k);
      InsertStable(SortByKey(init), s[|s| - 1], k);
    }
  }

  /** Where insertion puts `x`: behind position `j` when the row before `j` does not
      have a greater key and every row from `j` on does. */
  lemma {:induction false} InsertSplit(s: seq<Row>, x: Row, j: nat)
    requires j <= |s|
    requires j == 0 || !Less(Key(x), Key(s[j - 1]))
    requires forall k :: j <= k < |s| ==> Less(Key(x), Key(s[k]))
    ensures Insert(s, x) == s[..j] + [x] + s[j..]
  {
    if j == |s| {
      assert s[..j] == s;
    } else {
      var init, last := s[..|s| - 1], s[|s| - 1];
      assert Less(Key(x), Key(last));
      assert Insert(s, x) == Insert(init, x) + [last];
      InsertSplit(init, x, j);
      assert init[..j] == s[..j];
      assert init[j..] + [last] == s[j..];
    }
  }

  /** One pass of the insertion sort: the row at position `i` is moved back past every
      row before it whose key is strictly greater, and lands at position `j`. */
  method InsertAt(a: array<Row>, i: nat) returns (j: nat)
    requires i < a.Length
    modifies a
    ensures j <= i
    ensures forall k :: 0 <= k < j ==> a[k] == old(a[k])
    ensures a[j] == old(a[i])
    ensures forall k :: j < k <= i ==> a[k] == old(a[k - 1])
    ensures forall k :: i < k < a.Length ==> a[k] == old(a[k])
    ensures j == 0 || !Less(Key(old(a[i])), Key(old(a[j - 1])))
    ensures forall k :: j <= k < i ==> Less(Key(old(a[i])), Key(old(a[k])))
  {
    var x := a[i];
    j := i;
    while j > 0 && Less(Key(x), Key(a[j - 1]))
      invariant 0 <= j <= i
      invariant forall k :: 0 <= k < j ==> a[k] == old(a[k])
      invariant forall k :: j < k <= i ==> a[k] == old(a[k - 1])
      invariant forall k :: i < k < a.Length ==> a[k] == old(a[k])
      invariant forall k :: j <= k < i ==> Less(Key(x), Key(old(a[k])))
    {
      a[j] := a[j - 1];
      j := j - 1;
    }
    a[j] := x;
  }

  /** The array after one pass, read as a sequence: the sorted prefix with `x` inserted. */
  lemma InsertedPrefix(before: seq<Row>, after: seq<Row>, i: nat, j: nat)
    requires i < |before| == |after| && j <= i
    requires forall k :: 0 <= k < j ==> after[k] == before[k]
    requires after[j] == before[i]
    requires forall k :: j < k <= i ==> after[k] == before[k - 1]
    requires forall k :: i < k < |after| ==> after[k] == before[k]
    requires j == 0 || !Less(Key(before[i]), Key(before[j - 1]))
    requires forall k :: j <= k < i ==> Less(Key(before[i]), Key(before[k]))
    ensures after[..i + 1] == Insert(before[..i], before[i])
    ensures after[i + 1..] == before[i + 1..]
  {
    var s := before[..i];
    InsertSplit(s, before[i], j);
    assert after[..i + 1] == s[..j] + [before[i]] + s[j..];
  }

  /** One pass keeps the loop invariant of the insertion sort: the first `i + 1` cells
      hold the sorted first `i + 1` input rows and the rest is untouched. */
  lemma SortStep(input: seq<Row>, before: seq<Row>, after: seq<Row>, i: nat)
    requires i < |before| == |after| == |input|
    requires before[..i] == SortByKey(input[..i]) && before[i..] == input[i..]
    requires after[..i + 1] == Insert(before[..i], before[i])
    requires after[i + 1..] == before[i + 1..]
    ensures after[..i + 1] == SortByKey(input[..i + 1])
    ensures after[i + 1..] == input[i + 1..]
  {
    calc {
      before[i];
      before[i..][0];
      input[i..][0];
      input[i];
    }
    assert input[..i + 1][..i] == input[..i];
    calc {
      after[i + 1..];
      before[i..][1..];
      input[i..][1..];
      input[i + 1..];
    }
  }

  /** `data.sort(key=lambda row: row['title'].lower())` on the chunk buffer: insertion
      sort in place. */
  method SortInPlace(a: array<Row>)
    modifies a
    ensures a[..] == SortByKey(old(a[..]))
  {
    ghost var input := a[..];
    var i := 0;
    while i < a.Length
      invariant 0 <= i <= a.Length
      invariant a[..i] == SortByKey(input[..i])
      invariant a[i..] == input[i..]
    {
      ghost var before := a[..];
      var j := InsertAt(a, i);
      InsertedPrefix(before, a[..], i, j);
      SortStep(input, before, a[..], i);
      i := i + 1;
    }
    assert input[..a.Length] == input;
  }

  /** `write_sorted_chunk`: sorts the buffered rows and returns what the chunk file holds. */
  method WriteSortedChunk(data: seq<Row>) returns (chunk: seq<Row>)
    ensures chunk == SortByKey(data)
  {
    var a := new Row[|data|](i requires 0 <= i < |data| => data[i]);
    assert a[..] == data;
    SortInPlace(a);
    chunk := a[..];
  }

  /** The number of rows that make a full chunk: a `chunk_size` below 1 flushes after
      every row, since `len(chunk_data) >= chunk_size` then holds at once. */
  function Capacity(chunkSize: int): nat
  {
    if chunkSize < 1 then 1 else chunkSize
  }

  /** The shape of the pre-sort chunk contents: non-empty, full except possibly the
      last, and together the input rows in order. */
  ghost predicate ChunkShape(raw: seq<seq<Row>>, rows: seq<Row>, chunkSize: int)
  {
    Concat(raw) == rows &&
    (forall c :: 0 <= c < |raw| ==> 0 < |raw[c]| <= Capacity(chunkSize)) &&
    (forall c :: 0 <= c < |raw| - 1 ==> |raw[c]| == Capacity(chunkSize))
  }

  /** Each pre-sort chunk replaced by its sorted contents. */
  function SortEach(raw: seq<seq<Row>>): (chunks: seq<seq<Row>>)
    ensures |chunks| == |raw|
  {
    if raw == [] then [] else SortEach(raw[..|raw| - 1]) + [SortByKey(raw[|raw| - 1])]
  }

  lemma {:induction false} SortEachAt(raw: seq<seq<Row>>)
    ensures |SortEach(raw)| == |raw|
    ensures forall c :: 0 <= c < |raw| ==> SortEach(raw)[c] == SortByKey(raw[c])
  {
    if raw != [] {
      SortEachAt(raw[..|raw| - 1]);
    }
  }

  /** Every chunk file is a sorted permutation of the rows that went into it. */
  lemma EachChunkSorted(raw: seq<seq<Row>>)
    ensures forall c :: 0 <= c < |raw| ==>
      SortedByKey(SortEach(raw)[c]) && multiset(SortEach(raw)[c]) == multiset(raw[c])
  {
    SortEachAt(raw);
    forall c | 0 <= c < |raw|
      ensures SortedByKey(SortEach(raw)[c]) && multiset(SortEach(raw)[c]) == multiset(raw[c])
    {
      SortByKeySortedPermutation(raw[c]);
    }
  }

  /** The chunk files together hold exactly the rows that went into them. */
  lemma {:induction false} SortEachPermutes(raw: seq<seq<Row>>)
    ensures multiset(Concat(SortEach(raw))) == multiset(Concat(raw))
  {
    if raw != [] {
      var init, last := raw[..|raw| - 1], raw[|raw| - 1];
      assert raw == init + [last];
      SortEachPermutes(init);
      SortByKeySortedPermutation(last);
      ConcatAppend(init, last);
      ConcatAppend(SortEach(init), SortByKey(last));
    }
  }

  /** Chunks of this shape, once sorted, are sorted, non-empty, no larger than a full
      chunk, and together a permutation of the input rows. */
  lemma SortedChunks(raw: seq<seq<Row>>, rows: seq<Row>, chunkSize: int)
    requires ChunkShape(raw, rows, chunkSize)
    ensures |SortEach(raw)| == |raw|
    ensures forall c :: 0 <= c < |raw| ==>
      SortedByKey(SortEach(raw)[c]) && 0 < |SortEach(raw)[c]| <= Capacity(chunkSize)
    ensures multiset(Concat(SortEach(raw))) == multiset(rows)
  {
    SortEachAt(raw);
    forall c | 0 <= c < |raw|
      ensures SortedByKey(SortEach(raw)[c]) && 0 < |SortEach(raw)[c]| <= Capacity(chunkSize)
    {
      SortByKeySortedPermutation(raw[c]);
    }
    SortEachPermutes(raw);
  }

  /** The state of `split_and_sort_chunks` after reading `prefix`: the chunks written
      so far are full and hold, sorted, the rows read before the buffer. */
  ghost predicate Progress(raw: seq<seq<Row>>, chunks: seq<seq<Row>>, chunkData: seq<Row>,
                           prefix: seq<Row>, cap: nat)
  {
    Concat(raw) + chunkData == prefix && chunks == SortEach(raw) && |chunkData| < cap &&
    forall c :: 0 <= c < |raw| ==> |raw[c]| == cap
  }

  lemma ReadRow(raw: seq<seq<Row>>, chunks: seq<seq<Row>>, chunkData: seq<Row>,
                rows: seq<Row>, i: nat, cap: nat)
    requires i < |rows|
    requires Progress(raw, chunks, chunkData, rows[..i], cap)
    ensures Concat(raw) + (chunkData + [rows[i]]) == rows[..i + 1]
    ensures |chunkData + [rows[i]]| < cap ==> Progress(raw, chunks, chunkData + [rows[i]], rows[..i + 1], cap)
  {
    assert rows[..i + 1] == rows[..i] + [rows[i]];
  }

  /** Flushing the buffer moves its rows from the buffer to a new last chunk. */
  lemma Flush(raw: seq<seq<Row>>, chunks: seq<seq<Row>>, chunkData: seq<Row>, prefix: seq<Row>, cap: nat)
    requires Concat(raw) + chunkData == prefix && chunks == SortEach(raw)
    requires forall c :: 0 <= c < |raw| ==> |raw[c]| == cap
    requires 0 < cap
    ensures Concat(raw + [chunkData]) == prefix
    ensures SortEach(raw + [chunkData]) == chunks + [SortByKey(chunkData)]
    ensures |chunkData| == cap ==> Progress(raw + [chunkData], chunks + [SortByKey(chunkData)], [], prefix, cap)
  {
    ConcatAppend(raw, chunkData);
    assert (raw + [chunkData])[..|raw|] == raw;
  }

  /** After the last row: the leftover buffer, if any, becomes the last (partial) chunk. */
  lemma Finish(raw: seq<seq<Row>>, chunks: seq<seq<Row>>, chunkData: seq<Row>, rows: seq<Row>, chunkSize: int)
    requires Progress(raw, chunks, chunkData, rows, Capacity(chunkSize))
    ensures chunkData == [] ==> ChunkShape(raw, rows, chunkSize)
    ensures chunkData != [] ==> ChunkShape(raw + [chunkData], rows, chunkSize)
    ensures SortEach(raw + [chunkData]) == chunks + [SortByKey(chunkData)]
  {
    Flush(raw, chunks, chunkData, rows, Capacity(chunkSize));
    if chunkData == [] {
      assert Concat(raw) == rows;
    }
  }

  /** `split_and_sort_chunks`: chunk `c` of the result is chunk file number `c`; it holds
      the sorted contents of the `c`-th run of consecutive input rows. */
  method SplitAndSortChunks(rows: seq<Row>, chunkSize: int)
    returns (chunks: seq<seq<Row>>, chunkNumber: nat, ghost raw: seq<seq<Row>>)
    ensures ChunkShape(raw, rows, chunkSize)
    ensures chunks == SortEach(raw) && chunkNumber == |raw|
    ensures chunkNumber == |chunks| && multiset(Concat(chunks)) == multiset(rows)
    ensures forall c :: 0 <= c < |chunks| ==>
      SortedByKey(chunks[c]) && 0 < |chunks[c]| <= Capacity(chunkSize)
  {
    var cap := Capacity(chunkSize);
    chunks, chunkNumber, raw := [], 0, [];
    var chunkData: seq<Row> := [];
    for i := 0 to |rows|
      invariant Progress(raw, chunks, chunkData, rows[..i], cap)
      invariant chunkNumber == |raw|
    {
      ReadRow(raw, chunks, chunkData, rows, i, cap);
      chunkData := chunkData + [rows[i]];
      if |chunkData| >= chunkSize {
        var chunk := WriteSortedChunk(chunkData);
        Flush(raw, chunks, chunkData, rows[..i + 1], cap);
        chunks, raw := chunks + [chunk], raw + [chunkData];
        chunkNumber := chunkNumber + 1;
        chunkData := [];
      }
    }
    assert rows[..|rows|] == rows;
    Finish(raw, chunks, chunkData, rows, chunkSize);
    if chunkData != [] {
      var chunk := WriteSortedChunk(chunkData);
      chunks, raw := chunks + [chunk], raw + [chunkData];
      chunkNumber := chunkNumber + 1;
    }
    SortedChunks(raw, rows, chunkSize);
  }
}
