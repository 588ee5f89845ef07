/** `merge_sorted_chunks` and `sort_csv_external` from build_wikidict_full.py: the
    heap-driven k-way merge over one reader per chunk file, and the two phases together. */
module MergeChunks {
  import opened Base
  import opened TitleOrder
  import opened ChunkSort
  import opened KWayMerge

  /** A `heapq` heap: the list of `(sort_key, chunk_idx, row)` tuples. Only the
      multiset of entries and the pop-minimum contract matter to the merge; the
      binary-heap arrangement of the list is not modelled. */
  class MinHeap {
    var entries: seq<Entry>

    constructor ()
      ensures entries == []
    {
      entries := [];
    }

    /** `heapq.heappush` */
    method Push(e: Entry)
      modifies this
      ensures entries == old(entries) + [e]
    {
      entries := entries + [e];
    }

    /** `heapq.heappop`: removes one least entry in the tuple order and returns it. */
    method Pop() returns (e: Entry)
      requires entries != []
      modifies this
      ensures e in old(entries)
      ensures forall f :: f in old(entries) ==> EntryLessEq(e, f)
      ensures multiset(entries) + multiset{e} == multiset(old(entries))
    {
      var all := entries;
      var m, j := 0, 1;
      LessIrreflexive(all[0].key);
      while j < |all|
        invariant 0 <= m < j <= |all|
        invariant forall p :: 0 <= p < j ==> EntryLessEq(all[m], all[p])
      {
        if EntryLess(all[j], all[m]) {
          forall p | 0 <= p < j ensures EntryLessEq(all[j], all[p]) {
            EntryLessEqTotal(all[j], all[m]);
            EntryLessEqTransitive(all[j], all[m], all[p]);
          }
          LessIrreflexive(all[j].key);
          m := j;
        }
        j := j + 1;
      }
      e := all[m];
      forall f | f in all ensures EntryLessEq(e, f) {
        var p :| 0 <= p < |all| && all[p] == f;
      }
      assert all == all[..m] + [e] + all[m + 1..];
      entries := all[..m] + all[m + 1..];
      assert multiset(all) == multiset(all[..m]) + multiset{e} + multiset(all[m + 1..]);
    }
  }

  /** What a reader still has to deliver for chunk `c` when the chunk's unmerged rows
      are `r`: all but the head, which sits on the heap. */
  function Unread(r: seq<Row>): seq<Row>
  {
    if r == [] then [] else r[1..]
  }

  /** The heap holds exactly the heads of the unexhausted chunks, each once. */
  ghost predicate HeapHolds(heap: seq<Entry>, rem: seq<seq<Row>>, n: nat)
    requires n <= |rem|
  {
    (forall f :: f in heap <==> f in Heads(rem, n)) &&
    (forall f :: multiset(heap)[f] <= 1)
  }

  /** The state of the merge loop: `rem[c]` are the rows of chunk `c` not yet written,
      the heap holds the head of every unexhausted chunk and the readers the rest, and
      what is written followed by the merge of `rem` is the merge of all chunks. */
  ghost predicate Merging(chunks: seq<seq<Row>>, readers: seq<seq<Row>>, heap: seq<Entry>,
                          rem: seq<seq<Row>>, output: seq<Row>)
  {
    |readers| == |rem| == |chunks| &&
    (forall c :: 0 <= c < |rem| ==> readers[c] == Unread(rem[c])) &&
    HeapHolds(heap, rem, |rem|) &&
    output + Merge(rem) == Merge(chunks)
  }

  /** Taking the head of chunk `c` replaces its heap entry by the entry of its next row,
      or removes it when the chunk is exhausted. */
  lemma HeadsAdvance(rem: seq<seq<Row>>, c: nat, f: Entry)
    requires c < |rem| && rem[c] != []
    ensures var rem' := rem[c := rem[c][1..]];
      f in Heads(rem', |rem|) <==>
        (f in Heads(rem, |rem|) && f != HeadEntry(rem, c)) || (rem'[c] != [] && f == HeadEntry(rem', c))
  {
    var rem' := rem[c := rem[c][1..]];
    if f in Heads(rem', |rem|) {
      HeadsMember(rem', |rem|, f);
      if f.idx != c {
        HeadsComplete(rem, |rem|, f.idx);
      }
    }
    if f in Heads(rem, |rem|) && f != HeadEntry(rem, c) {
      HeadsMember(rem, |rem|, f);
      HeadsComplete(rem', |rem|, f.idx);
    }
    if rem'[c] != [] && f == HeadEntry(rem', c) {
      HeadsComplete(rem', |rem|, c);
    }
  }

  /** Starting the readers: chunk `idx`'s first row is pushed, and it is new. */
  lemma StartStep(chunks: seq<seq<Row>>, heap: seq<Entry>, idx: nat)
    requires idx < |chunks| && HeapHolds(heap, chunks, idx)
    ensures chunks[idx] == [] ==> HeapHolds(heap, chunks, idx + 1)
    ensures chunks[idx] != [] ==> HeapHolds(heap + [HeadEntry(chunks, idx)], chunks, idx + 1)
  {
    if chunks[idx] != [] {
      var h := HeadEntry(chunks, idx);
      if h in Heads(chunks, idx) {
        HeadsMember(chunks, idx, h);
      }
      assert h !in heap;
      forall f ensures multiset(heap + [h])[f] <= 1 {
        assert multiset(heap + [h]) == multiset(heap) + multiset{h};
      }
    }
  }

  /** `heappop` on a heap without repeated entries removes the popped entry entirely. */
  lemma AfterPop(heap: seq<Entry>, e: Entry, heap': seq<Entry>)
    requires forall f :: multiset(heap)[f] <= 1
    requires multiset(heap') + multiset{e} == multiset(heap)
    ensures forall f :: f in heap' <==> f in heap && f != e
    ensures forall f :: multiset(heap')[f] <= 1
  {
    forall f ensures (f in heap' <==> f in heap && f != e) && multiset(heap')[f] <= 1 {
      assert multiset(heap')[f] + multiset{e}[f] == multiset(heap)[f];
      if f == e {
        assert multiset{e}[f] == 1;
      } else {
        assert multiset{e}[f] == 0;
      }
    }
  }

  /** `heappush` of an entry the heap does not hold keeps it free of repeats. */
  lemma AfterPush(heap: seq<Entry>, h: Entry)
    requires forall f :: multiset(heap)[f] <= 1
    requires h !in heap
    ensures forall f :: f in heap + [h] <==> f in heap || f == h
    ensures forall f :: multiset(heap + [h])[f] <= 1
  {
    assert multiset(heap + [h]) == multiset(heap) + multiset{h};
  }

  /** Removing the least entry and pushing the next row of its chunk keeps `HeapHolds`. */
  lemma HeapStep(heap: seq<Entry>, rem: seq<seq<Row>>, e: Entry, heap': seq<Entry>)
    requires HeapHolds(heap, rem, |rem|)
    requires e in Heads(rem, |rem|) && e.idx < |rem| && rem[e.idx] != [] && e == HeadEntry(rem, e.idx)
    requires multiset(heap') + multiset{e} == multiset(heap)
    ensures var c := e.idx;
      var rem' := rem[c := rem[c][1..]];
      HeapHolds(if rem'[c] == [] then heap' else heap' + [HeadEntry(rem', c)], rem', |rem|)
  {
    var c := e.idx;
    var rem' := rem[c := rem[c][1..]];
    AfterPop(heap, e, heap');
    if rem'[c] != [] {
      var h := HeadEntry(rem', c);
      if h in heap' {
        HeadsMember(rem, |rem|, h);
      }
      AfterPush(heap', h);
      forall f ensures f in heap' + [h] <==> f in Heads(rem', |rem|) {
        HeadsAdvance(rem, c, f);
      }
    } else {
      forall f ensures f in heap' <==> f in Heads(rem', |rem|) {
        HeadsAdvance(rem, c, f);
      }
    }
  }

  /** One round of the merge loop keeps `Merging`. */
  lemma PopStep(chunks: seq<seq<Row>>, readers: seq<seq<Row>>, heap: seq<Entry>,
                rem: seq<seq<Row>>, output: seq<Row>, e: Entry, heap': seq<Entry>)
    requires Merging(chunks, readers, heap, rem, output)
    requires e in heap && (forall f :: f in heap ==> EntryLessEq(e, f))
    requires multiset(heap') + multiset{e} == multiset(heap)
    ensures e.idx < |rem| && rem[e.idx] != []
    ensures readers[e.idx] == rem[e.idx][1..]
    ensures var c := e.idx;
      var rem' := rem[c := rem[c][1..]];
      var readers' := if readers[c] == [] then readers else readers[c := readers[c][1..]];
      var heap'' := if readers[c] == [] then heap' else heap' + [Entry(Key(readers[c][0]), c, readers[c][0])];
      Merging(chunks, readers', heap'', rem', output + [e.row]) && TotalLen(rem') < TotalLen(rem)
  {
    MinEntry(rem, e);
    var c := e.idx;
    var rem' := rem[c := rem[c][1..]];
    MergeStep(rem, c);
    HeapStep(heap, rem, e, heap');
    var readers' := if readers[c] == [] then readers else readers[c := readers[c][1..]];
    forall d | 0 <= d < |rem'| ensures readers'[d] == Unread(rem'[d]) {
      if d == c && readers[c] != [] {
        assert rem'[c] == readers[c];
      }
    }
    assert (output + [e.row]) + Merge(rem') == output + Merge(rem);
  }

  /** `merge_sorted_chunks`: below the header, which it always writes, the rows of the
      sorted chunk files in merged order; `output` holds those rows. `written` is
      `total_written`. */
  method MergeSortedChunks(chunks: seq<seq<Row>>) returns (output: seq<Row>, written: nat)
    ensures output == Merge(chunks)
    ensures written == |output|
  {
    // Open every reader and push its first row.
    var readers := chunks;
    var heap := new MinHeap();
    for idx := 0 to |chunks|
      invariant |readers| == |chunks|
      invariant forall c :: 0 <= c < idx ==> readers[c] == Unread(chunks[c])
      invariant forall c :: idx <= c < |chunks| ==> readers[c] == chunks[c]
      invariant HeapHolds(heap.entries, chunks, idx)
    {
      StartStep(chunks, heap.entries, idx);
      if readers[idx] != [] {
        var row := readers[idx][0];
        heap.Push(Entry(Key(row), idx, row));
        readers := readers[idx := readers[idx][1..]];
      }
    }

    ghost var rem := chunks;
    output, written := [], 0;
    while |heap.entries| > 0
      invariant Merging(chunks, readers, heap.entries, rem, output)
      invariant written == |output|
      decreases TotalLen(rem)
    {
      ghost var before := heap.entries;
      var e := heap.Pop();
      PopStep(chunks, readers, before, rem, output, e, heap.entries);
      output, written := output + [e.row], written + 1;
      var c := e.idx;
      if readers[c] != [] {
        var next := readers[c][0];
        heap.Push(Entry(Key(next), c, next));
        readers := readers[c := readers[c][1..]];
      }
      rem := rem[c := rem[c][1..]];
    }
    MergeDone(rem);
  }

  /** An empty heap means every chunk is exhausted and nothing is left to merge. */
  lemma MergeDone(rem: seq<seq<Row>>)
    requires HeapHolds([], rem, |rem|)
    ensures Merge(rem) == []
  {
    if MinIdx(rem, |rem|).Some? {
      HeadsComplete(rem, |rem|, MinIdx(rem, |rem|).value);
      assert false;
    }
  }

  /** `sort_csv_external`: the rows of the output file, below its header. */
  method SortCsvExternal(rows: seq<Row>, chunkSize: int) returns (output: seq<Row>)
    ensures output == SortByKey(rows)
  {
    var chunks, chunkNumber, raw := SplitAndSortChunks(rows, chunkSize);
    var written;
    output, written := MergeSortedChunks(chunks);
    ExternalSortIsStableSort(raw);
  }
}
