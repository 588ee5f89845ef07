/** Values shared by every part of the build engine: the dictionary row, an optional
    value, and the sequence helpers the specifications are written with. */
module Base {

  datatype Option<T> = None | Some(value: T)

  /** One dictionary entry as the CSV tables hold it: a title and its article text. */
  datatype Row = Row(title: string, value: string)

  /** The concatenation of a sequence of sequences, front to back. */
  function Concat<T>(ss: seq<seq<T>>): seq<T>
  {
    if ss == [] then [] else ss[0] + Concat(ss[1..])
  }

  /** The number of elements across all the inner sequences. */
  function TotalLen<T>(ss: seq<seq<T>>): nat
  {
    |Concat(ss)|
  }

  lemma {:induction false} ConcatAppend<T>(ss: seq<seq<T>>, s: seq<T>)
    ensures Concat(ss + [s]) == Concat(ss) + s
  {
    if ss == [] {
      assert ss + [s] == [s];
    } else {
      assert (ss + [s])[1..] == ss[1..] + [s];
      ConcatAppend(ss[1..], s);
    }
  }

  /** Taking one element off the front of one inner sequence removes exactly that
      element from the multiset of all elements. */
  lemma {:induction false} ConcatDropHead<T>(ss: seq<seq<T>>, i: nat)
    requires i < |ss| && ss[i] != []
    ensures multiset(Concat(ss[i := ss[i][1..]])) + multiset{ss[i][0]} == multiset(Concat(ss))
    ensures TotalLen(ss[i := ss[i][1..]]) + 1 == TotalLen(ss)
  {
    var ss' := ss[i := ss[i][1..]];
    if i == 0 {
      assert ss'[1..] == ss[1..];
      assert ss[0] == [ss[0][0]] + ss[0][1..];
    } else {
      assert ss'[1..] == ss[1..][i - 1 := ss[i][1..]];
      ConcatDropHead(ss[1..], i - 1);
    }
    assert |multiset(Concat(ss'))| + 1 == |multiset(Concat(ss))|;
  }

  lemma MultisetLast<T>(s: seq<T>)
    requires s != []
    ensures multiset(s) == multiset(s[..|s| - 1]) + multiset{s[|s| - 1]}
  {
    assert s == s[..|s| - 1] + [s[|s| - 1]];
  }

  /** All elements of a sequence are pairwise different. */
  predicate Distinct<T(==)>(s: seq<T>)
  {
    forall i, j :: 0 <= i < j < |s| ==> s[i] != s[j]
  }

  function Titles(rows: seq<Row>): (ts: seq<string>)
    ensures |ts| == |rows|
    ensures forall k :: 0 <= k < |rows| ==> ts[k] == rows[k].title
  {
    seq(|rows|, k requires 0 <= k < |rows| => rows[k].title)
  }
}
