/** How a dictionary row becomes one line of `data.csv`, and how a line gives back its
    title. The tables are written with Python's `csv.DictWriter` (fields `title,value`,
    lines ended by "\r\n") and read back with `csv.DictReader`. The quoting rules of the
    csv module are replaced by a backslash escape under which every record is one line:
    an encoded field holds no separator and no line break, and the first field of an
    encoded line decodes to the title. The csv module instead quotes a field holding a
    line break and writes the break inside the quotes, so its records can span lines;
    this model covers single-line records only. */
module RowCodec {
  import opened Base

  /** The escape of one character. */
  function EscChar(c: char): (e: string)
    ensures |e| >= 1
    ensures ',' !in e && '\n' !in e && '\r' !in e
  {
    if c == '\\' then ['\\', '\\']
    else if c == ',' then ['\\', 'c']
    else if c == '\n' then ['\\', 'n']
    else if c == '\r' then ['\\', 'r']
    else [c]
  }

  /** The escape of a field. */
  function Esc(s: string): (e: string)
    ensures ',' !in e && '\n' !in e && '\r' !in e
    ensures |e| >= |s|
  {
    if s == [] then [] else EscChar(s[0]) + Esc(s[1..])
  }

  /** The character an escape code stands for. */
  function Unescape(code: char): Option<char>
  {
    if code == '\\' then Some('\\')
    else if code == 'c' then Some(',')
    else if code == 'n' then Some('\n')
    else if code == 'r' then Some('\r')
    else None
  }

  function Prepend(c: char, t: Option<string>): Option<string>
  {
    if t.Some? then Some([c] + t.value) else None
  }

  /** Undoes `Esc`; a dangling or unknown escape makes the field unreadable. */
  function Unesc(s: string): Option<string>
  {
    if s == [] then Some([])
    else if s[0] != '\\' then Prepend(s[0], Unesc(s[1..]))
    else if |s| < 2 || Unescape(s[1]).None? then None
    else Prepend(Unescape(s[1]).value, Unesc(s[2..]))
  }

  lemma {:induction false} UnescEsc(s: string)
    ensures Unesc(Esc(s)) == Some(s)
  {
    if s != [] {
      var c, rest := s[0], Esc(s[1..]);
      UnescEsc(s[1..]);
      var x := EscChar(c) + rest;
      assert Esc(s) == x;
      if c == '\\' || c == ',' || c == '\n' || c == '\r' {
        assert x[0] == '\\' && Unescape(x[1]) == Some(c) && x[2..] == rest;
        assert Unesc(x) == Prepend(c, Unesc(rest));
      } else {
        assert x[0] == c && x[1..] == rest;
        assert Unesc(x) == Prepend(c, Unesc(rest));
      }
      assert s == [c] + s[1..];
    }
  }

  /** The line terminator of Python's csv writer. */
  const Newline: string := ['\r', '\n']

  /** The header line `writeheader` produces for the fields `title,value`. */
  const Header: string := "title,value" + Newline

  /** The line `writerow` produces for a row. */
  function Encode(r: Row): (line: string)
    ensures |line| >= 3
    ensures line[|line| - 1] == '\n'
    ensures forall i :: 0 <= i < |line| - 1 ==> line[i] != '\n'
  {
    var line := Esc(r.title) + [','] + Esc(r.value) + Newline;
    assert forall i :: 0 <= i < |line| - 2 ==> line[i] in Esc(r.title) + [','] + Esc(r.value);
    line
  }

  /** The end of the first field of a line: the first comma or line break, or the end. */
  function FieldEnd(line: string): (i: nat)
    ensures i <= |line|
    ensures forall k :: 0 <= k < i ==> line[k] != ',' && line[k] != '\r' && line[k] != '\n'
    ensures i < |line| ==> line[i] == ',' || line[i] == '\r' || line[i] == '\n'
  {
    if line == [] || line[0] == ',' || line[0] == '\r' || line[0] == '\n' then 0
    else 1 + FieldEnd(line[1..])
  }

  /** The title `csv.DictReader` reads from one data line put under the header, or
      `None` when reading fails: a blank line yields no row at all, and an unreadable
      field stands for a line that does not decode. A line with no comma still has a
      title (its value is then missing). */
  function ParseTitle(line: string): (title: Option<string>)
    ensures line == [] || line[0] == '\n' || line[0] == '\r' ==> title.None?
    ensures line != [] && line[0] == ',' ==> title == Some([])
  {
    var i := FieldEnd(line);
    if i == 0 && (i == |line| || line[i] != ',') then None
    else Unesc(line[..i])
  }

  /** A written row is read back with its own title. */
  lemma ParseEncode(r: Row)
    ensures ParseTitle(Encode(r)) == Some(r.title)
  {
    var t, rest := Esc(r.title), [','] + Esc(r.value) + Newline;
    assert Encode(r) == t + rest;
    FieldEndEscaped(t, rest);
    assert (t + rest)[..|t|] == t;
    UnescEsc(r.title);
  }

  /** The first field of a line that starts with an escaped field and a comma. */
  lemma FieldEndEscaped(t: string, rest: string)
    requires ',' !in t && '\n' !in t && '\r' !in t
    requires rest != [] && rest[0] == ','
    ensures FieldEnd(t + rest) == |t| && (t + rest)[|t|] == ','
  {
    var line := t + rest;
    assert forall k :: 0 <= k < |t| ==> line[k] == t[k];
    FieldEndAt(line, |t|);
  }

  /** `FieldEnd` is the first separator position. */
  lemma {:induction false} FieldEndAt(line: string, j: nat)
    requires j < |line| && (line[j] == ',' || line[j] == '\r' || line[j] == '\n')
    requires forall k :: 0 <= k < j ==> line[k] != ',' && line[k] != '\r' && line[k] != '\n'
    ensures FieldEnd(line) == j
  {
    if j > 0 {
      FieldEndAt(line[1..], j - 1);
    }
  }

  /** The header line itself is read as a row titled "title"; `create_index` skips it. */
  lemma HeaderShape()
    ensures |Header| == 13
    ensures Header[|Header| - 1] == '\n'
    ensures forall i :: 0 <= i < |Header| - 1 ==> Header[i] != '\n'
  {
  }

  /** The lines `writerows` produces, one per row. */
  function Lines(rows: seq<Row>): seq<string>
  {
    seq(|rows|, i requires 0 <= i < |rows| => Encode(rows[i]))
  }

  /** The whole table file: the header, then the rows' lines. */
  function Table(rows: seq<Row>): string
  {
    Header + Concat(Lines(rows))
  }
}
