/** `parseTSV` of project.js: the first line of the trimmed file names the columns, every
    further line is a record; header names become trimmed keys, cell values are kept as
    written, and a line shorter than the header row leaves its last keys `undefined`. */
module ProjectTsv {
  import opened Wrappers
  import opened Text
  import opened Seqs

  /** A parsed line: the object built by `Object.fromEntries`, key to cell (None = `undefined`). */
  type Row = map<string, Option<string>>

  /** The parsed file: the trimmed header names in file order and one row per further line. */
  datatype Table = Table(headers: seq<string>, rows: seq<Row>)

  /** `values[i]`: the cell, or `undefined` past the end of the line. */
  function Cell(values: seq<string>, i: nat): Option<string> {
    if i < |values| then Some(values[i]) else None
  }

  /** `row[key]` for a key that may be missing from the object. */
  function Get(row: Row, key: string): Option<string> {
    if key in row then row[key] else None
  }

  /** `headers.map((h) => h.trim())`. */
  function TrimAll(headers: seq<string>): (keys: seq<string>)
    ensures |keys| == |headers| && forall i :: 0 <= i < |headers| ==> keys[i] == Trim(headers[i])
  {
    seq(|headers|, i requires 0 <= i < |headers| => Trim(headers[i]))
  }

  /** `Object.fromEntries(keys.map((k, i) => [k, values[i]]))`: of two equal keys the later
      one wins. */
  function RowOf(keys: seq<string>, values: seq<string>): (r: Row)
    ensures r.Keys == set k | k in keys
  {
    var entries := seq(|keys|, i requires 0 <= i < |keys| => (keys[i], Cell(values, i)));
    forall k | k in keys ensures exists i :: 0 <= i < |keys| && entries[i].0 == k {
      var i :| 0 <= i < |keys| && keys[i] == k;
      assert entries[i].0 == k;
    }
    FromEntries(entries)
  }

  /** The value under each key is the cell at the LAST position of that key. */
  lemma RowOfValue(keys: seq<string>, values: seq<string>, j: nat)
    requires j < |keys| && forall j' :: j < j' < |keys| ==> keys[j'] != keys[j]
    ensures RowOf(keys, values)[keys[j]] == Cell(values, j)
  {
    var entries := seq(|keys|, i requires 0 <= i < |keys| => (keys[i], Cell(values, i)));
    FromEntriesLast(entries, j);
  }

  /** A cell JavaScript treats as true: present and not empty. */
  predicate Truthy(cell: Option<string>) {
    cell.Some? && cell.value != ""
  }

  /** `cell?.trim()`: a present cell trimmed, an absent one still absent. */
  function TrimCell(cell: Option<string>): Option<string> {
    if cell.None? then None else Some(Trim(cell.value))
  }

  /** `lines.map((line) => Object.fromEntries(...))`: one row per line, in order. */
  function RowsOf(keys: seq<string>, lines: seq<string>): (rows: seq<Row>)
    ensures |rows| == |lines|
    ensures forall i :: 0 <= i < |lines| ==> rows[i] == RowOf(keys, Split(lines[i], '\t'))
  {
    seq(|lines|, i requires 0 <= i < |lines| => RowOf(keys, Split(lines[i], '\t')))
  }

  /** The lines of the file: `raw.trim().split("\n")`. */
  function Lines(raw: string): (lines: seq<string>)
    ensures |lines| >= 1
  {
    Split(Trim(raw), '\n')
  }

  /** `parseTSV(raw)`: the first line split on tabs for the header names, every further line
      split on tabs for its cells. */
  function ParseTsv(raw: string): (t: Table)
    ensures t.headers == TrimAll(Split(Lines(raw)[0], '\t'))
    ensures t.rows == RowsOf(t.headers, Lines(raw)[1..])
  {
    var lines := Lines(raw);
    var keys := TrimAll(Split(lines[0], '\t'));
    Table(keys, RowsOf(keys, lines[1..]))
  }

  /** Every header comes back trimmed, and every row has exactly one entry per header name:
      its key set is the set of returned headers. */
  lemma ParseTsvShape(raw: string)
    ensures var t := ParseTsv(raw);
      (forall i :: 0 <= i < |t.headers| ==> Trim(t.headers[i]) == t.headers[i]) &&
      forall r :: 0 <= r < |t.rows| ==> t.rows[r].Keys == set h | h in t.headers
  {
    var t := ParseTsv(raw);
    forall i | 0 <= i < |t.headers| ensures Trim(t.headers[i]) == t.headers[i] {
      TrimIdempotent(Split(Lines(raw)[0], '\t')[i]);
    }
  }

  /** A cell is the field of its line, untrimmed, and a line that is too short gives
      `undefined` for the columns it lacks (for a header name that does not occur again
      further right). */
  lemma ParseTsvCell(raw: string, r: nat, j: nat)
    requires r < |ParseTsv(raw).rows| && j < |ParseTsv(raw).headers|
    requires var keys := ParseTsv(raw).headers; forall j' :: j < j' < |keys| ==> keys[j'] != keys[j]
    ensures var values := Split(Lines(raw)[r + 1], '\t');
      ParseTsv(raw).rows[r][ParseTsv(raw).headers[j]] == (if j < |values| then Some(values[j]) else None)
  {
    var t := ParseTsv(raw);
    assert Lines(raw)[1..][r] == Lines(raw)[r + 1];
    RowOfValue(t.headers, Split(Lines(raw)[r + 1], '\t'), j);
  }
}
