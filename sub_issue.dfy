/** subIssue.js: every record of the parents sheet names a child issue by URL and optionally a
    parent issue; for each record whose two numbers can be read, the child's and then the
    parent's node id are looked up and the child is attached as a sub-issue of the parent. The
    id lookup is the map `ids` (a number without an entry makes the lookup throw), and the
    outcome of the `addSubIssue` mutation is the predicate `linkOk`. */
module SubIssue {
  import opened Wrappers
  import opened Text
  import opened Seqs
  import opened ProjectTsv

  // ---------------------------------------------------------------------------
  // parseTSV

  function TrimmedEntries(keys: seq<string>, values: seq<string>): (entries: seq<(string, Option<string>)>)
    ensures |entries| == |keys|
    ensures forall i :: 0 <= i < |keys| ==> entries[i] == (keys[i], TrimCell(Cell(values, i)))
  {
    seq(|keys|, i requires 0 <= i < |keys| => (keys[i], TrimCell(Cell(values, i))))
  }

  /** `parseTSV(filepath)` of subIssue.js: like the one of project.js, but every cell is
      trimmed as well, and only the records are returned. */
  function ParseTrimmedTsv(raw: string): (rows: seq<Row>)
    ensures |rows| == |Lines(raw)| - 1
  {
    var lines := Lines(raw);
    var keys := TrimAll(Split(lines[0], '\t'));
    seq(|lines| - 1, i requires 0 <= i < |lines| - 1 =>
      FromEntries(TrimmedEntries(keys, Split(lines[i + 1], '\t'))))
  }

  /** The two parsers agree on the records and their keys, and this one holds every cell of the
      other, trimmed. */
  lemma ParseTrimmedTsvIsTrimmed(raw: string, r: nat)
    requires r < |ParseTrimmedTsv(raw)|
    ensures var t := ParseTsv(raw).rows[r]; var u := ParseTrimmedTsv(raw)[r];
      u.Keys == t.Keys && forall k :: k in u ==> u[k] == TrimCell(t[k])
  {
    var lines := Lines(raw);
    var keys := TrimAll(Split(lines[0], '\t'));
    var values := Split(lines[r + 1], '\t');
    assert lines[1..][r] == lines[r + 1];
    var entries := seq(|keys|, i requires 0 <= i < |keys| => (keys[i], Cell(values, i)));
    assert ParseTsv(raw).rows[r] == FromEntries(entries);
    FromEntriesMapValues(entries, TrimmedEntries(keys, values), TrimCell);
  }

  // ---------------------------------------------------------------------------
  // extractIssueNumber

  /** The text `issues/` stands at position `i`. */
  predicate PathAt(s: string, i: nat) {
    i + 7 <= |s| && s[i] == 'i' && s[i + 1] == 's' && s[i + 2] == 's' && s[i + 3] == 'u' &&
    s[i + 4] == 'e' && s[i + 5] == 's' && s[i + 6] == '/'
  }

  /** `issues/` followed by a digit starts at position `i`: a match of `/issues\/(\d+)/`. */
  predicate IssueRefAt(s: string, i: nat) {
    PathAt(s, i) && i + 7 < |s| && IsDigit(s[i + 7])
  }

  /** The leftmost match at or after `from`. */
  function FirstIssueRef(s: string, from: nat): (r: Option<nat>)
    requires from <= |s|
    ensures r.Some? ==> from <= r.value < |s| && IssueRefAt(s, r.value)
    ensures r.Some? ==> forall j :: from <= j < r.value ==> !IssueRefAt(s, j)
    ensures r.None? ==> forall j :: from <= j < |s| ==> !IssueRefAt(s, j)
    decreases |s| - from
  {
    if from == |s| then None
    else if IssueRefAt(s, from) then Some(from)
    else FirstIssueRef(s, from + 1)
  }

  /** The number a match at `i` captures: the value of the digits after `issues/`. */
  function RefValue(s: string, i: nat): nat
    requires IssueRefAt(s, i)
  {
    DigitRunValue(s, i + 7)
  }

  /** Position `i` holds the leftmost match of `s`. */
  predicate LeftmostRef(s: string, i: nat) {
    IssueRefAt(s, i) && forall j :: 0 <= j < i ==> !IssueRefAt(s, j)
  }

  /** `extractIssueNumber(url)`: none for a missing or empty URL or one without a match; else
      the value of the digit run of the leftmost match (`\d+` is greedy). */
  function ExtractIssueNumber(url: Option<string>): (r: Option<nat>)
    ensures r.Some? <==> url.Some? && url.value != [] && exists i :: 0 <= i < |url.value| && IssueRefAt(url.value, i)
    ensures r.Some? ==> exists i :: 0 <= i < |url.value| && LeftmostRef(url.value, i) && r.value == RefValue(url.value, i)
  {
    if url.None? || url.value == [] then None
    else
      match FirstIssueRef(url.value, 0)
      case None => None
      case Some(i) => Some(RefValue(url.value, i))
  }

  /** No match starts inside a text without `issues/` that is followed by `issues/`: the
      `i` it would need at the junction is not a later letter of `issues/`. */
  lemma NoRefBefore(pre: string, rest: string, i: nat)
    requires forall j :: 0 <= j < |pre| ==> !PathAt(pre, j)
    requires i < |pre|
    ensures !IssueRefAt(pre + "issues/" + rest, i)
  {
    var s := pre + "issues/" + rest;
    if i + 7 <= |pre| {
      assert s[i..i + 7] == pre[i..i + 7];
      assert !PathAt(pre, i);
    } else {
      assert s[|pre|] == 'i';
    }
  }

  lemma NoRefInPrefix(pre: string, rest: string)
    requires forall j :: 0 <= j < |pre| ==> !PathAt(pre, j)
    ensures forall j :: 0 <= j < |pre| ==> !IssueRefAt(pre + "issues/" + rest, j)
  {
    forall j | 0 <= j < |pre| ensures !IssueRefAt(pre + "issues/" + rest, j) {
      NoRefBefore(pre, rest, j);
    }
  }

  /** The digits right after a match are a whole digit run: its value is the captured number. */
  lemma RefValueOf(s: string, at: nat, digits: string)
    requires IssueRefAt(s, at) && at + 7 + |digits| <= |s| && s[at + 7..at + 7 + |digits|] == digits
    requires AllDigits(digits)
    requires at + 7 + |digits| == |s| || !IsDigit(s[at + 7 + |digits|])
    ensures RefValue(s, at) == DigitsValue(digits)
  {
    DigitRunIs(s, at + 7, digits);
  }

  /** In such a URL the leftmost match is the `issues/` after `pre`, and its digits are the
      printed number. */
  lemma RefAfterPrefix(pre: string, n: nat, post: string)
    requires forall j :: 0 <= j < |pre| ==> !PathAt(pre, j)
    requires post == [] || !IsDigit(post[0])
    ensures LeftmostRef(pre + "issues/" + NatToString(n) + post, |pre|)
    ensures RefValue(pre + "issues/" + NatToString(n) + post, |pre|) == n
  {
    var digits := NatToString(n);
    var s := pre + "issues/" + digits + post;
    var at := |pre|;
    assert s == pre + "issues/" + (digits + post);
    NoRefInPrefix(pre, digits + post);
    assert s[at + 7..at + 7 + |digits|] == digits;
    RefValueOf(s, at, digits);
  }

  /** A URL whose path ends in `issues/` and a number gives that number back, whatever
      precedes it (when that holds no `issues/`) and whatever non-digit text follows it. */
  lemma ExtractFromIssuePath(pre: string, n: nat, post: string)
    requires forall j :: 0 <= j < |pre| ==> !PathAt(pre, j)
    requires post == [] || !IsDigit(post[0])
    ensures ExtractIssueNumber(Some(pre + "issues/" + NatToString(n) + post)) == Some(n)
  {
    var s := pre + "issues/" + NatToString(n) + post;
    RefAfterPrefix(pre, n, post);
    var r := ExtractIssueNumber(Some(s));
    var i :| 0 <= i < |s| && LeftmostRef(s, i) && r.value == RefValue(s, i);
    assert i == |pre|;
  }

  // ---------------------------------------------------------------------------
  // the linking loop

  /** A request the loop sends: an id lookup (`getIssueId`) or an `addSubIssue` mutation. */
  datatype Call = LookupIssue(number: nat) | AddSubIssue(issueId: string, subIssueId: string)

  /** What became of one record. */
  datatype Outcome =
    | MissingUrl
    | InvalidChild
    | NoParent(child: nat)
    | LookupFailed(child: nat, parent: nat)
    | Linked(child: nat, parent: nat)
    | LinkFailed(child: nat, parent: nat)

  /** A number JavaScript treats as true. */
  predicate NonZero(n: Option<nat>) {
    n.Some? && n.value != 0
  }

  /** The requests one record causes and its outcome: nothing is sent for a record without a
      URL or without two usable numbers; otherwise the child's id is looked up, then the
      parent's, and a lookup that throws ends the record (its `try` catches it). */
  function LinkRecord(row: Row, ids: map<nat, string>, linkOk: (string, string) -> bool): (seq<Call>, Outcome) {
    var url := Get(row, "URL");
    if !Truthy(url) then ([], MissingUrl)
    else
      var child := ExtractIssueNumber(url);
      var parent := ExtractIssueNumber(Get(row, "Parent issue"));
      if !NonZero(child) then ([], InvalidChild)
      else if !NonZero(parent) then ([], NoParent(child.value))
      else
        var c, p := child.value, parent.value;
        if c !in ids then ([LookupIssue(c)], LookupFailed(c, p))
        else if p !in ids then ([LookupIssue(c), LookupIssue(p)], LookupFailed(c, p))
        else ([LookupIssue(c), LookupIssue(p), AddSubIssue(ids[p], ids[c])],
              if linkOk(ids[p], ids[c]) then Linked(c, p) else LinkFailed(c, p))
  }

  /** The requests of all records, in file order. */
  function RecordsCalls(rows: seq<Row>, ids: map<nat, string>, linkOk: (string, string) -> bool): seq<Call> {
    FlatMap(rows, (row: Row) => LinkRecord(row, ids, linkOk).0)
  }

  /** A record sends requests only when it has a URL and both numbers are usable; it then
      looks up the child first, sends at most one link request, after both lookups, and that
      request makes the parent the issue and the child the sub-issue. */
  lemma LinkRecordCalls(row: Row, ids: map<nat, string>, linkOk: (string, string) -> bool)
    ensures var calls := LinkRecord(row, ids, linkOk).0;
      var child := ExtractIssueNumber(Get(row, "URL"));
      var parent := ExtractIssueNumber(Get(row, "Parent issue"));
      (calls != [] <==> Truthy(Get(row, "URL")) && NonZero(child) && NonZero(parent)) &&
      (calls != [] ==> calls[0] == LookupIssue(child.value) && |calls| <= 3) &&
      forall k :: 0 <= k < |calls| && calls[k].AddSubIssue? ==>
        k == 2 && calls[1] == LookupIssue(parent.value) &&
        calls[k] == AddSubIssue(ids[parent.value], ids[child.value])
  {
  }

  /** Each skip is reported as such, and a record with a URL and two usable numbers is linked
      exactly when both ids are found: the link request is sent then and only then, a missing
      id ends the record after its lookup, and the record counts as linked exactly when the
      mutation succeeds. */
  lemma LinkRecordOutcome(row: Row, ids: map<nat, string>, linkOk: (string, string) -> bool)
    ensures var calls, outcome := LinkRecord(row, ids, linkOk).0, LinkRecord(row, ids, linkOk).1;
      var child := ExtractIssueNumber(Get(row, "URL"));
      var parent := ExtractIssueNumber(Get(row, "Parent issue"));
      (!Truthy(Get(row, "URL")) ==> outcome == MissingUrl) &&
      (Truthy(Get(row, "URL")) && !NonZero(child) ==> outcome == InvalidChild) &&
      (Truthy(Get(row, "URL")) && NonZero(child) && !NonZero(parent) ==> outcome == NoParent(child.value)) &&
      (Truthy(Get(row, "URL")) && NonZero(child) && NonZero(parent) ==>
        var c, p := child.value, parent.value;
        ((exists k :: 0 <= k < |calls| && calls[k].AddSubIssue?) <==> c in ids && p in ids) &&
        (c !in ids ==> calls == [LookupIssue(c)] && outcome == LookupFailed(c, p)) &&
        (c in ids && p !in ids ==> calls == [LookupIssue(c), LookupIssue(p)] && outcome == LookupFailed(c, p)) &&
        (outcome.Linked? <==> c in ids && p in ids && linkOk(ids[p], ids[c])) &&
        (outcome.Linked? ==> outcome == Linked(c, p)))
  {
    var calls := LinkRecord(row, ids, linkOk).0;
    var child := ExtractIssueNumber(Get(row, "URL"));
    var parent := ExtractIssueNumber(Get(row, "Parent issue"));
    if Truthy(Get(row, "URL")) && NonZero(child) && NonZero(parent) &&
       child.value in ids && parent.value in ids {
      assert calls[2].AddSubIssue?;
    }
  }

  /** A record with no URL or an empty one sends nothing and is reported as such, before any
      number is read. */
  lemma MissingUrlSkipped(row: Row, ids: map<nat, string>, linkOk: (string, string) -> bool)
    requires !Truthy(Get(row, "URL"))
    ensures LinkRecord(row, ids, linkOk) == ([], MissingUrl)
  {
  }

  /** What one record sends depends on that record alone: the requests of a sheet are those of
      any split of it, joined, so a failure in one record does not stop the next. */
  lemma RecordsCallsAppend(rows1: seq<Row>, rows2: seq<Row>, ids: map<nat, string>, linkOk: (string, string) -> bool)
    ensures RecordsCalls(rows1 + rows2, ids, linkOk) == RecordsCalls(rows1, ids, linkOk) + RecordsCalls(rows2, ids, linkOk)
  {
    FlatMapAppend(rows1, rows2, (row: Row) => LinkRecord(row, ids, linkOk).0);
  }

  /** One pass of the loop body: the checks with their `continue`s, then the `try` block. */
  method LinkOne(row: Row, ids: map<nat, string>, linkOk: (string, string) -> bool)
    returns (calls: seq<Call>, outcome: Outcome)
    ensures (calls, outcome) == LinkRecord(row, ids, linkOk)
  {
    calls := [];
    var url := Get(row, "URL");
    if !Truthy(url) {
      return [], MissingUrl;
    }
    var childNumber := ExtractIssueNumber(url);
    var parentNumber := ExtractIssueNumber(Get(row, "Parent issue"));
    if !NonZero(childNumber) {
      return [], InvalidChild;
    }
    if !NonZero(parentNumber) {
      return [], NoParent(childNumber.value);
    }
    var c, p := childNumber.value, parentNumber.value;
    calls := calls + [LookupIssue(c)];
    assert calls == [LookupIssue(c)];
    if c !in ids {
      return calls, LookupFailed(c, p);
    }
    var childId := ids[c];
    calls := calls + [LookupIssue(p)];
    assert calls == [LookupIssue(c), LookupIssue(p)];
    if p !in ids {
      return calls, LookupFailed(c, p);
    }
    var parentId := ids[p];
    calls := calls + [AddSubIssue(parentId, childId)];
    assert calls == [LookupIssue(c), LookupIssue(p), AddSubIssue(parentId, childId)];
    outcome := if linkOk(parentId, childId) then Linked(c, p) else LinkFailed(c, p);
  }

  /** The main loop of subIssue.js over the parsed records: the requests it sends in order and
      one outcome per record. */
  method LinkRecords(rows: seq<Row>, ids: map<nat, string>, linkOk: (string, string) -> bool)
    returns (calls: seq<Call>, outcomes: seq<Outcome>)
    ensures calls == RecordsCalls(rows, ids, linkOk)
    ensures |outcomes| == |rows| && forall i :: 0 <= i < |rows| ==> outcomes[i] == LinkRecord(rows[i], ids, linkOk).1
  {
    calls := [];
    outcomes := [];
    for r := 0 to |rows|
      invariant calls == RecordsCalls(rows[..r], ids, linkOk)
      invariant outcomes == RecordsOutcomes(rows[..r], ids, linkOk)
    {
      assert rows[..r + 1][..r] == rows[..r];
      var rowCalls, outcome := LinkOne(rows[r], ids, linkOk);
      calls := calls + rowCalls;
      outcomes := outcomes + [outcome];
    }
    assert rows[..|rows|] == rows;
    RecordsOutcomesAt(rows, ids, linkOk);
  }

  /** The outcomes of all records, in file order. */
  function RecordsOutcomes(rows: seq<Row>, ids: map<nat, string>, linkOk: (string, string) -> bool): seq<Outcome> {
    if rows == [] then []
    else RecordsOutcomes(rows[..|rows| - 1], ids, linkOk) + [LinkRecord(rows[|rows| - 1], ids, linkOk).1]
  }

  lemma {:induction false} RecordsOutcomesAt(rows: seq<Row>, ids: map<nat, string>, linkOk: (string, string) -> bool)
    ensures |RecordsOutcomes(rows, ids, linkOk)| == |rows|
    ensures forall i :: 0 <= i < |rows| ==> RecordsOutcomes(rows, ids, linkOk)[i] == LinkRecord(rows[i], ids, linkOk).1
  {
    if rows != [] {
      var n := |rows| - 1;
      RecordsOutcomesAt(rows[..n], ids, linkOk);
      assert forall i :: 0 <= i < n ==> rows[..n][i] == rows[i];
    }
  }
}
