/** `updateProjectFields` of project.js: after the milestone pass, every record of the sheet is
    matched to a project item by title; its reference URLs are rewritten to the target
    repository's issue, and then every selected column yields one field update or one reason
    for skipping it. The mutation's own outcome is caught and logged, so it does not change
    what the pass does next; the model records the requests and the skip reasons in order. */
module ProjectSync {
  import opened Wrappers
  import opened Text
  import opened Seqs
  import opened ProjectDates
  import opened ProjectTsv
  import opened ProjectItems
  import opened ProjectValues

  // ---------------------------------------------------------------------------
  // lookups built once per pass

  /** A title as an object key: `String(title)`, so an item without issue content is filed
      under "undefined". */
  function TitleKey(title: Option<string>): string {
    if title.None? then "undefined" else title.value
  }

  function NumberEntries(items: seq<Item>): (entries: seq<(string, Option<int>)>)
    ensures |entries| == |items|
    ensures forall i :: 0 <= i < |items| ==> entries[i] == (TitleKey(items[i].title), items[i].number)
  {
    seq(|items|, i requires 0 <= i < |items| => (TitleKey(items[i].title), items[i].number))
  }

  /** `titleToNumberMap`: `Object.fromEntries(items.map((i) => [i.content?.title, i.content?.number]))`. */
  function TitleToNumber(items: seq<Item>): (m: map<string, Option<int>>)
    ensures m.Keys == set i | 0 <= i < |items| :: TitleKey(items[i].title)
  {
    var entries := NumberEntries(items);
    assert forall i :: 0 <= i < |items| ==> entries[i].0 == TitleKey(items[i].title);
    FromEntries(entries)
  }

  /** `titleToNumberMap[row.Title]`, `undefined` for a title no item has. */
  function NumberFor(numbers: map<string, Option<int>>, title: Option<string>): Option<int> {
    var k := TitleKey(title);
    if k in numbers then numbers[k] else None
  }

  /** The number is the one of the LAST item filed under that title, unlike the item lookup,
      which takes the first; a title no item has gives `undefined`. */
  lemma NumberForLast(items: seq<Item>, title: Option<string>)
    ensures (forall i :: 0 <= i < |items| ==> TitleKey(items[i].title) != TitleKey(title)) ==>
      NumberFor(TitleToNumber(items), title).None?
    ensures forall j :: (0 <= j < |items| && TitleKey(items[j].title) == TitleKey(title) &&
                         forall j' :: j < j' < |items| ==> TitleKey(items[j'].title) != TitleKey(title)) ==>
      NumberFor(TitleToNumber(items), title) == items[j].number
  {
    forall j | 0 <= j < |items| && TitleKey(items[j].title) == TitleKey(title) &&
      (forall j' :: j < j' < |items| ==> TitleKey(items[j'].title) != TitleKey(title))
      ensures NumberFor(TitleToNumber(items), title) == items[j].number
    {
      FromEntriesLast(NumberEntries(items), j);
    }
  }

  /** `items.find((i) => i.content?.title === row.Title)`: the first item in listing order with
      that title; `undefined === undefined`, so a record without a title matches the first item
      without issue content. */
  function ItemFor(items: seq<Item>, title: Option<string>): (r: Option<Item>)
    ensures r.None? <==> forall i :: 0 <= i < |items| ==> items[i].title != title
    ensures r.Some? ==> exists i :: (0 <= i < |items| && items[i] == r.value && items[i].title == title &&
      forall j :: 0 <= j < i ==> items[j].title != title)
  {
    match FindFirst(items, (it: Item) => it.title == title)
    case None => None
    case Some(i) => Some(items[i])
  }

  // ---------------------------------------------------------------------------
  // diffDays

  /** `diffDays`: the offset from the `Starts` of the first record that has one to the base
      date, 0 when no record has one. A `Date` object is always truthy, so an unparsable date
      gives NaN rather than 0. */
  function DiffDays(rows: seq<Row>, baseDate: Option<string>): Offset {
    match FirstStarts(rows)
    case None => Days(0)
    case Some(i) => DayOffset(baseDate, Get(rows[i], "Starts").value)
  }

  /** `rows.find((r) => r.Starts)`, as a position. */
  function FirstStarts(rows: seq<Row>): Option<nat> {
    FindFirst(rows, HasStarts)
  }

  predicate HasStarts(row: Row) {
    Truthy(Get(row, "Starts"))
  }

  /** The offset is 0 when no record has a `Starts` value, and otherwise comes from the
      first record that has one. */
  lemma DiffDaysFirst(rows: seq<Row>, baseDate: Option<string>)
    ensures (forall i :: 0 <= i < |rows| ==> !Truthy(Get(rows[i], "Starts"))) ==> DiffDays(rows, baseDate) == Days(0)
    ensures forall i :: (0 <= i < |rows| && Truthy(Get(rows[i], "Starts")) &&
                         forall j :: 0 <= j < i ==> !Truthy(Get(rows[j], "Starts"))) ==>
      DiffDays(rows, baseDate) == DayOffset(baseDate, Get(rows[i], "Starts").value)
  {
    FirstStartsNone(rows);
    forall i | 0 <= i < |rows| && Truthy(Get(rows[i], "Starts")) &&
               (forall j :: 0 <= j < i ==> !Truthy(Get(rows[j], "Starts")))
      ensures FirstStarts(rows) == Some(i)
    {
      FirstStartsIs(rows, i);
    }
  }

  lemma FirstStartsNone(rows: seq<Row>)
    ensures (forall i :: 0 <= i < |rows| ==> !Truthy(Get(rows[i], "Starts"))) ==> FirstStarts(rows).None?
  {
    if forall i :: 0 <= i < |rows| ==> !Truthy(Get(rows[i], "Starts")) {
      assert forall i :: 0 <= i < |rows| ==> !HasStarts(rows[i]);
    }
  }

  lemma FirstStartsIs(rows: seq<Row>, i: nat)
    requires i < |rows| && Truthy(Get(rows[i], "Starts"))
    requires forall j :: 0 <= j < i ==> !Truthy(Get(rows[j], "Starts"))
    ensures FirstStarts(rows) == Some(i)
  {
    var first := FirstStarts(rows);
    assert HasStarts(rows[i]);
    assert first.Some?;
    assert !(first.value < i) by {
      assert forall j :: 0 <= j < i ==> !HasStarts(rows[j]);
    }
    assert !(i < first.value) by {
      assert forall j :: 0 <= j < first.value ==> !HasStarts(rows[j]);
    }
  }

  // ---------------------------------------------------------------------------
  // column selection

  /** `fieldsToUpdate`, lower-cased as the comparison uses it. */
  const FieldsToUpdate: seq<string> := ["starts", "due", "type", "phase", "sprint"]

  /** A column both passes process: its trimmed, lower-cased name is not "title" and is one of
      the fields to update. */
  predicate Selected(key: string) {
    var k := ToLower(Trim(key));
    !(k == "title") && k in FieldsToUpdate
  }

  /** The selected columns, in header order. */
  function SelectedHeaders(headers: seq<string>): (keys: seq<string>)
    ensures forall k :: k in keys <==> k in headers && Selected(k)
  {
    if headers == [] then []
    else
      var n := |headers| - 1;
      var init := SelectedHeaders(headers[..n]);
      assert headers == headers[..n] + [headers[n]];
      if Selected(headers[n]) then init + [headers[n]] else init
  }

  /** The Title column is never processed, whatever its padding or case. */
  lemma TitleNeverSelected(key: string)
    requires ToLower(Trim(key)) == "title"
    ensures !Selected(key)
  {
  }

  // ---------------------------------------------------------------------------
  // the reference rewrite

  const GithubPrefix: string := "https://github.com/"

  /** `https://github.com/Kin230k/${targetRepo}/issues/${issueNumber}`. */
  function IssueUrl(repo: string, n: int): (url: string)
    ensures StartsWith(url, GithubPrefix)
  {
    StartsWithAppend(GithubPrefix, "Kin230k/" + repo + "/issues/" + IntToString(n));
    GithubPrefix + ("Kin230k/" + repo + "/issues/" + IntToString(n))
  }

  /** A number JavaScript treats as true. */
  predicate TruthyNumber(n: Option<int>) {
    n.Some? && n.value != 0
  }

  /** The cell a rewrite leaves: a GitHub link becomes the link to the record's own issue in
      the target repository when the record's title has a number. */
  function Rewritten(cell: Option<string>, repo: string, number: Option<int>): Option<string> {
    if cell.Some? && StartsWith(cell.value, GithubPrefix) && TruthyNumber(number)
    then Some(IssueUrl(repo, number.value)) else cell
  }

  /** The first pass over the columns, applied to the row in place. */
  function RewriteRow(headers: seq<string>, row: Row, repo: string, number: Option<int>): Row {
    if headers == [] then row
    else
      var n := |headers| - 1;
      var before := RewriteRow(headers[..n], row, repo, number);
      var key := headers[n];
      var cell := Get(before, key);
      if Selected(key) && cell.Some? && StartsWith(cell.value, GithubPrefix) && TruthyNumber(number)
      then before[key := Some(IssueUrl(repo, number.value))]
      else before
  }

  /** Rewriting an already rewritten cell changes nothing. */
  lemma RewrittenIdempotent(cell: Option<string>, repo: string, number: Option<int>)
    ensures Rewritten(Rewritten(cell, repo, number), repo, number) == Rewritten(cell, repo, number)
  {
  }

  /** What the rewrite pass leaves under each key: the rewritten cell for a selected column,
      the cell as it was for every other key, and no new keys. */
  lemma {:induction false} RewriteRowEffect(headers: seq<string>, row: Row, repo: string, number: Option<int>, key: string)
    ensures RewriteRow(headers, row, repo, number).Keys == row.Keys
    ensures Get(RewriteRow(headers, row, repo, number), key) ==
      if key in headers && Selected(key) then Rewritten(Get(row, key), repo, number) else Get(row, key)
  {
    if headers != [] {
      var n := |headers| - 1;
      RewriteRowEffect(headers[..n], row, repo, number, key);
      RewriteRowEffect(headers[..n], row, repo, number, headers[n]);
      InFrontOrLast(headers, key);
      RewrittenIdempotent(Get(row, key), repo, number);
    }
  }

  // ---------------------------------------------------------------------------
  // the field pass

  /** What the field pass does with one selected column of a matched record. */
  datatype Event =
    | ItemNotFound(title: Option<string>)
    | FieldNotFound(key: string)
    | EmptyValue(key: string)
    | InvalidDate(key: string)
    | PrepareFailed(key: string, error: PrepareError)
    | Update(key: string, itemId: string, fieldId: string, value: FieldValue)

  /** The value of a column before preparation: a date field's value is first shifted, and
      a date that does not shift gives None. */
  function FieldInput(field: Field, value: string, off: Offset): Option<string> {
    if field.dataType == DateType then ShiftDate(value, off) else Some(value)
  }

  /** One column, in the order of the source's checks: the field by trimmed name, then a
      missing or blank value, then the date shift, then preparation. */
  function FieldEvent(fieldMap: map<string, Field>, off: Offset, itemId: string, row: Row, key: string): (e: Event)
    ensures !e.ItemNotFound? && e.key == key
    ensures e.Update? ==> e.itemId == itemId
  {
    if Trim(key) !in fieldMap then FieldNotFound(key)
    else
      var field := fieldMap[Trim(key)];
      var value := Get(row, key);
      if value.None? || Trim(value.value) == "" then EmptyValue(key)
      else
        match FieldInput(field, value.value, off)
        case None => InvalidDate(key)
        case Some(v) =>
          match PrepareValue(field, key, v)
          case Failure(e) => PrepareFailed(key, e)
          case Success(p) => Update(key, itemId, field.id, p)
  }

  /** The second pass over the columns: one event per selected column, in header order. */
  function FieldEvents(fieldMap: map<string, Field>, off: Offset, itemId: string, row: Row, headers: seq<string>): seq<Event> {
    if headers == [] then []
    else
      var n := |headers| - 1;
      var init := FieldEvents(fieldMap, off, itemId, row, headers[..n]);
      if Selected(headers[n]) then init + [FieldEvent(fieldMap, off, itemId, row, headers[n])] else init
  }

  /** Everything the pass needs besides the record: the items, the fields by trimmed name,
      the title numbers, the day offset and the target repository. */
  datatype Pass = Pass(items: seq<Item>, fieldMap: map<string, Field>, numbers: map<string, Option<int>>, off: Offset, repo: string)

  function PassOf(table: Table, items: seq<Item>, fields: seq<Field>, baseDate: Option<string>, repo: string): Pass {
    Pass(items, FieldMap(fields), TitleToNumber(items), DiffDays(table.rows, baseDate), repo)
  }

  /** The record after the rewrite pass; a record that matches no item is left as it is. */
  function RowAfter(p: Pass, headers: seq<string>, row: Row): Row {
    var title := Get(row, "Title");
    if ItemFor(p.items, title).None? then row
    else RewriteRow(headers, row, p.repo, NumberFor(p.numbers, title))
  }

  /** The events of one record: a single warning when no item has its title, otherwise the
      field pass over the rewritten record. */
  function RowEvents(p: Pass, headers: seq<string>, row: Row): seq<Event> {
    var title := Get(row, "Title");
    match ItemFor(p.items, title)
    case None => [ItemNotFound(title)]
    case Some(item) => FieldEvents(p.fieldMap, p.off, item.id, RowAfter(p, headers, row), headers)
  }

  /** The events of all records, in file order. */
  function RowsEvents(p: Pass, headers: seq<string>, rows: seq<Row>): seq<Event> {
    if rows == [] then []
    else RowsEvents(p, headers, rows[..|rows| - 1]) + RowEvents(p, headers, rows[|rows| - 1])
  }

  // ---------------------------------------------------------------------------
  // properties of the pass

  /** The field pass yields exactly one event per selected column, about that column, in header
      order, so a failure on one column never hides a later one; every update targets the
      record's item. */
  lemma {:induction false} FieldEventsPerColumn(fieldMap: map<string, Field>, off: Offset, itemId: string, row: Row, headers: seq<string>)
    ensures var evs := FieldEvents(fieldMap, off, itemId, row, headers); var keys := SelectedHeaders(headers);
      |evs| == |keys| &&
      forall i :: 0 <= i < |evs| ==> (!evs[i].ItemNotFound? && evs[i].key == keys[i] &&
                                      (evs[i].Update? ==> evs[i].itemId == itemId))
  {
    if headers != [] {
      FieldEventsPerColumn(fieldMap, off, itemId, row, headers[..|headers| - 1]);
    }
  }

  /** The literal header "Title" is not selected. */
  lemma TitleHeaderNotSelected()
    ensures !Selected("Title")
  {
    var t := "Title";
    assert LeadingWhitespace(t) == 0 by { assert t[0] == 'T'; }
    assert TrailingWhitespace(t) == 0 by { assert t[4] == 'e'; }
    assert Trim(t) == t;
    var k := ToLower(t);
    assert k[0] == 't' && k[1] == 'i' && k[2] == 't' && k[3] == 'l' && k[4] == 'e';
    assert k == "title";
  }

  /** A record whose title matches no item gives a single warning, and is left unchanged. */
  lemma RowWithoutItem(p: Pass, headers: seq<string>, row: Row)
    requires forall i :: 0 <= i < |p.items| ==> p.items[i].title != Get(row, "Title")
    ensures RowEvents(p, headers, row) == [ItemNotFound(Get(row, "Title"))]
    ensures RowAfter(p, headers, row) == row
  {
  }

  /** A record that matches an item gives one event per selected column, and every update
      goes to the FIRST item in listing order with the record's title. */
  lemma RowWithItem(p: Pass, headers: seq<string>, row: Row, k: nat)
    requires k < |p.items| && p.items[k].title == Get(row, "Title")
    requires forall j :: 0 <= j < k ==> p.items[j].title != Get(row, "Title")
    ensures var evs := RowEvents(p, headers, row);
      |evs| == |SelectedHeaders(headers)| &&
      forall i :: 0 <= i < |evs| ==> evs[i].Update? ==> evs[i].itemId == p.items[k].id
  {
    var title := Get(row, "Title");
    var item := ItemFor(p.items, title);
    var i :| 0 <= i < |p.items| && p.items[i] == item.value && p.items[i].title == title &&
      forall j :: 0 <= j < i ==> p.items[j].title != title;
    assert i == k;
    FieldEventsPerColumn(p.fieldMap, p.off, item.value.id, RowAfter(p, headers, row), headers);
  }

  /** The rewrite leaves the Title of a record as it is. */
  lemma RewriteKeepsTitle(headers: seq<string>, row: Row, repo: string, number: Option<int>)
    ensures Get(RewriteRow(headers, row, repo, number), "Title") == Get(row, "Title")
  {
    TitleHeaderNotSelected();
    RewriteRowEffect(headers, row, repo, number, "Title");
  }

  /** A shifted date neither starts nor ends with whitespace or a quote, so cleaning keeps it. */
  lemma ShiftedDateIsClean(s: string, off: Offset)
    requires ShiftDate(s, off).Some?
    ensures CleanValue(ShiftDate(s, off).value) == ShiftDate(s, off).value
  {
    var r := ShiftDate(s, off).value;
    if off.NotANumber? {
      assert r[0] == 'N' && r[|r| - 1] == 'N';
    } else {
      FormatEnds(ShiftMoment(ParseDate(s).value, off.n));
    }
    CleanValuePlain(r);
  }

  /** A date field's update carries the record's date shifted by the pass offset, exactly; a
      date field whose value does not parse as a date is skipped. */
  lemma DateFieldShifted(fieldMap: map<string, Field>, off: Offset, itemId: string, row: Row, key: string)
    requires Trim(key) in fieldMap && fieldMap[Trim(key)].dataType == DateType
    ensures var e := FieldEvent(fieldMap, off, itemId, row, key);
      (e.Update? ==> (Get(row, key).Some? && ShiftDate(Get(row, key).value, off).Some? &&
                      e.value == DateValue(ShiftDate(Get(row, key).value, off).value) &&
                      e.fieldId == fieldMap[Trim(key)].id)) &&
      (Get(row, key).Some? && Trim(Get(row, key).value) != "" && ParseDate(Get(row, key).value).None? ==>
        e == InvalidDate(key))
  {
    if FieldEvent(fieldMap, off, itemId, row, key).Update? {
      DateFieldUpdate(fieldMap, off, itemId, row, key);
    }
    DateFieldInvalid(fieldMap, off, itemId, row, key);
    UpdateNeedsFieldAndValue(fieldMap, off, itemId, row, key);
  }

  lemma DateFieldUpdate(fieldMap: map<string, Field>, off: Offset, itemId: string, row: Row, key: string)
    requires Trim(key) in fieldMap && fieldMap[Trim(key)].dataType == DateType
    requires FieldEvent(fieldMap, off, itemId, row, key).Update?
    ensures Get(row, key).Some? && ShiftDate(Get(row, key).value, off).Some?
    ensures FieldEvent(fieldMap, off, itemId, row, key).value == DateValue(ShiftDate(Get(row, key).value, off).value)
  {
    var field, value := fieldMap[Trim(key)], Get(row, key);
    assert value.Some? && FieldInput(field, value.value, off).Some?;
    var shifted := ShiftDate(value.value, off).value;
    ShiftedDateIsClean(value.value, off);
    PrepareValueMeaning(field, key, shifted);
  }

  lemma DateFieldInvalid(fieldMap: map<string, Field>, off: Offset, itemId: string, row: Row, key: string)
    requires Trim(key) in fieldMap && fieldMap[Trim(key)].dataType == DateType
    ensures var value := Get(row, key);
      value.Some? && Trim(value.value) != "" && ParseDate(value.value).None? ==>
        FieldEvent(fieldMap, off, itemId, row, key) == InvalidDate(key)
  {
  }

  /** A column is sent only when a field has its trimmed name and its value is not blank. */
  lemma UpdateNeedsFieldAndValue(fieldMap: map<string, Field>, off: Offset, itemId: string, row: Row, key: string)
    ensures var e := FieldEvent(fieldMap, off, itemId, row, key);
      (Trim(key) !in fieldMap <==> e == FieldNotFound(key)) &&
      (e.Update? ==> (Trim(key) in fieldMap && Get(row, key).Some? && Trim(Get(row, key).value) != "" &&
                      e.fieldId == fieldMap[Trim(key)].id))
  {
  }

  /** When a field has the column's trimmed name, the event is decided by the value: a blank
      or missing value is skipped; otherwise a date is shifted and sent, and any other type is
      sent as prepared, or reported with the preparation error. */
  lemma FieldEventForField(fieldMap: map<string, Field>, off: Offset, itemId: string, row: Row, key: string)
    requires Trim(key) in fieldMap
    ensures var field, value := fieldMap[Trim(key)], Get(row, key);
      var e := FieldEvent(fieldMap, off, itemId, row, key);
      ((value.None? || Trim(value.value) == "") <==> e == EmptyValue(key)) &&
      (value.Some? && Trim(value.value) != "" && field.dataType != DateType ==>
        var p := PrepareValue(field, key, value.value);
        (p.Success? ==> e == Update(key, itemId, field.id, p.value)) &&
        (p.Failure? ==> e == PrepareFailed(key, p.error))) &&
      (value.Some? && Trim(value.value) != "" && field.dataType == DateType &&
       ShiftDate(value.value, off).Some? ==>
        e == Update(key, itemId, field.id, DateValue(ShiftDate(value.value, off).value)))
  {
    var field, value := fieldMap[Trim(key)], Get(row, key);
    if value.Some? && Trim(value.value) != "" && field.dataType == DateType && ShiftDate(value.value, off).Some? {
      var shifted := ShiftDate(value.value, off).value;
      ShiftedDateIsClean(value.value, off);
      PrepareValueMeaning(field, key, shifted);
    }
  }

  // ---------------------------------------------------------------------------
  // the pass itself

  /** The first loop over the headers of a matched record: every selected column holding a
      GitHub link is pointed at the record's own issue, when its title has a number. */
  method RewriteReferences(headers: seq<string>, record: Row, numbers: map<string, Option<int>>, repo: string)
    returns (row: Row)
    ensures row == RewriteRow(headers, record, repo, NumberFor(numbers, Get(record, "Title")))
  {
    ghost var number := NumberFor(numbers, Get(record, "Title"));
    row := record;
    for h := 0 to |headers|
      invariant row == RewriteRow(headers[..h], record, repo, number)
    {
      assert headers[..h + 1][..h] == headers[..h];
      var key := headers[h];
      if !Selected(key) {
        continue;
      }
      var oldValue := Get(row, key);
      if oldValue.Some? && StartsWith(oldValue.value, GithubPrefix) {
        RewriteKeepsTitle(headers[..h], record, repo, number);
        var issueNumber := NumberFor(numbers, Get(row, "Title"));
        if TruthyNumber(issueNumber) {
          row := row[key := Some(IssueUrl(repo, issueNumber.value))];
        }
      }
    }
    assert headers[..|headers|] == headers;
  }

  /** The second loop over the headers of a matched record: one event per selected column. */
  method FieldPass(headers: seq<string>, row: Row, fieldMap: map<string, Field>, off: Offset, itemId: string)
    returns (events: seq<Event>)
    ensures events == FieldEvents(fieldMap, off, itemId, row, headers)
  {
    events := [];
    for h := 0 to |headers|
      invariant events == FieldEvents(fieldMap, off, itemId, row, headers[..h])
    {
      assert headers[..h + 1][..h] == headers[..h];
      var key := headers[h];
      if !Selected(key) {
        continue;
      }
      var value := Get(row, key);
      if Trim(key) !in fieldMap {
        events := events + [FieldNotFound(key)];
        continue;
      }
      var field := fieldMap[Trim(key)];
      if value.None? || Trim(value.value) == "" {
        events := events + [EmptyValue(key)];
        continue;
      }
      var input := value.value;
      if field.dataType == DateType {
        var shifted := ShiftDate(input, off);
        if shifted.None? {
          events := events + [InvalidDate(key)];
          continue;
        }
        input := shifted.value;
      }
      match PrepareValue(field, key, input) {
        case Failure(e) =>
          events := events + [PrepareFailed(key, e)];
        case Success(v) =>
          events := events + [Update(key, itemId, field.id, v)];
      }
    }
    assert headers[..|headers|] == headers;
  }

  /** The body of the loop over the records: the item lookup, then both passes over the
      headers. */
  method SyncRecord(headers: seq<string>, record: Row, items: seq<Item>, fieldMap: map<string, Field>,
                    numbers: map<string, Option<int>>, off: Offset, repo: string)
    returns (events: seq<Event>, row: Row)
    ensures events == RowEvents(Pass(items, fieldMap, numbers, off, repo), headers, record)
    ensures row == RowAfter(Pass(items, fieldMap, numbers, off, repo), headers, record)
  {
    var title := Get(record, "Title");
    var item := ItemFor(items, title);
    if item.None? {
      return [ItemNotFound(title)], record;
    }
    row := RewriteReferences(headers, record, numbers, repo);
    events := FieldPass(headers, row, fieldMap, off, item.value.id);
  }

  /** `updateProjectFields(projectName, targetRepo, { headers, rows })` after its three
      queries: the milestone pass with the offset, then the loop over the records. Returns the
      milestone requests, the events in order and the records as the rewrite left them. */
  method UpdateProjectFields(table: Table, items: seq<Item>, fields: seq<Field>, milestones: seq<Milestone>,
                             baseDate: Option<string>, repo: string)
    returns (milestoneUpdates: seq<MilestoneUpdate>, events: seq<Event>, rows: seq<Row>)
    ensures var p := PassOf(table, items, fields, baseDate, repo);
      milestoneUpdates == MilestoneUpdates(milestones, p.off) &&
      events == RowsEvents(p, table.headers, table.rows) &&
      |rows| == |table.rows| &&
      forall r :: 0 <= r < |rows| ==> rows[r] == RowAfter(p, table.headers, table.rows[r])
  {
    var fieldMap := FieldMap(fields);
    var numbers := TitleToNumber(items);
    var off := DiffDays(table.rows, baseDate);
    milestoneUpdates := UpdateMilestoneDates(milestones, off);
    events, rows := SyncRecords(table.headers, table.rows, Pass(items, fieldMap, numbers, off, repo));
  }

  /** `for (const row of rows)`: every record in file order. */
  method SyncRecords(headers: seq<string>, records: seq<Row>, p: Pass)
    returns (events: seq<Event>, rows: seq<Row>)
    ensures events == RowsEvents(p, headers, records)
    ensures |rows| == |records| && forall r :: 0 <= r < |rows| ==> rows[r] == RowAfter(p, headers, records[r])
  {
    events := [];
    rows := [];
    for r := 0 to |records|
      invariant events == RowsEvents(p, headers, records[..r])
      invariant |rows| == r && forall i :: 0 <= i < r ==> rows[i] == RowAfter(p, headers, records[i])
    {
      assert records[..r + 1][..r] == records[..r];
      var rowEvents, row := SyncRecord(headers, records[r], p.items, p.fieldMap, p.numbers, p.off, p.repo);
      events := events + rowEvents;
      rows := rows + [row];
    }
    assert records[..|records|] == records;
  }
}
