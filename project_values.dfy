/** The value preparation of project.js (`updateFieldValue`, `getOptionId`, `getIterationId`):
    the text of a cell is trimmed, one surrounding pair of double quotes is dropped, and the
    result is wrapped according to the field's data type, single-select options and iterations
    being looked up by exact name. The option and iteration lists a field's lookup query would
    return are part of the field snapshot. */
module ProjectValues {
  import opened Wrappers
  import opened Text
  import opened Seqs

  /** A field's `dataType`; every type other than the five the code names is `OtherType`. */
  datatype DataType = TextType | NumberType | DateType | SingleSelectType | IterationType | OtherType(name: string)

  /** A single-select option (`id`, `name`) or an iteration (`id`, `title`). */
  datatype Choice = Choice(id: string, name: string)

  /** A project field, with the options of a single-select field and the iterations of an
      iteration field. */
  datatype Field = Field(id: string, name: string, dataType: DataType, options: seq<Choice>, iterations: seq<Choice>)

  /** The `value` of the `updateProjectV2ItemFieldValue` input. A number payload keeps the text
      `parseFloat` reads; `PlainValue` is the cleaned string passed as it is. */
  datatype FieldValue =
    | NumberValue(source: string)
    | DateValue(date: string)
    | OptionValue(optionId: string)
    | IterationValue(iterationId: string)
    | TextValue(text: string)
    | PlainValue(value: string)

  /** The two errors value preparation throws. */
  datatype PrepareError = OptionNotFound(wanted: string) | IterationNotFound(wanted: string)

  // ---------------------------------------------------------------------------
  // cleaning

  /** `s.replace(/^"|"$/g, "")`: a leading `"` goes, then a trailing `"` of what is left. The
      result is the part of `s` after one leading quote, if any, and before one trailing quote,
      if any is left. */
  function StripQuotes(s: string): (r: string)
    ensures var lead := if s != [] && s[0] == '"' then 1 else 0;
      lead + |r| <= |s| <= lead + |r| + 1 && r == s[lead..lead + |r|] &&
      (lead + |r| < |s| <==> (lead < |s| && s[|s| - 1] == '"'))
  {
    var t := if s != [] && s[0] == '"' then s[1..] else s;
    if t != [] && t[|t| - 1] == '"' then t[..|t| - 1] else t
  }

  /** A quoted text loses exactly its enclosing quotes. */
  lemma StripQuotesQuoted(t: string)
    ensures StripQuotes("\"" + t + "\"") == t
  {
    var s := "\"" + t + "\"";
    assert s[1..] == t + "\"";
    assert (t + "\"")[..|t|] == t;
  }

  /** A text that neither starts nor ends with a quote is kept as it is. */
  lemma StripQuotesUnquoted(t: string)
    requires t == [] || (t[0] != '"' && t[|t| - 1] != '"')
    ensures StripQuotes(t) == t
  {
  }

  /** The cleaned value: `value.trim().replace(/^"|"$/g, "")`. */
  function CleanValue(value: string): string {
    StripQuotes(Trim(value))
  }

  /** Cleaning trims first: whitespace around a quoted text goes, then the quotes. */
  lemma CleanValuePadded(w1: string, t: string, w2: string)
    requires AllWhitespace(w1) && AllWhitespace(w2)
    ensures CleanValue(w1 + "\"" + t + "\"" + w2) == t
  {
    var q := "\"" + t + "\"";
    assert q[0] == '"' && q[|q| - 1] == '"';
    assert w1 + "\"" + t + "\"" + w2 == w1 + q + w2;
    TrimPadded(w1, q, w2);
    StripQuotesQuoted(t);
  }

  /** A text with no whitespace and no quote at either end is its own cleaned value. */
  lemma CleanValuePlain(v: string)
    requires v == [] || (!IsWhitespace(v[0]) && !IsWhitespace(v[|v| - 1]) && v[0] != '"' && v[|v| - 1] != '"')
    ensures CleanValue(v) == v
  {
    assert [] + v + [] == v;
    TrimPadded([], v, []);
  }

  // ---------------------------------------------------------------------------
  // option and iteration lookup

  /** `choices.find((c) => c.name === wanted)?.id`: the id of the first choice whose name is
      exactly the wanted text. */
  function ChoiceId(choices: seq<Choice>, wanted: string): (r: Option<string>)
    ensures r.None? <==> forall i :: 0 <= i < |choices| ==> choices[i].name != wanted
    ensures r.Some? ==> exists i :: (0 <= i < |choices| && choices[i].name == wanted && choices[i].id == r.value &&
      forall j :: 0 <= j < i ==> choices[j].name != wanted)
  {
    match FindFirst(choices, (c: Choice) => c.name == wanted)
    case None => None
    case Some(i) => Some(choices[i].id)
  }

  /** `getOptionId(fieldId, label)`: throws when no option has that name. */
  function OptionId(field: Field, wanted: string): (r: Result<string, PrepareError>)
    ensures r.Success? <==> ChoiceId(field.options, wanted).Some?
    ensures r.Success? ==> r.value == ChoiceId(field.options, wanted).value
    ensures r.Failure? ==> r.error == OptionNotFound(wanted)
  {
    match ChoiceId(field.options, wanted)
    case None => Failure(OptionNotFound(wanted))
    case Some(id) => Success(id)
  }

  /** `getIterationId(fieldId, label)`: throws when no iteration has that title. */
  function IterationId(field: Field, wanted: string): (r: Result<string, PrepareError>)
    ensures r.Success? <==> ChoiceId(field.iterations, wanted).Some?
    ensures r.Success? ==> r.value == ChoiceId(field.iterations, wanted).value
    ensures r.Failure? ==> r.error == IterationNotFound(wanted)
  {
    match ChoiceId(field.iterations, wanted)
    case None => Failure(IterationNotFound(wanted))
    case Some(id) => Success(id)
  }

  // ---------------------------------------------------------------------------
  // preparedValue

  /** Keys whose values are sent as text whatever the field's type. */
  predicate IsTextKey(key: string) {
    key == "Depend on #" || key == "Parent issue"
  }

  /** `preparedValue`: the cleaned value wrapped by the type of the field. Only a single-select
      or iteration field whose snapshot has no entry of that name fails, with the cleaned value
      in the error. */
  function PrepareValue(field: Field, key: string, value: string): (r: Result<FieldValue, PrepareError>)
    ensures r.Failure? <==>
      (field.dataType == SingleSelectType && ChoiceId(field.options, CleanValue(value)).None?) ||
      (field.dataType == IterationType && ChoiceId(field.iterations, CleanValue(value)).None?)
    ensures r.Failure? ==> r.error.wanted == CleanValue(value)
  {
    var cleaned := CleanValue(value);
    match field.dataType
    case NumberType => Success(NumberValue(cleaned))
    case DateType => Success(DateValue(cleaned))
    case SingleSelectType =>
      (match OptionId(field, cleaned)
       case Success(id) => Success(OptionValue(id))
       case Failure(e) => Failure(e))
    case IterationType =>
      (match IterationId(field, cleaned)
       case Success(id) => Success(IterationValue(id))
       case Failure(e) => Failure(e))
    case _ =>
      if field.dataType == TextType || IsTextKey(key) then Success(TextValue(cleaned))
      else Success(PlainValue(cleaned))
  }

  /** The payload carries the cleaned value, or for a choice the id of the first option or
      iteration named exactly like it; only the field's type (and, for an untyped field, the
      two text keys) decides the wrapper. */
  lemma PrepareValueMeaning(field: Field, key: string, value: string)
    ensures var r := PrepareValue(field, key, value); var v := CleanValue(value);
      (field.dataType == NumberType ==> r == Success(NumberValue(v))) &&
      (field.dataType == DateType ==> r == Success(DateValue(v))) &&
      (field.dataType == TextType ==> r == Success(TextValue(v))) &&
      (field.dataType.OtherType? ==> r == Success(if IsTextKey(key) then TextValue(v) else PlainValue(v))) &&
      (field.dataType == SingleSelectType && r.Success? ==>
        exists i :: 0 <= i < |field.options| && field.options[i].name == v &&
          r.value == OptionValue(field.options[i].id) && forall j :: 0 <= j < i ==> field.options[j].name != v) &&
      (field.dataType == IterationType && r.Success? ==>
        exists i :: 0 <= i < |field.iterations| && field.iterations[i].name == v &&
          r.value == IterationValue(field.iterations[i].id) && forall j :: 0 <= j < i ==> field.iterations[j].name != v)
  {
  }

  /** A quoted option name in the sheet selects the option of exactly that name. */
  lemma PrepareQuotedOption(field: Field, key: string, name: string, i: nat)
    requires field.dataType == SingleSelectType
    requires i < |field.options| && field.options[i].name == name
    requires forall j :: 0 <= j < i ==> field.options[j].name != name
    ensures PrepareValue(field, key, " \"" + name + "\" ") == Success(OptionValue(field.options[i].id))
  {
    assert " \"" + name + "\" " == " " + "\"" + name + "\"" + " ";
    CleanValuePadded(" ", name, " ");
    var r := ChoiceId(field.options, name);
    if r.Some? {
      var k :| 0 <= k < |field.options| && field.options[k].name == name && field.options[k].id == r.value &&
        forall j :: 0 <= j < k ==> field.options[j].name != name;
      assert k == i;
    }
  }

  // ---------------------------------------------------------------------------
  // fieldMap

  /** `Object.fromEntries(fields.map((f) => [f.name.trim(), f]))`. */
  function FieldMap(fields: seq<Field>): (m: map<string, Field>)
    ensures m.Keys == set i | 0 <= i < |fields| :: Trim(fields[i].name)
  {
    var entries := seq(|fields|, i requires 0 <= i < |fields| => (Trim(fields[i].name), fields[i]));
    assert forall i :: 0 <= i < |fields| ==> entries[i].0 == Trim(fields[i].name);
    FromEntries(entries)
  }

  /** A trimmed name maps to the last field with that trimmed name. */
  lemma FieldMapLast(fields: seq<Field>, i: nat)
    requires i < |fields|
    requires forall j :: i < j < |fields| ==> Trim(fields[j].name) != Trim(fields[i].name)
    ensures FieldMap(fields)[Trim(fields[i].name)] == fields[i]
  {
    var entries := seq(|fields|, i requires 0 <= i < |fields| => (Trim(fields[i].name), fields[i]));
    FromEntriesLast(entries, i);
  }
}
