/**
 * The schema edit form (mapper/forms.py, EditSchemaForm): one dynamic text
 * field per description key, named by prefixing the key, and the decoding of
 * those names when the form is saved.
 */
module SchemaForm {
  import opened Wrappers
  import opened Dicts

  /** The prefix that turns a description key into a form field name. */
  const Prefix: string := "description_dict_"

  /** `f'description_dict_{key}'`. */
  function FieldName(key: string): string {
    Prefix + key
  }

  /** `s.startswith(p)`. */
  predicate StartsWith(s: string, p: string) {
    |p| <= |s| && s[..|p|] == p
  }

  /** `p in s`: `p` occurs somewhere in `s`. */
  predicate Contains(s: string, p: string)
    ensures Contains(s, p) ==> |p| <= |s|
    decreases |s|
  {
    StartsWith(s, p) || (|s| > 0 && Contains(s[1..], p))
  }

  /**
   * `s.replace(pat, rep)`: scanning left to right, every non-overlapping
   * occurrence of `pat` is replaced by `rep`.
   */
  function Replace(s: string, pat: string, rep: string): (r: string)
    requires |pat| > 0
    ensures |rep| <= |pat| ==> |r| <= |s|
    ensures |rep| < |pat| && Contains(s, pat) ==> |r| < |s|
    decreases |s|
  {
    if |s| < |pat| then s
    else if s[..|pat|] == pat then rep + Replace(s[|pat|..], pat, rep)
    else [s[0]] + Replace(s[1..], pat, rep)
  }

  /** A string in which the pattern does not occur comes back from `replace` unchanged. */
  lemma {:induction false} ReplaceAbsent(s: string, pat: string, rep: string)
    requires |pat| > 0
    requires !Contains(s, pat)
    ensures Replace(s, pat, rep) == s
    decreases |s|
  {
    if |s| >= |pat| {
      ReplaceAbsent(s[1..], pat, rep);
      assert s == [s[0]] + s[1..];
    }
  }

  /** A leading occurrence is replaced and the scan goes on after it. */
  lemma ReplaceLeading(s: string, pat: string, rep: string)
    requires |pat| > 0
    ensures Replace(pat + s, pat, rep) == rep + Replace(s, pat, rep)
  {
  }

  /** The two ways of turning a field name back into a key. */
  datatype KeyDecoding =
    | ReplaceEvery  // `key.replace('description_dict_', '')`, as the form's save does
    | StripLeading  // Python's `key.removeprefix('description_dict_')`

  function DecodeKey(mode: KeyDecoding, name: string): string {
    match mode
    case ReplaceEvery => Replace(name, Prefix, "")
    case StripLeading => if StartsWith(name, Prefix) then name[|Prefix|..] else name
  }

  /** The entry is a description field whose name decodes to `x`. */
  predicate Decodes(mode: KeyDecoding, e: (string, string), x: string) {
    StartsWith(e.0, Prefix) && DecodeKey(mode, e.0) == x
  }

  /**
   * The dict comprehension of `save`, entry by entry into `acc`:
   * `{decode(key): value for key, value in items if key.startswith(Prefix)}`.
   * A decoded key met again keeps its place and takes the later value.
   */
  function DecodeInto(acc: Dict<string>, items: seq<(string, string)>, mode: KeyDecoding): (r: Dict<string>)
    ensures acc.Valid() ==> r.Valid()
    ensures |r.items| <= |acc.items| + |items|
    decreases |items|
  {
    if items == [] then acc
    else
      var p := DecodeInto(acc, items[..|items| - 1], mode);
      var e := items[|items| - 1];
      if StartsWith(e.0, Prefix) then p.Put(DecodeKey(mode, e.0), e.1) else p
  }

  /**
   * The description dictionary `save` rebuilds from the cleaned form data, as
   * written: a genuine dict, with no more entries than the cleaned data.
   */
  function RebuildDescriptions(cleaned: Dict<string>): (r: Dict<string>)
    ensures r.Valid()
    ensures |r.items| <= |cleaned.items|
  {
    DecodeInto(Dict([]), cleaned.items, ReplaceEvery)
  }

  lemma {:induction false} DecodeIntoAppend(acc: Dict<string>, a: seq<(string, string)>, b: seq<(string, string)>, mode: KeyDecoding)
    ensures DecodeInto(acc, a + b, mode) == DecodeInto(DecodeInto(acc, a, mode), b, mode)
    decreases |b|
  {
    if b == [] {
      assert a + b == a;
    } else {
      assert (a + b)[..|a + b| - 1] == a + b[..|b| - 1];
      assert (a + b)[|a + b| - 1] == b[|b| - 1];
      DecodeIntoAppend(acc, a, b[..|b| - 1], mode);
    }
  }

  /** The entries that `save` looks at: those whose name starts with the prefix, in order. */
  function Prefixed(items: seq<(string, string)>): (r: seq<(string, string)>)
    ensures forall i :: 0 <= i < |r| ==> StartsWith(r[i].0, Prefix)
    ensures |r| <= |items|
  {
    if items == [] then []
    else
      var p := Prefixed(items[..|items| - 1]);
      if StartsWith(items[|items| - 1].0, Prefix) then p + [items[|items| - 1]] else p
  }

  /** Entries without the prefix, such as `name` and `pandera_schema`, play no part in the rebuilt dictionary. */
  lemma {:induction false} DecodeOnlyPrefixed(acc: Dict<string>, items: seq<(string, string)>, mode: KeyDecoding)
    ensures DecodeInto(acc, items, mode) == DecodeInto(acc, Prefixed(items), mode)
    decreases |items|
  {
    if items != [] {
      var init, e := items[..|items| - 1], items[|items| - 1];
      DecodeOnlyPrefixed(acc, init, mode);
      if StartsWith(e.0, Prefix) {
        DecodeIntoAppend(acc, Prefixed(init), [e], mode);
        assert (Prefixed(init) + [e])[..|Prefixed(init) + [e]| - 1] == Prefixed(init);
      }
    }
  }

  /** A key is rebuilt exactly when some prefixed entry decodes to it. */
  lemma {:induction false} DecodeIntoHas(acc: Dict<string>, items: seq<(string, string)>, mode: KeyDecoding, x: string)
    ensures DecodeInto(acc, items, mode).Has(x) <==>
              acc.Has(x) || exists i :: 0 <= i < |items| && Decodes(mode, items[i], x)
    decreases |items|
  {
    if items != [] {
      var init, e := items[..|items| - 1], items[|items| - 1];
      DecodeIntoHas(acc, init, mode, x);
      if exists i :: 0 <= i < |items| && Decodes(mode, items[i], x) {
        var i :| 0 <= i < |items| && Decodes(mode, items[i], x);
        if i < |init| {
          assert Decodes(mode, init[i], x);
        }
      }
      if exists i :: 0 <= i < |init| && Decodes(mode, init[i], x) {
        var i :| 0 <= i < |init| && Decodes(mode, init[i], x);
        assert Decodes(mode, items[i], x);
      }
    }
  }

  /** The value of a rebuilt key is that of the last entry decoding to it. */
  lemma {:induction false} DecodeIntoLastWins(acc: Dict<string>, items: seq<(string, string)>, mode: KeyDecoding, x: string, i: nat)
    requires i < |items| && Decodes(mode, items[i], x)
    requires forall j :: i < j < |items| ==> !Decodes(mode, items[j], x)
    ensures DecodeInto(acc, items, mode).Has(x)
    ensures DecodeInto(acc, items, mode).Get(x) == items[i].1
    decreases |items|
  {
    var init, e := items[..|items| - 1], items[|items| - 1];
    if i < |init| {
      DecodeIntoLastWins(acc, init, mode, x, i);
      assert !Decodes(mode, e, x);
    }
  }

  /** The description-field entries of an unedited submission: each field name with the value it was given. */
  function EncodedData(items: seq<(string, string)>): (r: seq<(string, string)>)
    ensures |r| == |items|
    ensures forall i :: 0 <= i < |items| ==> r[i] == (FieldName(items[i].0), items[i].1)
  {
    seq(|items|, i requires 0 <= i < |items| => (FieldName(items[i].0), items[i].1))
  }

  /** One step of decoding encoded entries: a new key's field decodes to an appended entry. */
  lemma DecodeEncodedStep(init: seq<(string, string)>, e: (string, string), mode: KeyDecoding)
    requires DecodeInto(Dict([]), EncodedData(init), mode) == Dict(init)
    requires !Dict(init).Has(e.0)
    requires DecodeKey(mode, FieldName(e.0)) == e.0
    ensures DecodeInto(Dict([]), EncodedData(init + [e]), mode) == Dict(init + [e])
  {
    var enc := EncodedData(init + [e]);
    assert enc[..|enc| - 1] == EncodedData(init);
    assert enc[|enc| - 1] == (FieldName(e.0), e.1);
    assert StartsWith(FieldName(e.0), Prefix);
  }

  lemma {:induction false} DecodeEncoded(items: seq<(string, string)>, mode: KeyDecoding)
    requires Dict(items).Valid()
    requires forall i :: 0 <= i < |items| ==> DecodeKey(mode, FieldName(items[i].0)) == items[i].0
    ensures DecodeInto(Dict([]), EncodedData(items), mode) == Dict(items)
  {
    if items != [] {
      var init, e := items[..|items| - 1], items[|items| - 1];
      assert items == init + [e];
      assert Dict(items).Keys() == Dict(init).Keys() + [e.0];
      DecodeEncoded(init, mode);
      DecodeEncodedStep(init, e, mode);
    }
  }

  /** A key without the prefix text inside it is recovered from its field name. */
  lemma ReplaceEveryDecodesField(k: string)
    requires !Contains(k, Prefix)
    ensures DecodeKey(ReplaceEvery, FieldName(k)) == k
  {
    ReplaceLeading(k, Prefix, "");
    ReplaceAbsent(k, Prefix, "");
  }

  lemma NoPrefixedEntries(others: seq<(string, string)>)
    requires forall i :: 0 <= i < |others| ==> !StartsWith(others[i].0, Prefix)
    ensures Prefixed(others) == []
  {
  }

  /** Saving the encoded entries behind fields that do not start with the prefix decodes the encoded entries alone. */
  lemma DecodeAfterOthers(others: seq<(string, string)>, encoded: seq<(string, string)>, mode: KeyDecoding)
    requires forall i :: 0 <= i < |others| ==> !StartsWith(others[i].0, Prefix)
    ensures DecodeInto(Dict([]), others + encoded, mode) == DecodeInto(Dict([]), encoded, mode)
  {
    DecodeIntoAppend(Dict([]), others, encoded, mode);
    DecodeOnlyPrefixed(Dict([]), others, mode);
    NoPrefixedEntries(others);
  }

  /**
   * Round trip, as written: encoding a dictionary's keys as field names and
   * saving gives the dictionary back when no key contains the prefix text and
   * the other fields' names do not start with it.
   */
  lemma ReplaceEveryRoundTrip(d: Dict<string>, others: seq<(string, string)>)
    requires d.Valid()
    requires forall k :: d.Has(k) ==> !Contains(k, Prefix)
    requires forall i :: 0 <= i < |others| ==> !StartsWith(others[i].0, Prefix)
    ensures RebuildDescriptions(Dict(others + EncodedData(d.items))) == d
  {
    forall i | 0 <= i < |d.items|
      ensures DecodeKey(ReplaceEvery, FieldName(d.items[i].0)) == d.items[i].0
    {
      assert d.Has(d.items[i].0) by { assert d.Keys()[i] == d.items[i].0; }
      ReplaceEveryDecodesField(d.items[i].0);
    }
    DecodeEncoded(d.items, ReplaceEvery);
    DecodeAfterOthers(others, EncodedData(d.items), ReplaceEvery);
  }

  /** The field name of `x`, and the field name of that field name, both decode to `x`. */
  lemma ReplaceEveryStripsRepeatedPrefix()
    ensures DecodeKey(ReplaceEvery, FieldName("x")) == "x"
    ensures DecodeKey(ReplaceEvery, FieldName(FieldName("x"))) == "x"
  {
    ReplaceLeading("x", Prefix, "");
    ReplaceLeading(Prefix + "x", Prefix, "");
  }

  /**
   * Without that condition the round trip fails: the keys `x` and
   * `description_dict_x` (the field name of `x`) both come back as `x`, the
   * later value winning.
   */
  lemma ReplaceEveryMergesKeys()
    ensures Dict([("x", "1"), (FieldName("x"), "2")]).Valid()
    ensures RebuildDescriptions(Dict(EncodedData([("x", "1"), (FieldName("x"), "2")]))) == Dict([("x", "2")])
  {
    var d := [("x", "1"), (FieldName("x"), "2")];
    assert Dict(d).Keys() == ["x", FieldName("x")];
    ReplaceEveryStripsRepeatedPrefix();
    var enc := EncodedData(d);
    assert enc == [(FieldName("x"), "1"), (FieldName(FieldName("x")), "2")];
    assert enc[..1] == [enc[0]] && enc[..1][..0] == [];
    assert StartsWith(enc[0].0, Prefix) && StartsWith(enc[1].0, Prefix);
    var first := DecodeInto(Dict([]), enc[..1], ReplaceEvery);
    assert DecodeInto(Dict([]), enc[..1][..0], ReplaceEvery) == Dict([]);
    var empty: Dict<string> := Dict([]);
    assert empty.Keys() == [];
    assert first == empty.Put("x", "1");
    assert first == Dict([("x", "1")]);
    assert DecodeInto(Dict([]), enc, ReplaceEvery) == first.Put("x", "2");
  }

  /** A character that cannot start the pattern is copied and the scan goes on after it. */
  lemma ReplaceSkipsChar(x: char, s: string, pat: string, rep: string)
    requires |pat| > 0 && x != pat[0]
    ensures Replace([x] + s, pat, rep) == [x] + Replace(s, pat, rep)
  {
    assert ([x] + s)[1..] == s;
    if |[x] + s| >= |pat| {
      assert ([x] + s)[..|pat|][0] == x;
    }
  }

  /** An occurrence of the prefix text inside a key is removed too: `a_description_dict_b` comes back as `a_b`. */
  lemma ReplaceEveryAltersInnerOccurrence()
    ensures DecodeKey(ReplaceEvery, FieldName("a_description_dict_b")) == "a_b"
  {
    assert "a_description_dict_b" == ['a'] + (['_'] + (Prefix + "b"));
    ReplaceLeading("a_description_dict_b", Prefix, "");
    ReplaceSkipsChar('a', ['_'] + (Prefix + "b"), Prefix, "");
    ReplaceSkipsChar('_', Prefix + "b", Prefix, "");
    ReplaceLeading("b", Prefix, "");
  }

  /**
   * The round trip through `replace` fails for every key that contains the
   * prefix text: together with `ReplaceEveryDecodesField`, a key comes back
   * from its field name exactly when it does not contain `description_dict_`.
   */
  lemma ReplaceEveryAltersEveryContainingKey(k: string)
    requires Contains(k, Prefix)
    ensures DecodeKey(ReplaceEvery, FieldName(k)) != k
  {
    ReplaceLeading(k, Prefix, "");
  }

  /** Stripping only the leading prefix makes the round trip hold for every dictionary. */
  lemma StripLeadingRoundTrip(d: Dict<string>, others: seq<(string, string)>)
    requires d.Valid()
    requires forall i :: 0 <= i < |others| ==> !StartsWith(others[i].0, Prefix)
    ensures DecodeInto(Dict([]), others + EncodedData(d.items), StripLeading) == d
  {
    forall i | 0 <= i < |d.items|
      ensures DecodeKey(StripLeading, FieldName(d.items[i].0)) == d.items[i].0
    {
      assert StartsWith(FieldName(d.items[i].0), Prefix);
    }
    DecodeEncoded(d.items, StripLeading);
    DecodeAfterOthers(others, EncodedData(d.items), StripLeading);
  }

  /** A Django text field: its initial value and its label. */
  datatype Field = CharField(initial: Option<string>, labelText: string)

  /** The fields every edit form starts with: the model's `name` and the declared `pandera_schema`. */
  function BaseFields(): seq<(string, Field)> {
    [("name", CharField(None, "Name")), ("pandera_schema", CharField(None, "Data Quality Schema"))]
  }

  /** One field per description entry, named by the key, holding the description and labelled with the key. */
  function DescriptionFieldEntries(items: seq<(string, string)>): (r: seq<(string, Field)>)
    ensures |r| == |items|
    ensures forall i :: 0 <= i < |items| ==> r[i] == (FieldName(items[i].0), CharField(Some(items[i].1), items[i].0))
  {
    seq(|items|, i requires 0 <= i < |items| => (FieldName(items[i].0), CharField(Some(items[i].1), items[i].0)))
  }

  /** The names of those fields, in dictionary order. */
  function FieldNames(items: seq<(string, string)>): (r: seq<string>)
    ensures |r| == |items|
    ensures forall i :: 0 <= i < |items| ==> r[i] == FieldName(items[i].0)
  {
    seq(|items|, i requires 0 <= i < |items| => FieldName(items[i].0))
  }

  /** Distinct keys give distinct field names, and no field name is a base field's. */
  lemma FieldNameInjective(a: string, b: string)
    ensures FieldName(a) == FieldName(b) ==> a == b
    ensures FieldName(a) != "name" && FieldName(a) != "pandera_schema"
  {
    if FieldName(a) == FieldName(b) {
      assert a == FieldName(a)[|Prefix|..];
      assert b == FieldName(b)[|Prefix|..];
    }
  }

  /** During `__init__`, the field for the next key is not yet among the form's fields. */
  lemma NextFieldIsNew(items: seq<(string, string)>, i: nat)
    requires Dict(items).Valid() && i < |items|
    ensures !Dict(BaseFields() + DescriptionFieldEntries(items[..i])).Has(FieldName(items[i].0))
  {
    var f := Dict(BaseFields() + DescriptionFieldEntries(items[..i]));
    forall j | 0 <= j < |f.items|
      ensures f.Keys()[j] != FieldName(items[i].0)
    {
      if j < 2 {
        FieldNameInjective(items[i].0, items[i].0);
      } else {
        assert f.Keys()[j] == FieldName(items[j - 2].0);
        assert Dict(items).Keys()[j - 2] != Dict(items).Keys()[i];
        FieldNameInjective(items[j - 2].0, items[i].0);
      }
    }
  }

  /**
   * The fields of a form built from a dictionary: no two share a name, and
   * each key has exactly one field, named by the key, whose initial value is
   * the key's description and whose label is the key.
   */
  lemma FormFields(d: Dict<string>)
    requires d.Valid()
    ensures Dict(BaseFields() + DescriptionFieldEntries(d.items)).Valid()
    ensures forall k :: d.Has(k) ==>
              Dict(BaseFields() + DescriptionFieldEntries(d.items)).Has(FieldName(k)) &&
              Dict(BaseFields() + DescriptionFieldEntries(d.items)).Get(FieldName(k)) == CharField(Some(d.Get(k)), k)
  {
    var f := Dict(BaseFields() + DescriptionFieldEntries(d.items));
    forall j1, j2 | 0 <= j1 < j2 < |f.items|
      ensures f.Keys()[j1] != f.Keys()[j2]
    {
      if j2 >= 2 {
        assert f.Keys()[j2] == FieldName(d.items[j2 - 2].0);
        if j1 >= 2 {
          assert d.Keys()[j1 - 2] != d.Keys()[j2 - 2];
          FieldNameInjective(d.items[j1 - 2].0, d.items[j2 - 2].0);
        } else {
          FieldNameInjective(d.items[j2 - 2].0, d.items[j2 - 2].0);
        }
      }
    }
    forall k | d.Has(k)
      ensures f.Has(FieldName(k)) && f.Get(FieldName(k)) == CharField(Some(d.Get(k)), k)
    {
      var i := Seqs.IndexOf(d.Keys(), k);
      assert f.Keys()[2 + i] == FieldName(k);
      assert f.Has(FieldName(k));
    }
  }

  /** The `initial` keyword argument: its `description_dict` entry, if any, and its other entries. */
  datatype InitialData = InitialData(descriptionDict: Option<Dict<string>>, others: Dict<string>)

  /**
   * An `initial` split into its two parts: the entry `description_dict`, if
   * present, is the first part and never among the others.
   */
  predicate Split(initial: Option<InitialData>) {
    initial.Some? ==> !initial.value.others.Has("description_dict")
  }

  /** Python truthiness of the `initial` dictionary. */
  predicate NonEmpty(initial: InitialData) {
    initial.descriptionDict.Some? || initial.others.items != []
  }

  /**
   * The only way `__init__` fails before building fields: with a non-empty
   * `initial`, a `description_dict` keyword argument is left in `kwargs` and
   * the base form's `__init__` rejects it as an unexpected keyword (TypeError).
   */
  datatype InitError = UnexpectedKeyword

  /** The description dictionary `__init__` uses and the `initial` it hands to the base form. */
  datatype Chosen = Chosen(descriptions: Dict<string>, formInitial: Dict<string>)

  /** Lines 34-39 of `__init__`: where the description dictionary comes from. */
  function ChooseDescriptions(initial: Option<InitialData>, descriptionKwarg: Option<Dict<string>>): (r: Result<Chosen, InitError>)
    requires Split(initial)
    ensures r.Err? <==> initial.Some? && NonEmpty(initial.value) && descriptionKwarg.Some?
    ensures r.Ok? && initial.Some? && NonEmpty(initial.value) ==>
              r.value == Chosen(initial.value.descriptionDict.GetOr(Dict([])), initial.value.others)
    ensures r.Ok? && !(initial.Some? && NonEmpty(initial.value)) ==>
              r.value == Chosen(descriptionKwarg.GetOr(Dict([])), Dict([]))
  {
    if initial.Some? && NonEmpty(initial.value) then
      if descriptionKwarg.Some? then Err(UnexpectedKeyword)
      else Ok(Chosen(initial.value.descriptionDict.GetOr(Dict([])), initial.value.others))
    else
      Ok(Chosen(descriptionKwarg.GetOr(Dict([])), Dict([])))
  }

  /**
   * The two ways the views build the form both yield the dictionary they pass:
   * through `initial` (creating a schema) and through the keyword argument
   * (saving a posted schema).
   */
  lemma ViewConstructionsPickTheirDictionary(d: Dict<string>, others: Dict<string>)
    requires !others.Has("description_dict")
    ensures ChooseDescriptions(Some(InitialData(Some(d), others)), None) == Ok(Chosen(d, others))
    ensures ChooseDescriptions(None, Some(d)) == Ok(Chosen(d, Dict([])))
    ensures ChooseDescriptions(Some(InitialData(None, Dict([]))), Some(d)) == Ok(Chosen(d, Dict([])))
  {
  }

  /**
   * `EditSchemaForm._meta`: one options object for the form class, shared by
   * every instance, whose `fields` list `__init__` extends in place.
   */
  class FormOptions {
    var fields: seq<string>

    constructor ()
      ensures fields == ["name", "pandera_schema"]
    {
      fields := ["name", "pandera_schema"];
    }
  }

  class EditSchemaForm {
    const meta: FormOptions
    var fields: Dict<Field>
    var descriptionFields: seq<string>
    var initial: Dict<string>

    /**
     * `__init__`: one dynamic field per description key, in dictionary order,
     * recorded in `descriptionFields` and appended to the shared `_meta.fields`.
     * A non-empty `pandera_schema` in `initial` is replaced by its re-indented
     * JSON text, `reindent` standing for `json.dumps(json.loads(...), indent=4)`.
     */
    constructor (meta: FormOptions, initialArg: Option<InitialData>, descriptionKwarg: Option<Dict<string>>,
                 reindent: string -> string)
      requires Split(initialArg)
      requires ChooseDescriptions(initialArg, descriptionKwarg).Ok?
      requires ChooseDescriptions(initialArg, descriptionKwarg).value.descriptions.Valid()
      modifies meta
      ensures this.meta == meta
      ensures var given := ChooseDescriptions(initialArg, descriptionKwarg).value.formInitial;
              if given.Has("pandera_schema") && given.Get("pandera_schema") != ""
              then initial == given.Put("pandera_schema", reindent(given.Get("pandera_schema")))
              else initial == given
      ensures fields.items == BaseFields() + DescriptionFieldEntries(ChooseDescriptions(initialArg, descriptionKwarg).value.descriptions.items)
      ensures descriptionFields == FieldNames(ChooseDescriptions(initialArg, descriptionKwarg).value.descriptions.items)
      ensures meta.fields == old(meta.fields) + descriptionFields
    {
      var chosen := ChooseDescriptions(initialArg, descriptionKwarg).value;
      var items := chosen.descriptions.items;
      this.meta := meta;
      initial := chosen.formInitial;
      fields := Dict(BaseFields());
      descriptionFields := [];
      new;
      assert items[..0] == [];
      var i := 0;
      while i < |items|
        invariant 0 <= i <= |items|
        invariant fields.items == BaseFields() + DescriptionFieldEntries(items[..i])
        invariant descriptionFields == FieldNames(items[..i])
        invariant meta.fields == old(meta.fields)
        invariant initial == chosen.formInitial
      {
        var (key, value) := items[i];
        var fieldName := FieldName(key);
        NextFieldIsNew(items, i);
        fields := fields.Put(fieldName, CharField(Some(value), key));
        descriptionFields := descriptionFields + [fieldName];
        assert DescriptionFieldEntries(items[..i + 1]) == DescriptionFieldEntries(items[..i]) + [(fieldName, CharField(Some(value), key))];
        assert FieldNames(items[..i + 1]) == FieldNames(items[..i]) + [fieldName];
        i := i + 1;
      }
      assert items[..i] == items;
      meta.fields := meta.fields + descriptionFields;
      if initial.Has("pandera_schema") && initial.Get("pandera_schema") != "" {
        initial := initial.Put("pandera_schema", reindent(initial.Get("pandera_schema")));
      }
    }
  }

  /**
   * Because `_meta` belongs to the class, every form built extends the same
   * list: a second form appends its field names after the first form's.
   */
  method BuildTwice(meta: FormOptions, first: Dict<string>, second: Dict<string>, reindent: string -> string)
    returns (a: EditSchemaForm, b: EditSchemaForm)
    requires first.Valid() && second.Valid()
    modifies meta
    ensures meta.fields == old(meta.fields) + FieldNames(first.items) + FieldNames(second.items)
  {
    a := new EditSchemaForm(meta, None, Some(first), reindent);
    b := new EditSchemaForm(meta, None, Some(second), reindent);
  }

  /** The schema record `save` returns; absent cleaned values leave the record's field unset. */
  datatype Schema = Schema(name: Option<string>, descriptionDict: Dict<string>, panderaSchema: Option<string>)

  function Lookup(d: Dict<string>, k: string): Option<string> {
    if d.Has(k) then Some(d.Get(k)) else None
  }

  /**
   * `save(commit=False)`: the model fields copied from the cleaned data and
   * the rebuilt description dictionary, a genuine dict with at most one entry
   * per cleaned entry that carries the prefix.
   */
  function Save(cleaned: Dict<string>): (instance: Schema)
    ensures instance.name == Lookup(cleaned, "name")
    ensures instance.panderaSchema == Lookup(cleaned, "pandera_schema")
    ensures instance.descriptionDict.Valid()
    ensures |instance.descriptionDict.items| <= |Prefixed(cleaned.items)|
  {
    DecodeOnlyPrefixed(Dict([]), cleaned.items, ReplaceEvery);
    Schema(Lookup(cleaned, "name"), RebuildDescriptions(cleaned), Lookup(cleaned, "pandera_schema"))
  }

  /** The saved dictionary has a key exactly when some cleaned entry with the prefix decodes to it. */
  lemma SaveKeys(cleaned: Dict<string>, x: string)
    ensures Save(cleaned).descriptionDict.Has(x) <==>
              exists i :: 0 <= i < |cleaned.items| && Decodes(ReplaceEvery, cleaned.items[i], x)
  {
    DecodeIntoHas(Dict([]), cleaned.items, ReplaceEvery, x);
  }

  /** Its value is that of the last such entry. */
  lemma SaveValues(cleaned: Dict<string>, x: string, i: nat)
    requires i < |cleaned.items| && Decodes(ReplaceEvery, cleaned.items[i], x)
    requires forall j :: i < j < |cleaned.items| ==> !Decodes(ReplaceEvery, cleaned.items[j], x)
    ensures Save(cleaned).descriptionDict.Has(x)
    ensures Save(cleaned).descriptionDict.Get(x) == cleaned.items[i].1
  {
    DecodeIntoLastWins(Dict([]), cleaned.items, ReplaceEvery, x, i);
  }

  /** Entries of other fields, such as `name` and `pandera_schema`, do not affect the saved dictionary. */
  lemma SaveIgnoresOtherFields(cleaned: Dict<string>)
    ensures Save(cleaned).descriptionDict == RebuildDescriptions(Dict(Prefixed(cleaned.items)))
  {
    DecodeOnlyPrefixed(Dict([]), cleaned.items, ReplaceEvery);
  }

  /**
   * Saving an unedited form built from `d` gives back the name, `d` and the
   * schema text, provided no key of `d` contains the prefix text.
   */
  lemma SaveUneditedForm(d: Dict<string>, name: string, schema: string)
    requires d.Valid()
    requires forall k :: d.Has(k) ==> !Contains(k, Prefix)
    ensures Save(Dict([("name", name), ("pandera_schema", schema)] + EncodedData(d.items))) == Schema(Some(name), d, Some(schema))
  {
    var others := [("name", name), ("pandera_schema", schema)];
    var cleaned := Dict(others + EncodedData(d.items));
    ReplaceEveryRoundTrip(d, others);
    assert cleaned.Keys()[0] == "name" && cleaned.Keys()[1] == "pandera_schema";
  }

  /** Why `clean_pandera_schema` fails. */
  datatype CleanError =
    | ValidationError(message: string)  // the text does not parse as JSON
    | NotText                           // no cleaned value: `json.loads(None)` raises a TypeError that is not caught

  /**
   * `clean_pandera_schema`: the cleaned schema text is accepted, unchanged,
   * exactly when it parses as JSON; `isJson` stands for `json.loads` succeeding.
   */
  function CleanPanderaSchema(cleaned: Dict<string>, isJson: string -> bool): (r: Result<string, CleanError>)
    ensures r.Ok? <==> cleaned.Has("pandera_schema") && isJson(cleaned.Get("pandera_schema"))
    ensures r.Ok? ==> r.value == cleaned.Get("pandera_schema")
    ensures cleaned.Has("pandera_schema") && !isJson(cleaned.Get("pandera_schema")) ==>
              r == Err(ValidationError("Invalid JSON format."))
    ensures !cleaned.Has("pandera_schema") ==> r == Err(NotText)
  {
    if !cleaned.Has("pandera_schema") then Err(NotText)
    else
      var panderaSchema := cleaned.Get("pandera_schema");
      if isJson(panderaSchema) then Ok(panderaSchema)
      else Err(ValidationError("Invalid JSON format."))
  }

  /**
   * Django writes the value `clean_pandera_schema` returns back into the
   * cleaned data. An accepted text is returned unchanged, so the write-back
   * leaves the cleaned data as it was, and the saved record holds that text.
   */
  lemma SchemaCheckWriteBackChangesNothing(cleaned: Dict<string>, isJson: string -> bool)
    requires CleanPanderaSchema(cleaned, isJson).Ok?
    ensures cleaned.Put("pandera_schema", CleanPanderaSchema(cleaned, isJson).value) == cleaned
    ensures isJson(Save(cleaned.Put("pandera_schema", CleanPanderaSchema(cleaned, isJson).value)).panderaSchema.value)
  {
    var p := Seqs.IndexOf(cleaned.Keys(), "pandera_schema");
    assert cleaned.items[p] == ("pandera_schema", cleaned.Get("pandera_schema"));
    assert cleaned.items[p := cleaned.items[p]] == cleaned.items;
  }
}
