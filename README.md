# Schema mapper: mapping-plan builder and schema edit form

This project models the two pieces of sequential logic in the `mapper`
application of the data-mapping tool:

- **The initial mapping plan** (`mapper/helpers.py`). `inital_data_mapping_plan`
  walks the uploaded files in order, and each file's column headers in order,
  and records, for every column name the first time it is seen, the sentence
  "This column will be generated from the '<column>' field in the '<file>'
  file.". The first file that has a column wins; later files never overwrite
  it. The description dictionary it is given plays no part. The placeholder
  `generate_description_dict` maps every column of the example table to
  "Description for <column>".
- **The schema edit form** (`mapper/forms.py`, `EditSchemaForm`). Its
  constructor picks the description dictionary either from `initial` (removing
  it from there) or from a `description_dict` keyword argument. It then adds one
  text field per key, named `description_dict_<key>`, with the description as
  initial value and the key as label. It records the field names in
  `description_fields` and appends them to `_meta.fields`. `save` rebuilds the
  dictionary from the cleaned data. It keeps only the entries whose name starts
  with `description_dict_` and decodes each name with
  `key.replace('description_dict_', '')`. The same comprehension appears again,
  over the posted data, in `mapper/views.py:123`. `clean_pandera_schema`
  accepts the schema text unchanged exactly when it parses as JSON.

Python dictionaries are modelled as `Dicts.Dict`, an insertion-ordered list of
entries: assigning to a present key keeps its place, assigning to a new key
appends it. An uploaded file is its stored name plus the header row reading it
as CSV yields (`MappingPlan.UploadedFile`). Whether a text is valid JSON is a
predicate the caller supplies (`isJson`).

`inital_data_mapping_plan` fills its dictionary in nested loops, so it is an
imperative method (`MappingPlan.InitialDataMappingPlan`) proved equal to a
specification function, `MappingPlan.PlanSpec`; the properties are lemmas about
that function. The form is a class whose constructor runs the field loop, and
`_meta` is a separate `FormOptions` object. `_meta` belongs to the form class,
not to an instance, so every form built extends the same list:
`SchemaForm.BuildTwice` shows the second form's names landing after the
first's. The comprehensions in `save` and `generate_description_dict` and the
JSON check are functions.

Beyond these, the mapper app has no language-model planning or code
generation, and no validation of data tables against the schema.
`generate_pandera_schema` and `execute_mapping_plan` (mapper/helpers.py:30-37)
are placeholder wrappers over library calls and are not modelled.

## Model

| member | source | states |
|---|---|---|
| `MappingPlan.InitialDataMappingPlan` | mapper/helpers.py:7-22 | The nested loops build exactly `PlanSpec(files)`, whatever the description dictionary is. The result has distinct keys, its keys are exactly the headers of all files, and each key's value is the provenance sentence naming that column and the first file that has it. |
| `MappingPlan.Provenance` | mapper/helpers.py:20 | The sentence is the fixed opening, the column, the fixed middle, the file name and the fixed closing, in that order, with nothing else: each part sits at the position its predecessors' lengths give. |
| `MappingPlan.AddColumn` | mapper/helpers.py:19-20 | One inner-loop step: afterwards the column is present. If it was already present the dictionary is unchanged, otherwise exactly one entry (the column with this file's sentence) is appended. Distinct keys stay distinct. |
| `MappingPlan.AddHeaders` | mapper/helpers.py:17-20 | One file's inner loop only appends entries and keeps keys distinct. Afterwards a key is present exactly when it was present before or is one of this file's headers. |
| `MappingPlan.PlanSpec` | mapper/helpers.py:9-22 | The dictionary the nested loops build has distinct keys, and a key is present exactly when it is a header of some file. |
| `MappingPlan.PlanKeys` | mapper/helpers.py:12-20 | The plan's keys come in first-appearance order, file by file then header by header: they are the deduplication of the concatenated headers. |
| `MappingPlan.PlanValues` | mapper/helpers.py:19-20 | Every column's value is `Provenance(column, name of the first file in list order whose headers contain it)`. |
| `MappingPlan.FirstOwner` | mapper/helpers.py:12-20 | The reference for "first file that has the column": a file containing it, with no earlier file containing it. |
| `MappingPlan.AddHeadersNewValues` | mapper/helpers.py:17-20 | After one file's inner loop, every header that was not yet a key carries this file's sentence. |
| `MappingPlan.AddHeadersKeys` | mapper/helpers.py:17-20 | The inner loop extends the key list the same way deduplicating all headers seen so far would. |
| `MappingPlan.LaterFilesNeverOverwrite` | mapper/helpers.py:19-20 | Adding more files only appends entries. What earlier files put in the plan keeps its value and place. |
| `MappingPlan.PlanSize` | mapper/helpers.py:17-20 | The plan has at most as many entries as there are headers over all files. |
| `MappingPlan.PlanEmpty` | mapper/helpers.py:9-22 | No files, or only files without columns, give an empty plan. |
| `MappingPlan.PlanOrder` | mapper/helpers.py:12-20 | If key i comes before key j, key i first appears earlier among the concatenated headers. |
| `MappingPlan.GenerateDescriptionDict` | mapper/helpers.py:25-28 | Keys: the columns, once each, in first-occurrence order. Every value is "Description for " followed by the column. |
| `SchemaForm.ChooseDescriptions` | mapper/forms.py:33-39 | With a non-empty `initial`, its `description_dict` (default empty) is used and removed from the `initial` passed on. A `description_dict` keyword argument left in `kwargs` then fails the base constructor. Otherwise the keyword argument is used (default empty) and nothing is left over. |
| `SchemaForm.ViewConstructionsPickTheirDictionary` | mapper/views.py:110-124 | Both ways the views build the form (through `initial` when creating, through the keyword argument when saving) succeed and use the dictionary they pass. |
| `SchemaForm.FormOptions.constructor` | mapper/forms.py:29-31 | `_meta.fields` starts as `['name', 'pandera_schema']`. |
| `SchemaForm.EditSchemaForm.constructor` | mapper/forms.py:33-55 | The fields are the two base fields, then one field per key in dictionary order, named by the prefixed key, with the description as initial value and the key as label. `description_fields` starts empty and ends as exactly those names. `_meta.fields` is its old contents with those names appended. The form's `initial` is the one passed on, with a non-empty `pandera_schema` replaced by its re-indented text. |
| `SchemaForm.FormFields` | mapper/forms.py:45-48 | A form built from a dictionary has no two fields with the same name (nor one named like a base field), and each key has exactly one field with its description and its label. |
| `SchemaForm.NextFieldIsNew` | mapper/forms.py:45-47 | In the loop, the next key's field name is not yet among the form's fields, so assigning it adds a field rather than replacing one. |
| `SchemaForm.FieldNameInjective` | mapper/forms.py:46 | Distinct keys give distinct field names, and no field name equals `name` or `pandera_schema`. |
| `SchemaForm.BuildTwice` | mapper/forms.py:51 | Two forms built one after the other both extend the class-level `_meta.fields`: the first form's names, then the second's. |
| `SchemaForm.Save` | mapper/forms.py:57-62 | The saved record takes `name` and `pandera_schema` from the cleaned data. Its description dictionary has distinct keys and no more entries than there are cleaned entries with the prefix. |
| `SchemaForm.RebuildDescriptions` | mapper/forms.py:61-62 | The comprehension (repeated over the posted data in mapper/views.py:123) yields a dictionary with distinct keys and at most as many entries as it reads. |
| `SchemaForm.SaveKeys` | mapper/forms.py:57-62 | The saved dictionary has a key exactly when some cleaned entry whose name starts with the prefix decodes to it. |
| `SchemaForm.SaveValues` | mapper/forms.py:61-62 | A saved key's value is that of the last cleaned entry decoding to it. |
| `SchemaForm.SaveIgnoresOtherFields` | mapper/forms.py:61-62 | Entries without the prefix, such as `name` and `pandera_schema`, do not affect the saved dictionary. |
| `SchemaForm.DecodeOnlyPrefixed` | mapper/forms.py:61-62 | Decoding the cleaned entries gives the same result as decoding only those that start with the prefix. |
| `SchemaForm.DecodeIntoHas` | mapper/forms.py:61-62 | A decoded key is present exactly when some prefixed entry decodes to it. |
| `SchemaForm.DecodeIntoLastWins` | mapper/forms.py:61-62 | When two entries decode to the same key, the later value wins. |
| `SchemaForm.DecodeIntoAppend` | mapper/forms.py:61-62 | The comprehension over a concatenation is the comprehension over the second part, continued from the first. |
| `SchemaForm.DecodeEncodedStep` | mapper/forms.py:45-48 | One loop step of the round trip: if the previous keys decode back and the next key is new and is recovered from its field name, the extended dictionary decodes back too. |
| `SchemaForm.DecodeEncoded` | mapper/forms.py:46 | Decoding the encoded entries of a dictionary gives it back, for any decoding that recovers each key from its field name. |
| `SchemaForm.Replace` | mapper/forms.py:61 | `str.replace` with an empty replacement never lengthens a string, and shortens it when the pattern occurs in it. |
| `SchemaForm.ReplaceAbsent` | mapper/forms.py:61 | `replace` leaves a string in which the pattern does not occur unchanged. |
| `SchemaForm.ReplaceLeading` | mapper/forms.py:61 | `replace` removes a leading occurrence and scans on after it. |
| `SchemaForm.ReplaceEveryDecodesField` | mapper/forms.py:46-61 | A key that does not contain `description_dict_` comes back from its field name through `replace`. |
| `SchemaForm.ReplaceEveryRoundTrip` | mapper/forms.py:46-62 | Encoding then saving gives back the dictionary, provided no key contains `description_dict_` and no other field name starts with it. |
| `SchemaForm.SaveUneditedForm` | mapper/forms.py:57-62 | Saving the unedited data of a form built from `d` (name, schema text, one entry per description field) gives back the name, `d` and the schema text, under the same condition on the keys. |
| `SchemaForm.ReplaceEveryStripsRepeatedPrefix` | mapper/forms.py:61 | `replace` strips the prefix twice from the field name of a key that itself starts with the prefix, so `description_dict_x` and `x` decode alike. |
| `SchemaForm.ReplaceEveryMergesKeys` | mapper/forms.py:61 | Without that condition the round trip fails. The keys `x` and `description_dict_x` are saved as one key `x` holding the later value. |
| `SchemaForm.ReplaceEveryAltersInnerOccurrence` | mapper/forms.py:61 | The field for key `a_description_dict_b` decodes to `a_b`: an occurrence of the prefix text inside a key is removed too. |
| `SchemaForm.ReplaceEveryAltersEveryContainingKey` | mapper/forms.py:46-61 | Every key that contains `description_dict_` anywhere decodes to something other than itself: the field of such a key never comes back as that key, which is why `ReplaceEveryRoundTrip` excludes such keys. |
| `SchemaForm.StripLeadingRoundTrip` | mapper/forms.py:61-62 | If only the leading prefix is stripped, encoding then decoding gives back every dictionary, with no condition on its keys. |
| `SchemaForm.CleanPanderaSchema` | mapper/forms.py:75-82 | The result is accepted exactly when the cleaned schema text parses as JSON, and then it is that text unchanged. Text that does not parse fails with 'Invalid JSON format.'. A missing value fails outside the validation-error path. |
| `SchemaForm.SchemaCheckWriteBackChangesNothing` | mapper/forms.py:57-82 | When the check accepts, writing its result back into the cleaned data (as Django does with a `clean_<field>` result) leaves the cleaned data unchanged, and the record saved from it holds schema text that parses as JSON. |

## Left out

- Reading the CSV files with pandas (mapper/helpers.py:14): I/O. A file is its name and header row, and pandas' renaming of duplicate headers is not modelled.
- `generate_pandera_schema` and `execute_mapping_plan` (mapper/helpers.py:30-37): thin wrappers over pandera's schema inference and pandas' concatenation, which are foreign library behaviour.
- JSON parsing is the caller-supplied predicate `isJson`. The re-indenting of `initial['pandera_schema']` in the form constructor (mapper/forms.py:53-55) is the caller-supplied function `reindent`. The JSONDecodeError that `json.loads` raises there on text that is not JSON is not modelled: the create view passes pandera's own JSON output.
- `SchemaForm.EditSchemaForm.constructor`: requires the chosen description dictionary to have distinct keys, as every Python dict does. The TypeError case is stated by `SchemaForm.ChooseDescriptions` and excluded from the constructor, because Python raises it before any field exists.
- The form's own field cleaning, which fills `cleaned_data` (Django): `save` is modelled on the cleaned data it is given, with the base fields first and then the description fields in form order.
- `save(commit=True)` persisting the record, `UploadFileForm`, the views, URL routing and the ORM models: request handling and storage with no logic beyond what is modelled. The decoding duplicated in mapper/views.py:123 is the same comprehension as `SchemaForm.RebuildDescriptions`.
- `SchemaForm.Save`: total. `super().save(commit=False)` (mapper/forms.py:58) raises ValueError when the form has errors, and that path is not modelled, because it is Django's check of its own validation state.
- `SchemaForm.SaveUneditedForm`, `SchemaForm.ReplaceEveryRoundTrip`: Django's CharField strips surrounding whitespace and is required by default, so unedited data comes back unchanged only for non-empty descriptions without surrounding whitespace. The model takes the cleaned values as given.
- `SchemaForm.ChooseDescriptions`: `initial` arrives split into its `description_dict` entry and the others (`SchemaForm.Split`), so the others never hold that key, as at every call site. `inital.pop` (mapper/forms.py:36) removes `description_dict` from the caller's own dictionary. The model returns the remaining `initial` as a new value, so that aliasing is not captured.

## Findings

| source | as written | input that shows it | evidently intended | confidence | as-written member | corrected member |
|---|---|---|---|---|---|---|
| mapper/forms.py:61 | `key.replace('description_dict_', '')` removes every occurrence of the prefix text, not only the leading prefix that `__init__` added | `EditSchemaForm.save` on the unedited cleaned data of a form built from `{"x": "1", "description_dict_x": "2"}` saves `{"x": "2"}`, and a form built from key `a_description_dict_b` saves key `a_b`. Through the `save_schema` view (mapper/views.py:123-124), the first POST decodes to `{"x": "2"}`, the form is rebuilt with the single field `description_dict_x` bound to the posted "1", and `{"x": "1"}` is stored; for the second, the rebuilt form expects field `description_dict_a_b`, which is not posted, so the required-field error stops the save | strip only the leading prefix (`removeprefix`), so that saving an unedited form returns its dictionary | medium, not executed | `SchemaForm.ReplaceEveryMergesKeys` | `SchemaForm.StripLeadingRoundTrip` |
