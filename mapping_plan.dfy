/**
 * The initial mapping plan and the placeholder description dictionary
 * (mapper/helpers.py). An uploaded file is abstracted to its stored name and
 * the header row that reading it as CSV yields.
 */
module MappingPlan {
  import opened Seqs
  import opened Dicts

  datatype UploadedFile = UploadedFile(name: string, headers: seq<string>)

  const ProvenanceOpening: string := "This column will be generated from the '"
  const ProvenanceMiddle: string := "' field in the '"
  const ProvenanceClosing: string := "' file."

  /**
   * The fixed provenance sentence recorded for a column first seen in the
   * named file: the column is quoted right after the fixed opening and the
   * file name right before the fixed closing, so both can be read back.
   */
  function Provenance(column: string, fileName: string): (r: string)
    ensures |r| == |ProvenanceOpening| + |column| + |ProvenanceMiddle| + |fileName| + |ProvenanceClosing|
    ensures r[..|ProvenanceOpening|] == ProvenanceOpening
    ensures r[|ProvenanceOpening|..|ProvenanceOpening| + |column|] == column
    ensures r[|ProvenanceOpening| + |column|..|ProvenanceOpening| + |column| + |ProvenanceMiddle|] == ProvenanceMiddle
    ensures r[|r| - |ProvenanceClosing| - |fileName|..|r| - |ProvenanceClosing|] == fileName
    ensures r[|r| - |ProvenanceClosing|..] == ProvenanceClosing
  {
    ProvenanceOpening + column + ProvenanceMiddle + fileName + ProvenanceClosing
  }

  /** All header names of all files, file by file, in header order. */
  function Flatten(files: seq<UploadedFile>): seq<string> {
    if files == [] then []
    else Flatten(files[..|files| - 1]) + files[|files| - 1].headers
  }

  lemma {:induction false} FlattenHas(files: seq<UploadedFile>, c: string)
    ensures c in Flatten(files) <==> exists i :: 0 <= i < |files| && c in files[i].headers
  {
    if files != [] {
      var init := files[..|files| - 1];
      FlattenHas(init, c);
      assert forall i :: 0 <= i < |init| ==> init[i] == files[i];
    }
  }

  /** The position of the first file, in list order, whose headers contain `c`. */
  function FirstOwner(files: seq<UploadedFile>, c: string): (i: nat)
    requires c in Flatten(files)
    ensures i < |files| && c in files[i].headers
    ensures forall j :: 0 <= j < i ==> c !in files[j].headers
  {
    var init := files[..|files| - 1];
    if c in Flatten(init) then
      FirstOwner(init, c)
    else
      FlattenHas(init, c);
      |files| - 1
  }

  /**
   * One step of the inner loop: a column already present is left as it is;
   * a new one is appended with this file's sentence.
   */
  function AddColumn(d: Dict<string>, fileName: string, column: string): (r: Dict<string>)
    ensures r.Has(column)
    ensures d.Has(column) ==> r == d
    ensures !d.Has(column) ==> r.items == d.items + [(column, Provenance(column, fileName))]
    ensures d.Valid() ==> r.Valid()
  {
    if d.Has(column) then d else d.Put(column, Provenance(column, fileName))
  }

  /**
   * The inner loop over one file's headers: it only appends entries, keeps a
   * dict valid, and afterwards the keys are the old keys and the headers.
   */
  function AddHeaders(d: Dict<string>, fileName: string, headers: seq<string>): (r: Dict<string>)
    ensures d.items <= r.items
    ensures d.Valid() ==> r.Valid()
    ensures forall c :: r.Has(c) <==> d.Has(c) || c in headers
    decreases |headers|
  {
    if headers == [] then d
    else
      var init := headers[..|headers| - 1];
      assert headers == init + [headers[|headers| - 1]];
      AddColumn(AddHeaders(d, fileName, init), fileName, headers[|headers| - 1])
  }

  /**
   * The dictionary the nested loops build for the files in order: a valid
   * dict whose keys are exactly the headers of all files.
   */
  function PlanSpec(files: seq<UploadedFile>): (r: Dict<string>)
    ensures r.Valid()
    ensures forall c :: r.Has(c) <==> c in Flatten(files)
  {
    if files == [] then Dict([])
    else
      var f := files[|files| - 1];
      AddHeaders(PlanSpec(files[..|files| - 1]), f.name, f.headers)
  }

  /** After one file's inner loop, a key that was new carries this file's provenance sentence. */
  lemma {:induction false} AddHeadersNewValues(d: Dict<string>, fileName: string, headers: seq<string>)
    ensures forall c :: !d.Has(c) && c in headers ==>
              AddHeaders(d, fileName, headers).Get(c) == Provenance(c, fileName)
    decreases |headers|
  {
    if headers != [] {
      var init, c := headers[..|headers| - 1], headers[|headers| - 1];
      assert headers == init + [c];
      AddHeadersNewValues(d, fileName, init);
      var p := AddHeaders(d, fileName, init);
      forall x | !d.Has(x) && x in headers
        ensures AddHeaders(d, fileName, headers).Get(x) == Provenance(x, fileName)
      {
        if x != c && p.Has(x) && !p.Has(c) {
          PrefixKeepsEntries(p, p.Put(c, Provenance(c, fileName)), x);
        }
      }
    }
  }

  /** The inner loop extends the key list exactly as deduplicating the headers seen so far would. */
  lemma {:induction false} AddHeadersKeys(d: Dict<string>, seen: seq<string>, fileName: string, headers: seq<string>)
    requires d.Keys() == Dedup(seen)
    ensures AddHeaders(d, fileName, headers).Keys() == Dedup(seen + headers)
    decreases |headers|
  {
    if headers != [] {
      var init, c := headers[..|headers| - 1], headers[|headers| - 1];
      assert seen + headers == (seen + init) + [c];
      AddHeadersKeys(d, seen, fileName, init);
      DedupAppend(seen + init, c);
      DedupHas(seen + init, c);
      assert AddHeaders(d, fileName, headers) == AddColumn(AddHeaders(d, fileName, init), fileName, c);
    } else {
      assert seen + headers == seen;
    }
  }

  /**
   * The keys of the plan come in order of first appearance, file by file and
   * header by header: they are the deduplicated concatenation of all headers.
   */
  lemma {:induction false} PlanKeys(files: seq<UploadedFile>)
    ensures PlanSpec(files).Keys() == Dedup(Flatten(files))
  {
    if files != [] {
      var init, f := files[..|files| - 1], files[|files| - 1];
      PlanKeys(init);
      AddHeadersNewValues(PlanSpec(init), f.name, f.headers);
      AddHeadersKeys(PlanSpec(init), Flatten(init), f.name, f.headers);
    }
  }

  /** Every key's value names that column and the first file, in list order, whose headers contain it. */
  lemma {:induction false} PlanValues(files: seq<UploadedFile>, c: string)
    requires c in Flatten(files)
    ensures PlanSpec(files).Has(c)
    ensures PlanSpec(files).Get(c) == Provenance(c, files[FirstOwner(files, c)].name)
  {
    var init, f := files[..|files| - 1], files[|files| - 1];
    PlanKeys(init);
    PlanKeys(files);
    AddHeadersNewValues(PlanSpec(init), f.name, f.headers);
    if c in Flatten(init) {
      PlanValues(init, c);
      PrefixKeepsEntries(PlanSpec(init), PlanSpec(files), c);
    }
  }

  /** Later files never overwrite, reorder or remove what earlier files put in the plan. */
  lemma {:induction false} LaterFilesNeverOverwrite(files: seq<UploadedFile>, more: seq<UploadedFile>)
    ensures PlanSpec(files).items <= PlanSpec(files + more).items
    decreases |more|
  {
    if more != [] {
      var init, f := more[..|more| - 1], more[|more| - 1];
      assert (files + more)[..|files + more| - 1] == files + init;
      assert (files + more)[|files + more| - 1] == f;
      LaterFilesNeverOverwrite(files, init);
      AddHeadersNewValues(PlanSpec(files + init), f.name, f.headers);
      assert PlanSpec(files + more) == AddHeaders(PlanSpec(files + init), f.name, f.headers);
    } else {
      assert files + more == files;
    }
  }

  /** The plan has at most as many entries as there are headers over all files. */
  lemma PlanSize(files: seq<UploadedFile>)
    ensures |PlanSpec(files).items| <= |Flatten(files)|
  {
    PlanKeys(files);
  }

  /** No files, or only files without columns, give an empty plan. */
  lemma {:induction false} PlanEmpty(files: seq<UploadedFile>)
    requires forall i :: 0 <= i < |files| ==> files[i].headers == []
    ensures PlanSpec(files).items == []
  {
    if files != [] {
      PlanEmpty(files[..|files| - 1]);
    }
  }

  /**
   * If key i precedes key j, its first appearance among all headers comes first.
   * The converse follows because the keys are distinct.
   */
  lemma PlanOrder(files: seq<UploadedFile>, i: nat, j: nat)
    requires i < j < |PlanSpec(files).items|
    ensures PlanSpec(files).Keys()[i] in Flatten(files)
    ensures PlanSpec(files).Keys()[j] in Flatten(files)
    ensures IndexOf(Flatten(files), PlanSpec(files).Keys()[i]) < IndexOf(Flatten(files), PlanSpec(files).Keys()[j])
  {
    PlanKeys(files);
    DedupFirstOccurrenceOrder(Flatten(files), i, j);
  }

  /**
   * `inital_data_mapping_plan`: fills the output dictionary in place with one
   * provenance sentence per column, first file first. The description
   * dictionary is accepted and ignored.
   */
  method InitialDataMappingPlan(uploadedFiles: seq<UploadedFile>, descriptionDict: Dict<string>)
    returns (outputDict: Dict<string>)
    ensures outputDict == PlanSpec(uploadedFiles)
    ensures outputDict.Valid()
    ensures forall c :: outputDict.Has(c) <==> c in Flatten(uploadedFiles)
    ensures forall c :: c in Flatten(uploadedFiles) ==>
              outputDict.Get(c) == Provenance(c, uploadedFiles[FirstOwner(uploadedFiles, c)].name)
  {
    outputDict := Dict([]);
    var i := 0;
    while i < |uploadedFiles|
      invariant 0 <= i <= |uploadedFiles|
      invariant outputDict == PlanSpec(uploadedFiles[..i])
    {
      var uploadedFile := uploadedFiles[i];
      var j := 0;
      while j < |uploadedFile.headers|
        invariant 0 <= j <= |uploadedFile.headers|
        invariant outputDict == AddHeaders(PlanSpec(uploadedFiles[..i]), uploadedFile.name, uploadedFile.headers[..j])
      {
        var column := uploadedFile.headers[j];
        assert uploadedFile.headers[..j + 1][..j] == uploadedFile.headers[..j];
        if !outputDict.Has(column) {
          outputDict := outputDict.Put(column, Provenance(column, uploadedFile.name));
        }
        j := j + 1;
      }
      assert uploadedFile.headers[..j] == uploadedFile.headers;
      assert uploadedFiles[..i + 1][..i] == uploadedFiles[..i];
      i := i + 1;
    }
    assert uploadedFiles[..i] == uploadedFiles;
    PlanKeys(uploadedFiles);
    forall c | c in Flatten(uploadedFiles)
      ensures outputDict.Get(c) == Provenance(c, uploadedFiles[FirstOwner(uploadedFiles, c)].name)
    {
      PlanValues(uploadedFiles, c);
    }
  }

  /**
   * `generate_description_dict`: a placeholder description "Description for
   * <column>" for every column of the example table, keys in column order.
   */
  function GenerateDescriptionDict(columns: seq<string>): (d: Dict<string>)
    ensures d.Valid()
    ensures d.Keys() == Dedup(columns)
    ensures forall c :: d.Has(c) <==> c in columns
    ensures forall c :: d.Has(c) ==> d.Get(c) == "Description for " + c
  {
    if columns == [] then Dict([])
    else
      var init, c := columns[..|columns| - 1], columns[|columns| - 1];
      assert columns == init + [c];
      var p := GenerateDescriptionDict(init);
      var r := p.Put(c, "Description for " + c);
      DedupAppend(init, c);
      DedupHas(init, c);
      assert r.Keys() == Dedup(columns);
      r
  }
}
