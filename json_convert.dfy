/**
  The offline data-preparation script: it merges crawled JSON files into a JSON Lines file or
  into one object keyed by data kind, flattens the merged object into vector-store entries,
  and splits a JSON array into two halves.

  Files are not modelled: each file is given by how it loads (for the JSON Lines merge:
  cannot be opened, does not decode, or the value `json.load` returns; for the merge by type,
  `None` for a file that does not load), and each written JSON Lines line by the value it
  serialises.
*/
module JsonConvert {
  import opened Common
  import opened Text

  /** A JSON value; an object keeps its keys in insertion order, as a Python dict does.
      A dict cannot repeat a key, so the objects standing for `json.load` results are taken
      to have distinct keys; a `JObj` with a repeated key stands for no Python value. */
  datatype Json =
    | JNull
    | JBool(b: bool)
    | JNum(n: real)
    | JStr(s: string)
    | JArr(items: seq<Json>)
    | JObj(fields: seq<(string, Json)>)

  // ----- merge_json_files_to_jsonl -----

  /** How one input of the JSON Lines merge reads: `open` fails (outside the `try`, so the
      error ends the merge), `json.load` raises a decode error (caught, the file is skipped),
      or the file parses to a value. */
  datatype FileLoad = CannotOpen | Undecodable | Parsed(value: Json)

  /** What the merge has written, and whether it ended on a file that could not be opened
      (the lines written before it stay in the output file). */
  datatype JsonlRun = JsonlRun(lines: seq<Json>, aborted: bool)

  /** The lines one file contributes: one per element of an array, the object itself for an
      object, nothing for any other value or for a file that cannot be read. */
  function FileLines(data: FileLoad): seq<Json>
  {
    match data
    case Parsed(JArr(entries)) => entries
    case Parsed(JObj(fields)) => [JObj(fields)]
    case _ => []
  }

  /** The merge over `files`, file after file, stopping at the first file that cannot be
      opened. */
  function Jsonl(files: seq<FileLoad>): JsonlRun
    decreases |files|
  {
    if files == [] then JsonlRun([], false)
    else
      var before := Jsonl(files[..|files| - 1]);
      var last := files[|files| - 1];
      if before.aborted then before
      else if last.CannotOpen? then JsonlRun(before.lines, true)
      else JsonlRun(before.lines + FileLines(last), false)
  }

  /** `merge_json_files_to_jsonl`: one pass over the files, one write per line; `aborted`
      is the `FileNotFoundError` (or other `open` error) that ends it. */
  method MergeToJsonl(files: seq<FileLoad>) returns (lines: seq<Json>, aborted: bool)
    ensures JsonlRun(lines, aborted) == Jsonl(files)
  {
    lines := [];
    aborted := false;
    var i := 0;
    while i < |files|
      invariant 0 <= i <= |files|
      invariant Jsonl(files[..i]) == JsonlRun(lines, false)
    {
      assert files[..i + 1][..i] == files[..i];
      var data := files[i];
      match data {
        case CannotOpen =>
          aborted := true;
          JsonlStopsAtAbort(files[..i + 1], files[i + 1..]);
          assert files[..i + 1] + files[i + 1..] == files;
          return;
        case Undecodable =>
        case Parsed(value) =>
          match value {
            case JArr(entries) =>
              ghost var before := lines;
              var j := 0;
              while j < |entries|
                invariant 0 <= j <= |entries|
                invariant lines == before + entries[..j]
              {
                assert entries[..j + 1] == entries[..j] + [entries[j]];
                lines := lines + [entries[j]];
                j := j + 1;
              }
              assert entries[..|entries|] == entries;
            case JObj(fields) =>
              lines := lines + [JObj(fields)];
            case _ =>
          }
      }
      i := i + 1;
    }
    assert files[..|files|] == files;
  }

  /** Once a file cannot be opened, nothing after it is written. */
  lemma {:induction false} JsonlStopsAtAbort(a: seq<FileLoad>, b: seq<FileLoad>)
    requires Jsonl(a).aborted
    ensures Jsonl(a + b) == Jsonl(a)
    decreases |b|
  {
    if b == [] {
      assert a + b == a;
    } else {
      var b' := b[..|b| - 1];
      assert (a + b)[..|a + b| - 1] == a + b';
      JsonlStopsAtAbort(a, b');
    }
  }

  /** Several files write their lines one file after another, up to the first file that
      cannot be opened. */
  lemma {:induction false} JsonlAppend(a: seq<FileLoad>, b: seq<FileLoad>)
    ensures Jsonl(a + b) ==
      if Jsonl(a).aborted then Jsonl(a) else JsonlRun(Jsonl(a).lines + Jsonl(b).lines, Jsonl(b).aborted)
    decreases |b|
  {
    if Jsonl(a).aborted {
      JsonlStopsAtAbort(a, b);
    } else if b == [] {
      assert a + b == a;
    } else {
      var b' := b[..|b| - 1];
      assert (a + b)[..|a + b| - 1] == a + b';
      assert (a + b)[|a + b| - 1] == b[|b| - 1];
      JsonlAppend(a, b');
      AppendAssoc(Jsonl(a).lines, Jsonl(b').lines, FileLines(b[|b| - 1]));
    }
  }

  /** The merge aborts exactly when some file cannot be opened; it then holds the lines of
      the files before the first such file, and otherwise the lines of every file. */
  lemma {:induction false} JsonlAbortsIff(files: seq<FileLoad>)
    ensures Jsonl(files).aborted <==> exists k :: 0 <= k < |files| && files[k].CannotOpen?
    ensures forall k :: 0 <= k < |files| && files[k].CannotOpen? && (forall j :: 0 <= j < k ==> !files[j].CannotOpen?) ==>
      Jsonl(files) == JsonlRun(Jsonl(files[..k]).lines, true) && !Jsonl(files[..k]).aborted
    decreases |files|
  {
    if files != [] {
      var init := files[..|files| - 1];
      var n := |files| - 1;
      JsonlAbortsIff(init);
      forall k | 0 <= k < n ensures files[k] == init[k] { }
      forall k | 0 <= k < |files| && files[k].CannotOpen? && (forall j :: 0 <= j < k ==> !files[j].CannotOpen?)
        ensures Jsonl(files) == JsonlRun(Jsonl(files[..k]).lines, true) && !Jsonl(files[..k]).aborted
      {
        if k < n {
          assert init[..k] == files[..k];
        } else {
          assert files[..k] == init;
          assert !Jsonl(init).aborted;
        }
      }
    }
  }

  /** A single file: it ends the merge when it cannot be opened; otherwise it writes one line
      per array element, one line for an object, and nothing for any other value or an
      undecodable file. */
  lemma JsonlOneFile(data: FileLoad)
    ensures Jsonl([data]).aborted <==> data.CannotOpen?
    ensures data.Parsed? && data.value.JArr? ==> Jsonl([data]).lines == data.value.items
    ensures data.Parsed? && data.value.JObj? ==> Jsonl([data]).lines == [data.value]
    ensures !data.Parsed? || !(data.value.JArr? || data.value.JObj?) ==> Jsonl([data]).lines == []
  {
    assert [data][..0] == [];
  }

  // ----- merge_json_files_by_type -----

  const MergeArityMessage: string := "json_file_list에는 정확히 3개의 경로(courses, reviews, subjects)를 포함해야 합니다."

  /** The keys of the merged object, by file position. */
  const MergedKeys: seq<string> := ["courses", "reviews", "subjects"]

  /** Why a merge by type fails: the list does not hold three paths (the `ValueError`), or
      the file at `index` could not be opened or parsed (the files are read in order, so it
      is the first such file). */
  datatype MergeError = WrongCount(message: string) | LoadFails(index: nat)

  /** `merge_json_files_by_type` up to the dump: the count check, the three loads (`None` for
      a file that does not load), then `merged = {...}`. */
  function MergeByType(files: seq<Option<Json>>): Result<Json, MergeError>
  {
    if |files| != 3 then Err(WrongCount(MergeArityMessage))
    else if files[0].None? then Err(LoadFails(0))
    else if files[1].None? then Err(LoadFails(1))
    else if files[2].None? then Err(LoadFails(2))
    else Ok(JObj([(MergedKeys[0], files[0].value), (MergedKeys[1], files[1].value), (MergedKeys[2], files[2].value)]))
  }

  /** The value of the first field named `key`. */
  function Lookup(fields: seq<(string, Json)>, key: string): Option<Json>
    decreases |fields|
  {
    if fields == [] then None
    else if fields[0].0 == key then Some(fields[0].1)
    else Lookup(fields[1..], key)
  }

  /** Exactly three files are accepted; the merge fails at the first file that does not
      load; otherwise the k-th file's content is found under the k-th of courses, reviews,
      subjects, and nothing else is in the object. */
  lemma MergeByTypeSpec(files: seq<Option<Json>>)
    ensures MergeByType(files) == Err(WrongCount(MergeArityMessage)) <==> |files| != 3
    ensures forall k: nat :: MergeByType(files) == Err(LoadFails(k)) <==>
      |files| == 3 && k < 3 && files[k].None? && forall j :: 0 <= j < k ==> files[j].Some?
    ensures MergeByType(files).Ok? <==> |files| == 3 && forall k :: 0 <= k < 3 ==> files[k].Some?
    ensures MergeByType(files).Ok? ==>
      MergeByType(files).value.JObj?
      && |MergeByType(files).value.fields| == 3
      && forall k :: 0 <= k < 3 ==> Lookup(MergeByType(files).value.fields, MergedKeys[k]) == files[k]
  {
    if MergeByType(files).Ok? {
      var fields := MergeByType(files).value.fields;
      assert MergedKeys[0][0] == 'c' && MergedKeys[1][0] == 'r' && MergedKeys[2][0] == 's';
      assert fields[1..] == [(MergedKeys[1], files[1].value), (MergedKeys[2], files[2].value)];
      assert fields[1..][1..] == [(MergedKeys[2], files[2].value)];
      assert Lookup(fields, MergedKeys[0]) == files[0];
      assert Lookup(fields, MergedKeys[1]) == files[1];
      assert Lookup(fields[1..][1..], MergedKeys[2]) == files[2];
      assert Lookup(fields, MergedKeys[2]) == files[2];
    }
  }

  /** The file paths the script passes to the merge functions, in its order. */
  const ScriptFileList: seq<string> :=
    ["./otl_crawl/coursesData.json", "./otl_crawl/subjectData.json", "./otl_crawl/reviewData.json"]

  /** The crawled data file holding each kind: courses, reviews and subjects. */
  function DataFileFor(key: string): string
  {
    if key == "courses" then "./otl_crawl/coursesData.json"
    else if key == "reviews" then "./otl_crawl/reviewData.json"
    else if key == "subjects" then "./otl_crawl/subjectData.json"
    else ""
  }

  /** Loading each path: its parsed content when `disk` holds the file, `None` otherwise. */
  function LoadFiles(paths: seq<string>, disk: map<string, Json>): seq<Option<Json>>
  {
    seq(|paths|, k requires 0 <= k < |paths| => if paths[k] in disk then Some(disk[paths[k]]) else None)
  }

  /** Merging the script's list stores the subject file under "reviews" and the review file
      under "subjects", so whenever the two files differ the merged "reviews" are not the
      reviews. */
  lemma ScriptFileListMislabels(disk: map<string, Json>)
    requires forall k :: 0 <= k < 3 ==> DataFileFor(MergedKeys[k]) in disk
    ensures var m := MergeByType(LoadFiles(ScriptFileList, disk));
      m.Ok?
      && Lookup(m.value.fields, "reviews") == Some(disk[DataFileFor("subjects")])
      && Lookup(m.value.fields, "subjects") == Some(disk[DataFileFor("reviews")])
      && (disk[DataFileFor("subjects")] != disk[DataFileFor("reviews")] ==>
            Lookup(m.value.fields, "reviews") != Some(disk[DataFileFor("reviews")]))
  {
    var files := LoadFiles(ScriptFileList, disk);
    assert DataFileFor(MergedKeys[0]) == ScriptFileList[0];
    assert DataFileFor(MergedKeys[1]) == ScriptFileList[2];
    assert DataFileFor(MergedKeys[2]) == ScriptFileList[1];
    MergeByTypeSpec(files);
  }

  /** The list in the order the merge function names: courses, reviews, subjects. */
  const CorrectedFileList: seq<string> :=
    ["./otl_crawl/coursesData.json", "./otl_crawl/reviewData.json", "./otl_crawl/subjectData.json"]

  /** The corrected list holds the same paths, and merging it stores each kind's file under
      that kind's own key. */
  lemma CorrectedFileListLabels(disk: map<string, Json>)
    requires forall k :: 0 <= k < 3 ==> DataFileFor(MergedKeys[k]) in disk
    ensures multiset(CorrectedFileList) == multiset(ScriptFileList)
    ensures var m := MergeByType(LoadFiles(CorrectedFileList, disk));
      m.Ok? && forall k :: 0 <= k < 3 ==> Lookup(m.value.fields, MergedKeys[k]) == Some(disk[DataFileFor(MergedKeys[k])])
  {
    var files := LoadFiles(CorrectedFileList, disk);
    assert CorrectedFileList[0] == DataFileFor(MergedKeys[0]);
    assert CorrectedFileList[1] == DataFileFor(MergedKeys[1]);
    assert CorrectedFileList[2] == DataFileFor(MergedKeys[2]);
    assert CorrectedFileList == [ScriptFileList[0]] + [ScriptFileList[2]] + [ScriptFileList[1]];
    MergeByTypeSpec(files);
  }

  // ----- convert_merged_to_vectorstore_format -----

  /** One vector-store record: `{"text": text, "metadata": {"source": source}}`. */
  datatype VsEntry = VsEntry(text: string, source: string)

  /** The `f"{k}: {v}"` parts of the string-valued fields, in field order. */
  function StringParts(fields: seq<(string, Json)>): seq<string>
    decreases |fields|
  {
    if fields == [] then []
    else
      var rest := StringParts(fields[1..]);
      if fields[0].1.JStr? then [fields[0].0 + ": " + fields[0].1.s] + rest else rest
  }

  /** The flattened text of an item. */
  function FlatText(fields: seq<(string, Json)>): string
  {
    Join(StringParts(fields), " | ")
  }

  lemma {:induction false} StringPartsAppend(a: seq<(string, Json)>, b: seq<(string, Json)>)
    ensures StringParts(a + b) == StringParts(a) + StringParts(b)
    decreases |a|
  {
    if a == [] {
      assert a + b == b;
    } else {
      assert (a + b)[0] == a[0] && (a + b)[1..] == a[1..] + b;
      StringPartsAppend(a[1..], b);
    }
  }

  lemma {:induction false} JoinSnoc(parts: seq<string>, p: string, sep: string)
    ensures Join(parts + [p], sep) == if parts == [] then p else Join(parts, sep) + sep + p
    decreases |parts|
  {
    if parts != [] {
      assert (parts + [p])[0] == parts[0] && (parts + [p])[1..] == parts[1..] + [p];
      JoinSnoc(parts[1..], p, sep);
      if |parts| == 1 {
        assert parts[1..] == [];
      }
    }
  }

  /** A field that is not a string leaves the text as it was; a string field `k: v` adds
      its part after a ` | ` separator, or alone when it is the first. */
  lemma FlatTextSpec(fields: seq<(string, Json)>, key: string, value: Json)
    ensures !value.JStr? ==> FlatText(fields + [(key, value)]) == FlatText(fields)
    ensures value.JStr? && StringParts(fields) == [] ==>
      FlatText(fields + [(key, value)]) == key + ": " + value.s
    ensures value.JStr? && StringParts(fields) != [] ==>
      FlatText(fields + [(key, value)]) == FlatText(fields) + " | " + key + ": " + value.s
  {
    StringPartsAppend(fields, [(key, value)]);
    assert [(key, value)][1..] == [];
    if value.JStr? {
      assert StringParts([(key, value)]) == [key + ": " + value.s];
      JoinSnoc(StringParts(fields), key + ": " + value.s, " | ");
      assert FlatText(fields) + " | " + (key + ": " + value.s) == FlatText(fields) + " | " + key + ": " + value.s;
    } else {
      assert StringParts(fields) + [] == StringParts(fields);
    }
  }

  /** What `for item in items` walks over: an array's elements, an object's keys, a
      string's characters; any other value is not iterable. */
  function Iterate(value: Json): Option<seq<Json>>
  {
    match value
    case JArr(xs) => Some(xs)
    case JObj(fs) => Some(seq(|fs|, k requires 0 <= k < |fs| => JStr(fs[k].0)))
    case JStr(s) => Some(seq(|s|, k requires 0 <= k < |s| => JStr([s[k]])))
    case _ => None
  }

  /** The entries of one category, or `None` when an item is not an object. */
  function CategoryEntries(category: string, items: seq<Json>): Option<seq<VsEntry>>
    decreases |items|
  {
    if items == [] then Some([])
    else
      var item := items[|items| - 1];
      match CategoryEntries(category, items[..|items| - 1])
      case None => None
      case Some(prev) => if item.JObj? then Some(prev + [VsEntry(FlatText(item.fields), category)]) else None
  }

  /** The entries of the categories `fields`, or `None` when the conversion raises. */
  function VsAll(fields: seq<(string, Json)>): Option<seq<VsEntry>>
    decreases |fields|
  {
    if fields == [] then Some([])
    else
      var last := fields[|fields| - 1];
      match VsAll(fields[..|fields| - 1])
      case None => None
      case Some(prev) =>
        match Iterate(last.1)
        case None => None
        case Some(items) =>
          match CategoryEntries(last.0, items)
          case None => None
          case Some(entries) => Some(prev + entries)
  }

  /** The records written for the merged object, or `None` when the conversion raises. */
  function VectorStore(merged: Json): Option<seq<VsEntry>>
  {
    if merged.JObj? then VsAll(merged.fields) else None
  }

  lemma {:induction false} CategoryEntriesNoneExtends(category: string, items: seq<Json>, j: nat)
    requires j <= |items| && CategoryEntries(category, items[..j]).None?
    ensures CategoryEntries(category, items).None?
    decreases |items| - j
  {
    if j < |items| {
      assert items[..j + 1][..j] == items[..j];
      CategoryEntriesNoneExtends(category, items, j + 1);
    } else {
      assert items[..j] == items;
    }
  }

  lemma {:induction false} VsAllNoneExtends(fields: seq<(string, Json)>, i: nat)
    requires i <= |fields| && VsAll(fields[..i]).None?
    ensures VsAll(fields).None?
    decreases |fields| - i
  {
    if i < |fields| {
      assert fields[..i + 1][..i] == fields[..i];
      VsAllNoneExtends(fields, i + 1);
    } else {
      assert fields[..i] == fields;
    }
  }

  /** The inner loop of `convert_merged_to_vectorstore_format` over one category's items:
      one record per item, `None` where an item is not an object and the conversion raises. */
  method ConvertCategory(category: string, items: seq<Json>) returns (entries: Option<seq<VsEntry>>)
    ensures entries == CategoryEntries(category, items)
  {
    var acc: seq<VsEntry> := [];
    var j := 0;
    while j < |items|
      invariant 0 <= j <= |items|
      invariant CategoryEntries(category, items[..j]) == Some(acc)
    {
      assert items[..j + 1][..j] == items[..j] && items[..j + 1][j] == items[j];
      var item := items[j];
      if !item.JObj? {
        CategoryEntriesNoneExtends(category, items, j + 1);
        return None;
      }
      var flatText := Join(StringParts(item.fields), " | ");
      acc := acc + [VsEntry(flatText, category)];
      j := j + 1;
    }
    assert items[..j] == items;
    return Some(acc);
  }

  /** `convert_merged_to_vectorstore_format`: the loop over the categories, appending the
      records of each category's items in turn. */
  method ConvertToVectorStore(merged: Json) returns (vsData: Option<seq<VsEntry>>)
    ensures vsData == VectorStore(merged)
  {
    if !merged.JObj? {
      return None;
    }
    var fields := merged.fields;
    var acc: seq<VsEntry> := [];
    var i := 0;
    while i < |fields|
      invariant 0 <= i <= |fields|
      invariant VsAll(fields[..i]) == Some(acc)
    {
      assert fields[..i + 1][..i] == fields[..i] && fields[..i + 1][i] == fields[i];
      var iterated := Iterate(fields[i].1);
      if iterated.None? {
        VsAllNoneExtends(fields, i + 1);
        return None;
      }
      var entries := ConvertCategory(fields[i].0, iterated.value);
      if entries.None? {
        VsAllNoneExtends(fields, i + 1);
        return None;
      }
      acc := acc + entries.value;
      i := i + 1;
    }
    assert fields[..i] == fields;
    return Some(acc);
  }

  /** Each item of a category is converted in place: the k-th record is the k-th item's
      text with the category as source; the category converts exactly when all its items
      are objects. */
  lemma {:induction false} CategoryEntriesSpec(category: string, items: seq<Json>)
    ensures CategoryEntries(category, items).Some? <==> forall k :: 0 <= k < |items| ==> items[k].JObj?
    ensures CategoryEntries(category, items).Some? ==>
      var es := CategoryEntries(category, items).value;
      |es| == |items| && forall k :: 0 <= k < |items| ==> es[k] == VsEntry(FlatText(items[k].fields), category)
    decreases |items|
  {
    if items != [] {
      var init := items[..|items| - 1];
      CategoryEntriesSpec(category, init);
      assert forall k :: 0 <= k < |init| ==> init[k] == items[k];
    }
  }

  /** A category whose items are all objects. */
  predicate Convertible(category: (string, Json))
  {
    Iterate(category.1).Some? && forall k :: 0 <= k < |Iterate(category.1).value| ==> Iterate(category.1).value[k].JObj?
  }

  /** The number of items of a convertible list of categories. */
  function ItemCount(fields: seq<(string, Json)>): nat
    requires forall i :: 0 <= i < |fields| ==> Convertible(fields[i])
    decreases |fields|
  {
    if fields == [] then 0
    else
      assert Convertible(fields[|fields| - 1]);
      ItemCount(fields[..|fields| - 1]) + |Iterate(fields[|fields| - 1].1).value|
  }

  /** The conversion succeeds exactly when every category iterates to objects only; it then
      writes one record per item, and every record's source is a category name. */
  lemma VsAllSpec(fields: seq<(string, Json)>)
    ensures VsAll(fields).Some? <==> forall i :: 0 <= i < |fields| ==> Convertible(fields[i])
    ensures VsAll(fields).Some? ==> |VsAll(fields).value| == ItemCount(fields)
    ensures VsAll(fields).Some? ==>
      forall e :: e in VsAll(fields).value ==> exists i :: 0 <= i < |fields| && fields[i].0 == e.source
  {
    VsAllSomeIff(fields);
    if VsAll(fields).Some? {
      VsAllCount(fields);
      VsAllSources(fields);
    }
  }

  lemma {:induction false} VsAllSomeIff(fields: seq<(string, Json)>)
    ensures VsAll(fields).Some? <==> forall i :: 0 <= i < |fields| ==> Convertible(fields[i])
    decreases |fields|
  {
    if fields != [] {
      var init, last := fields[..|fields| - 1], fields[|fields| - 1];
      VsAllSomeIff(init);
      assert forall i :: 0 <= i < |init| ==> init[i] == fields[i];
      if Iterate(last.1).Some? {
        CategoryEntriesSpec(last.0, Iterate(last.1).value);
      }
    }
  }

  lemma {:induction false} VsAllCount(fields: seq<(string, Json)>)
    requires forall i :: 0 <= i < |fields| ==> Convertible(fields[i])
    ensures VsAll(fields).Some? && |VsAll(fields).value| == ItemCount(fields)
    decreases |fields|
  {
    VsAllSomeIff(fields);
    if fields != [] {
      var init, last := fields[..|fields| - 1], fields[|fields| - 1];
      assert forall i :: 0 <= i < |init| ==> init[i] == fields[i];
      VsAllCount(init);
      assert Convertible(last);
      CategoryEntriesSpec(last.0, Iterate(last.1).value);
    }
  }

  lemma {:induction false} VsAllSources(fields: seq<(string, Json)>)
    requires VsAll(fields).Some?
    ensures forall e :: e in VsAll(fields).value ==> exists i :: 0 <= i < |fields| && fields[i].0 == e.source
    decreases |fields|
  {
    if fields != [] {
      var init, last := fields[..|fields| - 1], fields[|fields| - 1];
      var prev := VsAll(init).value;
      VsAllSources(init);
      var items := Iterate(last.1).value;
      CategoryEntriesSpec(last.0, items);
      var entries := CategoryEntries(last.0, items).value;
      assert VsAll(fields).value == prev + entries;
      forall e | e in VsAll(fields).value
        ensures exists i :: 0 <= i < |fields| && fields[i].0 == e.source
      {
        if e in prev {
          var i :| 0 <= i < |init| && init[i].0 == e.source;
          assert fields[i].0 == e.source;
        } else {
          var k :| 0 <= k < |entries| && entries[k] == e;
          assert fields[|fields| - 1].0 == e.source;
        }
      }
    }
  }

  /** The conversion of a merged object built by `MergeByType`: its three categories, in the
      order courses, reviews, subjects. */
  lemma VectorStoreOfMerged(files: seq<Option<Json>>)
    requires MergeByType(files).Ok?
    ensures |files| == 3 && files[0].Some? && files[1].Some? && files[2].Some?
    ensures VectorStore(MergeByType(files).value)
      == VsAll([("courses", files[0].value), ("reviews", files[1].value), ("subjects", files[2].value)])
  {
    MergeByTypeSpec(files);
  }

  // ----- split_json_file_in_half -----

  const NotAListMessage: string := "입력 파일은 JSON 배열이어야 합니다."

  /** `split_json_file_in_half`: the two halves of an array, the first rounded down. */
  function SplitInHalf(data: Json): Result<(seq<Json>, seq<Json>), string>
  {
    if !data.JArr? then Err(NotAListMessage)
    else
      var mid := |data.items| / 2;
      Ok((data.items[..mid], data.items[mid..]))
  }

  /** Only arrays are split; the halves put back together give the array, the first has
      half the length rounded down and the second at most one more. */
  lemma SplitInHalfSpec(data: Json)
    ensures SplitInHalf(data).Err? <==> !data.JArr?
    ensures SplitInHalf(data).Ok? ==>
      var (part1, part2) := SplitInHalf(data).value;
      part1 + part2 == data.items
      && |part1| == |data.items| / 2
      && |part1| <= |part2| <= |part1| + 1
  {
    if data.JArr? {
      var mid := |data.items| / 2;
      assert data.items[..mid] + data.items[mid..] == data.items;
    }
  }
}
