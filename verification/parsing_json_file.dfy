/** Per-file attribute extraction and the all-or-nothing aggregation over a
    folder. The streaming JSON tokenizer is abstracted: a readable file is an
    array of objects, each a list of (name, value) fields in document order.
    The thread pool is abstracted to the list of per-file outcomes that the
    collection loop visits in submission order. */
module ParsingJsonFile {
  import opened Results
  import opened Decimal
  import opened Tokenizer
  import opened Statistics

  /** A scalar field value as the tokenizer reports it. */
  datatype FieldValue = Text(text: string) | Int(number: int)

  datatype Field = Field(name: string, value: FieldValue)

  type JsonObject = seq<Field>

  /** What opening and reading the first token of a file yields. */
  datatype FileContent =
    | Unreadable
    | NotAnArray
    | ArrayOfObjects(objects: seq<JsonObject>)

  /** An entry of the input folder listing. */
  datatype DirEntry = DirEntry(name: string, content: FileContent)

  /** Why one file yields no table. */
  datatype FileError =
    | ReadFailed        // the file could not be opened or read
    | ExpectedJsonArray // the first token is not the start of an array
    | NotNumeric        // `getIntValue` on a token that is not a number
    | NumberOutOfRange  // `getIntValue` on a number outside the Java int range

  /** Why the whole run yields no table. */
  datatype ReadError =
    | FolderNotFoundOrEmpty       // missing folder, or no `.json` file in it
    | IllegalThreadCount          // a thread pool of fewer than one thread
    | FailedToParse(cause: FileError)

  /** The one field whose value is read as an integer. */
  const YearPublished: string := "year_published"

  const MinInt: int := -0x8000_0000
  const MaxInt: int := 0x7fff_ffff

  /** The text `processAttribute` passes on for an allow-listed field:
      `String.valueOf(getIntValue())` for `year_published`, `getText()` for
      any other field (the literal text of a number token, which for a
      canonical integer literal is its decimal rendering). */
  function FieldText(f: Field): (r: Result<string, FileError>)
    ensures f.name == YearPublished ==>
      (r.Success? <==> f.value.Int? && MinInt <= f.value.number <= MaxInt)
    ensures r.Success? && f.value.Int? ==> r.value == IntToDecimal(f.value.number)
    ensures f.name != YearPublished ==> r.Success?
    ensures f.name != YearPublished && f.value.Text? ==> r.value == f.value.text
  {
    if f.name == YearPublished then
      match f.value
      case Int(i) => if MinInt <= i <= MaxInt then Success(IntToDecimal(i)) else Failure(NumberOutOfRange)
      case Text(_) => Failure(NotNumeric)
    else
      match f.value
      case Text(s) => Success(s)
      case Int(i) => Success(IntToDecimal(i))
  }

  /** `processAttribute`: a field outside the allow-list contributes nothing;
      an allow-listed one has its text recorded under its own name. */
  function ProcessAttribute(t: Table, f: Field, allow: seq<string>): (r: Result<Table, FileError>)
    ensures f.name !in allow ==> r == Success(t)
    ensures f.name in allow ==> (r.Success? <==> FieldText(f).Success?)
    ensures f.name in allow && r.Success? ==>
      r.value == AddValue(t, Some(f.name), Some(FieldText(f).value))
  {
    if f.name !in allow then Success(t)
    else
      match FieldText(f)
      case Failure(e) => Failure(e)
      case Success(s) => Success(AddValue(t, Some(f.name), Some(s)))
  }

  /** The inner loop of `readJsonFile`: every field of one object, in order. */
  function ScanFields(t: Table, fields: JsonObject, allow: seq<string>): Result<Table, FileError>
    decreases |fields|
  {
    if fields == [] then Success(t)
    else
      match ProcessAttribute(t, fields[0], allow)
      case Failure(e) => Failure(e)
      case Success(t') => ScanFields(t', fields[1..], allow)
  }

  /** The outer loop of `readJsonFile`: every object of the array, in order. */
  function ScanObjects(t: Table, objects: seq<JsonObject>, allow: seq<string>): Result<Table, FileError>
    decreases |objects|
  {
    if objects == [] then Success(t)
    else
      match ScanFields(t, objects[0], allow)
      case Failure(e) => Failure(e)
      case Success(t') => ScanObjects(t', objects[1..], allow)
  }

  /** `readJsonFile`: the local table of one file, built from an empty one. */
  function ReadJsonFile(content: FileContent, allow: seq<string>): (r: Result<Table, FileError>)
    ensures content.Unreadable? ==> r == Failure(ReadFailed)
    ensures content.NotAnArray? ==> r == Failure(ExpectedJsonArray)
    ensures r.Success? ==> content.ArrayOfObjects?
  {
    match content
    case Unreadable => Failure(ReadFailed)
    case NotAnArray => Failure(ExpectedJsonArray)
    case ArrayOfObjects(objects) => ScanObjects(Empty, objects, allow)
  }

  // ---------------------------------------------------------------------
  // A reference description of what a file contributes, independent of the
  // fold that computes it.

  /** An allow-listed field that reaches the table: `addValue` ignores an
      empty attribute name and an empty value. */
  predicate Recorded(f: Field, allow: seq<string>) {
    f.name in allow && f.name != "" && FieldText(f).Success? && FieldText(f).value != ""
  }

  /** Every allow-listed field can be read. */
  ghost predicate FieldsReadable(fields: JsonObject, allow: seq<string>) {
    forall i :: 0 <= i < |fields| && fields[i].name in allow ==> FieldText(fields[i]).Success?
  }

  ghost predicate ObjectsReadable(objects: seq<JsonObject>, allow: seq<string>) {
    forall i :: 0 <= i < |objects| ==> FieldsReadable(objects[i], allow)
  }

  /** The pieces one field contributes to attribute `a`. */
  function FieldPieces(f: Field, allow: seq<string>, a: string): seq<string> {
    if f.name == a && Recorded(f, allow) then Split(FieldText(f).value) else []
  }

  /** The pieces counted under attribute `a`, field by field. */
  function FieldsPieces(fields: JsonObject, allow: seq<string>, a: string): seq<string>
    decreases |fields|
  {
    if fields == [] then []
    else
      FieldPieces(fields[0], allow, a) + FieldsPieces(fields[1..], allow, a)
  }

  function ObjectsPieces(objects: seq<JsonObject>, allow: seq<string>, a: string): seq<string>
    decreases |objects|
  {
    if objects == [] then [] else FieldsPieces(objects[0], allow, a) + ObjectsPieces(objects[1..], allow, a)
  }

  /** The attributes that get an entry. */
  function FieldsAttributes(fields: JsonObject, allow: seq<string>): set<string>
    decreases |fields|
  {
    if fields == [] then {}
    else (if Recorded(fields[0], allow) then {fields[0].name} else {}) + FieldsAttributes(fields[1..], allow)
  }

  function ObjectsAttributes(objects: seq<JsonObject>, allow: seq<string>): set<string>
    decreases |objects|
  {
    if objects == [] then {} else FieldsAttributes(objects[0], allow) + ObjectsAttributes(objects[1..], allow)
  }

  /** One field's effect on the table, against the reference description. */
  lemma ProcessAttributeSpec(t: Table, f: Field, allow: seq<string>)
    requires f.name in allow ==> FieldText(f).Success?
    ensures ProcessAttribute(t, f, allow).Success?
    ensures var r := ProcessAttribute(t, f, allow).value;
      && r.Keys == t.Keys + (if Recorded(f, allow) then {f.name} else {})
      && (forall a, v :: v != "" ==> Count(r, a, v) == Count(t, a, v) + multiset(FieldPieces(f, allow, a))[v])
      && (forall a :: Count(r, a, "") == Count(t, a, ""))
      && (Positive(t) ==> Positive(r))
  {
    var r := ProcessAttribute(t, f, allow).value;
    if Recorded(f, allow) {
      forall a, v | v != ""
        ensures Count(r, a, v) == Count(t, a, v) + multiset(FieldPieces(f, allow, a))[v]
      {
        if a != f.name && a in t {
          assert r[a] == t[a];
        }
      }
    }
  }

  lemma {:induction false} ScanFieldsSpec(t: Table, fields: JsonObject, allow: seq<string>)
    ensures ScanFields(t, fields, allow).Success? <==> FieldsReadable(fields, allow)
    ensures ScanFields(t, fields, allow).Success? ==>
      var r := ScanFields(t, fields, allow).value;
      && r.Keys == t.Keys + FieldsAttributes(fields, allow)
      && (forall a, v :: v != "" ==> Count(r, a, v) == Count(t, a, v) + multiset(FieldsPieces(fields, allow, a))[v])
      && (forall a :: Count(r, a, "") == Count(t, a, ""))
      && (Positive(t) ==> Positive(r))
    decreases |fields|
  {
    if fields != [] {
      var f, rest := fields[0], fields[1..];
      if f.name in allow && FieldText(f).Failure? {
        FieldsReadableCons(fields, allow);
      } else {
        ProcessAttributeSpec(t, f, allow);
        var t' := ProcessAttribute(t, f, allow).value;
        ScanFieldsSpec(t', rest, allow);
        FieldsReadableCons(fields, allow);
      }
    }
  }

  lemma FieldsReadableCons(fields: JsonObject, allow: seq<string>)
    requires fields != []
    ensures FieldsReadable(fields, allow) <==>
      (fields[0].name in allow ==> FieldText(fields[0]).Success?) && FieldsReadable(fields[1..], allow)
  {
    var rest := fields[1..];
    if FieldsReadable(rest, allow) && (fields[0].name in allow ==> FieldText(fields[0]).Success?) {
      forall i | 0 <= i < |fields| && fields[i].name in allow
        ensures FieldText(fields[i]).Success?
      {
        if i > 0 { assert fields[i] == rest[i - 1]; }
      }
    }
    if FieldsReadable(fields, allow) {
      forall i | 0 <= i < |rest| && rest[i].name in allow
        ensures FieldText(rest[i]).Success?
      {
        assert rest[i] == fields[i + 1];
      }
    }
  }

  lemma {:induction false} ScanObjectsSpec(t: Table, objects: seq<JsonObject>, allow: seq<string>)
    ensures ScanObjects(t, objects, allow).Success? <==> ObjectsReadable(objects, allow)
    ensures ScanObjects(t, objects, allow).Success? ==>
      var r := ScanObjects(t, objects, allow).value;
      && r.Keys == t.Keys + ObjectsAttributes(objects, allow)
      && (forall a, v :: v != "" ==> Count(r, a, v) == Count(t, a, v) + multiset(ObjectsPieces(objects, allow, a))[v])
      && (forall a :: Count(r, a, "") == Count(t, a, ""))
      && (Positive(t) ==> Positive(r))
    decreases |objects|
  {
    if objects != [] {
      var o, rest := objects[0], objects[1..];
      ScanFieldsSpec(t, o, allow);
      if ScanFields(t, o, allow).Success? {
        var t' := ScanFields(t, o, allow).value;
        ScanObjectsSpec(t', rest, allow);
        assert ObjectsReadable(objects, allow) <==> ObjectsReadable(rest, allow) by {
          if ObjectsReadable(rest, allow) {
            forall i | 0 <= i < |objects|
              ensures FieldsReadable(objects[i], allow)
            {
              if i > 0 { assert objects[i] == rest[i - 1]; }
            }
          }
          if ObjectsReadable(objects, allow) {
            forall i | 0 <= i < |rest|
              ensures FieldsReadable(rest[i], allow)
            {
              assert rest[i] == objects[i + 1];
            }
          }
        }
      } else {
        assert !ObjectsReadable(objects, allow);
      }
    }
  }

  lemma {:induction false} FieldsAttributesAllowed(fields: JsonObject, allow: seq<string>)
    ensures forall a :: a in FieldsAttributes(fields, allow) ==> a in allow
    decreases |fields|
  {
    if fields != [] {
      FieldsAttributesAllowed(fields[1..], allow);
    }
  }

  lemma {:induction false} ObjectsAttributesAllowed(objects: seq<JsonObject>, allow: seq<string>)
    ensures forall a :: a in ObjectsAttributes(objects, allow) ==> a in allow
    decreases |objects|
  {
    if objects != [] {
      FieldsAttributesAllowed(objects[0], allow);
      ObjectsAttributesAllowed(objects[1..], allow);
    }
  }

  /** A file's local table, against the reference description: it exists
      exactly when the file is an array whose allow-listed fields can all be
      read; its attributes are the allow-listed names that were recorded;
      each count is the number of occurrences of the value among the pieces
      of that attribute's fields; and every count is positive. */
  lemma ReadJsonFileSpec(content: FileContent, allow: seq<string>)
    ensures ReadJsonFile(content, allow).Success? <==>
      content.ArrayOfObjects? && ObjectsReadable(content.objects, allow)
    ensures ReadJsonFile(content, allow).Success? ==>
      var r := ReadJsonFile(content, allow).value;
      && r.Keys == ObjectsAttributes(content.objects, allow)
      && (forall a :: a in r ==> a in allow)
      && (forall a, v :: v != "" ==> Count(r, a, v) == multiset(ObjectsPieces(content.objects, allow, a))[v])
      && (forall a :: a in r ==> "" !in r[a])
      && Positive(r)
  {
    if content.ArrayOfObjects? {
      ScanObjectsSpec(Empty, content.objects, allow);
      ObjectsAttributesAllowed(content.objects, allow);
      var r := ReadJsonFile(content, allow);
      if r.Success? {
        forall a | a in r.value
          ensures "" !in r.value[a]
        {
          assert Count(r.value, a, "") == Count(Empty, a, "") == 0;
        }
      }
    }
  }

  /** An allow-listed `year_published` integer is recorded as exactly one
      count of its decimal string, and nothing else changes. */
  lemma YearPublishedRecordsDecimal(t: Table, year: int, allow: seq<string>)
    requires YearPublished in allow
    requires MinInt <= year <= MaxInt
    ensures ProcessAttribute(t, Field(YearPublished, Int(year)), allow).Success?
    ensures var r := ProcessAttribute(t, Field(YearPublished, Int(year)), allow).value;
      && r.Keys == t.Keys + {YearPublished}
      && Count(r, YearPublished, IntToDecimal(year)) == Count(t, YearPublished, IntToDecimal(year)) + 1
      && (forall a, v :: (a, v) != (YearPublished, IntToDecimal(year)) ==> Count(r, a, v) == Count(t, a, v))
  {
    var text := IntToDecimal(year);
    assert ',' !in text by {
      if year < 0 {
        assert text == [text[0]] + text[1..];
      }
    }
    SplitNoComma(text);
    var r := ProcessAttribute(t, Field(YearPublished, Int(year)), allow).value;
    assert r == AddValue(t, Some(YearPublished), Some(text));
    forall a, v | (a, v) != (YearPublished, text)
      ensures Count(r, a, v) == Count(t, a, v)
    {
      if a == YearPublished {
        assert v != "" ==> multiset([text])[v] == 0;
        if v == "" {
          assert CountIn(r[a], "") == CountIn(GetStats(t, a), "");
        }
      } else if a in t {
        assert r[a] == t[a];
      }
    }
  }

  /** The nested loops of `readJsonFile` as written, threading one table
      through every field of every object and stopping at the first field
      that cannot be read. */
  method ScanFile(content: FileContent, allow: seq<string>) returns (r: Result<Table, FileError>)
    ensures r == ReadJsonFile(content, allow)
  {
    if content.Unreadable? {
      return Failure(ReadFailed);
    }
    if content.NotAnArray? {
      return Failure(ExpectedJsonArray);
    }
    var objects := content.objects;
    var stats := Empty;
    var i := 0;
    while i < |objects|
      invariant 0 <= i <= |objects|
      invariant ScanObjects(stats, objects[i..], allow) == ReadJsonFile(content, allow)
    {
      var fields := objects[i];
      assert objects[i..][0] == fields && objects[i..][1..] == objects[i + 1..];
      var current := stats;
      var j := 0;
      while j < |fields|
        invariant 0 <= j <= |fields|
        invariant ScanFields(current, fields[j..], allow) == ScanFields(stats, fields, allow)
      {
        assert fields[j..][0] == fields[j] && fields[j..][1..] == fields[j + 1..];
        var step := ProcessAttribute(current, fields[j], allow);
        if step.Failure? {
          return Failure(step.error);
        }
        current := step.value;
        j := j + 1;
      }
      stats := current;
      i := i + 1;
    }
    return Success(stats);
  }

  // ---------------------------------------------------------------------
  // readAllJsonFiles

  predicate EndsWith(s: string, suffix: string) {
    |suffix| <= |s| && s[|s| - |suffix|..] == suffix
  }

  /** An entry the listing filter keeps. */
  predicate IsJson(e: DirEntry) {
    EndsWith(e.name, ".json")
  }

  /** The listing filter `name.endsWith(".json")`, in listing order. */
  function JsonFiles(entries: seq<DirEntry>): (files: seq<FileContent>)
    ensures |files| <= |entries|
    ensures files == [] <==> forall i :: 0 <= i < |entries| ==> !IsJson(entries[i])
    ensures forall c :: c in files <==> exists i :: 0 <= i < |entries| && IsJson(entries[i]) && entries[i].content == c
    decreases |entries|
  {
    if entries == [] then []
    else
      var rest := JsonFiles(entries[1..]);
      assert forall i :: 1 <= i < |entries| ==> entries[i] == entries[1..][i - 1];
      if IsJson(entries[0]) then [entries[0].content] + rest else rest
  }

  /** `idx` lists, in increasing order, exactly the positions of the
      `.json` entries, and `files` holds their contents in that order. */
  ghost predicate Selects(entries: seq<DirEntry>, files: seq<FileContent>, idx: seq<nat>) {
    && |idx| == |files|
    && (forall k :: 0 <= k < |idx| ==>
          idx[k] < |entries| && IsJson(entries[idx[k]]) && files[k] == entries[idx[k]].content)
    && (forall k, l :: 0 <= k < l < |idx| ==> idx[k] < idx[l])
    && (forall i :: 0 <= i < |entries| && IsJson(entries[i]) ==> i in idx)
  }

  /** The filter keeps exactly the `.json` entries, each once and in listing
      order. */
  lemma {:induction false} JsonFilesSelect(entries: seq<DirEntry>) returns (idx: seq<nat>)
    ensures Selects(entries, JsonFiles(entries), idx)
    decreases |entries|
  {
    if entries == [] {
      idx := [];
    } else {
      var files := JsonFiles(entries[1..]);
      var sub := JsonFilesSelect(entries[1..]);
      var shifted := ShiftSelection(entries, files, sub);
      JsonFilesCons(entries, files);
      if IsJson(entries[0]) {
        idx := [0] + shifted;
        PrependSelection(entries, files, shifted);
      } else {
        idx := shifted;
        SkipSelection(entries, files, shifted);
      }
    }
  }

  lemma JsonFilesCons(entries: seq<DirEntry>, files: seq<FileContent>)
    requires entries != [] && files == JsonFiles(entries[1..])
    ensures JsonFiles(entries) == if IsJson(entries[0]) then [entries[0].content] + files else files
  {
  }

  /** A first entry that is not `.json` is skipped. */
  lemma SkipSelection(entries: seq<DirEntry>, files: seq<FileContent>, shifted: seq<nat>)
    requires entries != [] && !IsJson(entries[0])
    requires |shifted| == |files|
    requires forall k :: 0 <= k < |shifted| ==>
      1 <= shifted[k] < |entries| && IsJson(entries[shifted[k]]) && files[k] == entries[shifted[k]].content
    requires forall k, l :: 0 <= k < l < |shifted| ==> shifted[k] < shifted[l]
    requires forall i :: 1 <= i < |entries| && IsJson(entries[i]) ==> i in shifted
    ensures Selects(entries, files, shifted)
  {
  }

  /** Positions in the tail, moved to positions in the whole listing. */
  lemma ShiftSelection(entries: seq<DirEntry>, files: seq<FileContent>, sub: seq<nat>) returns (shifted: seq<nat>)
    requires entries != [] && Selects(entries[1..], files, sub)
    ensures |shifted| == |files|
    ensures forall k :: 0 <= k < |shifted| ==>
      1 <= shifted[k] < |entries| && IsJson(entries[shifted[k]]) && files[k] == entries[shifted[k]].content
    ensures forall k, l :: 0 <= k < l < |shifted| ==> shifted[k] < shifted[l]
    ensures forall i :: 1 <= i < |entries| && IsJson(entries[i]) ==> i in shifted
  {
    var tail := entries[1..];
    shifted := seq(|sub|, k requires 0 <= k < |sub| => sub[k] + 1);
    assert forall k :: 0 <= k < |sub| ==> entries[shifted[k]] == tail[sub[k]];
    forall i | 1 <= i < |entries| && IsJson(entries[i])
      ensures i in shifted
    {
      assert entries[i] == tail[i - 1];
      var k :| 0 <= k < |sub| && sub[k] == i - 1;
      assert shifted[k] == i;
    }
  }

  /** A `.json` first entry comes first. */
  lemma PrependSelection(entries: seq<DirEntry>, files: seq<FileContent>, shifted: seq<nat>)
    requires entries != [] && IsJson(entries[0])
    requires |shifted| == |files|
    requires forall k :: 0 <= k < |shifted| ==>
      1 <= shifted[k] < |entries| && IsJson(entries[shifted[k]]) && files[k] == entries[shifted[k]].content
    requires forall k, l :: 0 <= k < l < |shifted| ==> shifted[k] < shifted[l]
    requires forall i :: 1 <= i < |entries| && IsJson(entries[i]) ==> i in shifted
    ensures Selects(entries, [entries[0].content] + files, [0] + shifted)
  {
    var idx, fs := [0] + shifted, [entries[0].content] + files;
    assert forall k :: 1 <= k < |idx| ==> idx[k] == shifted[k - 1] && fs[k] == files[k - 1];
  }

  lemma {:induction false} JsonFilesAppend(a: seq<DirEntry>, b: seq<DirEntry>)
    ensures JsonFiles(a + b) == JsonFiles(a) + JsonFiles(b)
    decreases |a|
  {
    if a == [] {
      assert a + b == b;
    } else {
      assert (a + b)[0] == a[0];
      assert (a + b)[1..] == a[1..] + b;
      JsonFilesAppend(a[1..], b);
    }
  }

  /** Listing the same entries in another order lists the same `.json`
      files in another order. */
  lemma {:induction false} JsonFilesPermutation(entries: seq<DirEntry>, reordered: seq<DirEntry>)
    requires multiset(entries) == multiset(reordered)
    ensures multiset(JsonFiles(entries)) == multiset(JsonFiles(reordered))
    decreases |entries|
  {
    if entries == [] {
      assert |reordered| == |multiset(reordered)| == 0;
    } else {
      var x := entries[0];
      assert x in multiset(reordered);
      var j :| 0 <= j < |reordered| && reordered[j] == x;
      MultisetRemoveAt(entries, reordered, j);
      JsonFilesPermutation(entries[1..], reordered[..j] + reordered[j + 1..]);
      JsonFilesRemove(entries, 0);
      assert entries[..0] + entries[1..] == entries[1..];
      JsonFilesRemove(reordered, j);
    }
  }

  /** Dropping the entry at `j` drops what the filter keeps of it. */
  lemma JsonFilesRemove(entries: seq<DirEntry>, j: nat)
    requires j < |entries|
    ensures multiset(JsonFiles(entries)) ==
      multiset(JsonFiles(entries[..j] + entries[j + 1..])) + multiset(JsonFiles([entries[j]]))
  {
    SplitAround(entries, j);
    JsonFilesMiddle(entries, entries[..j], entries[j], entries[j + 1..]);
  }

  lemma SplitAround<T>(s: seq<T>, j: nat)
    requires j < |s|
    ensures s == s[..j] + [s[j]] + s[j + 1..]
  {
  }

  lemma JsonFilesMiddle(entries: seq<DirEntry>, before: seq<DirEntry>, x: DirEntry, after: seq<DirEntry>)
    requires entries == before + [x] + after
    ensures multiset(JsonFiles(entries)) ==
      multiset(JsonFiles(before + after)) + multiset(JsonFiles([x]))
  {
    JsonFilesAppend(before + [x], after);
    JsonFilesAppend(before, [x]);
    JsonFilesAppend(before, after);
    MultisetMiddle(JsonFiles(before), JsonFiles([x]), JsonFiles(after));
  }

  lemma MultisetMiddle<T>(a: seq<T>, b: seq<T>, c: seq<T>)
    ensures multiset(a + b + c) == multiset(a + c) + multiset(b)
  {
    assert multiset(a + b + c) == multiset(a) + multiset(b) + multiset(c);
    assert multiset(a + c) == multiset(a) + multiset(c);
  }

  /** The futures' outcomes, one per file, in submission order. */
  function Outcomes(files: seq<FileContent>, allow: seq<string>): (outs: seq<Result<Table, FileError>>)
    ensures |outs| == |files|
    ensures forall i :: 0 <= i < |files| ==> outs[i] == ReadJsonFile(files[i], allow)
  {
    seq(|files|, i requires 0 <= i < |files| => ReadJsonFile(files[i], allow))
  }

  /** The collection loop: wait for each task in order and merge its table;
      the first failed task aborts the whole call. */
  function Collect(acc: Table, outcomes: seq<Result<Table, FileError>>): (r: Result<Table, ReadError>)
    ensures r.Failure? ==> r.error.FailedToParse?
    decreases |outcomes|
  {
    if outcomes == [] then Success(acc)
    else
      match outcomes[0]
      case Failure(e) => Failure(FailedToParse(e))
      case Success(local) => Collect(Merge(acc, local), outcomes[1..])
  }

  /** Every file of the list yields a table. */
  ghost predicate AllRead(files: seq<FileContent>, allow: seq<string>) {
    forall c :: c in files ==> ReadJsonFile(c, allow).Success?
  }

  /** `readAllJsonFiles(attributeNames, threadCount)`: the folder check
      comes first, then the thread pool (which rejects fewer than one
      thread), then one task per `.json` file and the collection loop. */
  function ReadAllJsonFiles(folder: Option<seq<DirEntry>>, allow: seq<string>, threadCount: int): (r: Result<Table, ReadError>)
    ensures folder.None? || JsonFiles(folder.value) == [] ==> r == Failure(FolderNotFoundOrEmpty)
    ensures folder.Some? && JsonFiles(folder.value) != [] && threadCount < 1 ==> r == Failure(IllegalThreadCount)
    ensures r.Success? <==>
      folder.Some? && JsonFiles(folder.value) != [] && threadCount >= 1 && AllRead(JsonFiles(folder.value), allow)
  {
    if folder.None? || JsonFiles(folder.value) == [] then Failure(FolderNotFoundOrEmpty)
    else if threadCount < 1 then Failure(IllegalThreadCount)
    else
      CollectSpec(Empty, JsonFiles(folder.value), allow);
      Collect(Empty, Outcomes(JsonFiles(folder.value), allow))
  }

  /** The table one file contributes; an unreadable file contributes none. */
  function LocalTable(c: FileContent, allow: seq<string>): Table {
    var r := ReadJsonFile(c, allow);
    if r.Success? then r.value else Empty
  }

  /** The local tables of a list of files, one per file, in order. */
  function LocalTables(files: seq<FileContent>, allow: seq<string>): (locals: seq<Table>)
    ensures |locals| == |files|
    ensures forall i :: 0 <= i < |files| ==> locals[i] == LocalTable(files[i], allow)
    ensures AllRead(files, allow) ==> forall i :: 0 <= i < |files| ==> Success(locals[i]) == ReadJsonFile(files[i], allow)
  {
    seq(|files|, i requires 0 <= i < |files| => LocalTable(files[i], allow))
  }

  lemma AllReadCons(files: seq<FileContent>, allow: seq<string>)
    requires files != []
    ensures AllRead(files, allow) <==> ReadJsonFile(files[0], allow).Success? && AllRead(files[1..], allow)
  {
    assert files == [files[0]] + files[1..];
  }

  /** The file at `k` fails with `e` and every file before it is read. */
  ghost predicate FailsAt(files: seq<FileContent>, allow: seq<string>, k: int, e: FileError) {
    0 <= k < |files| && AllRead(files[..k], allow) && ReadJsonFile(files[k], allow) == Failure(e)
  }

  /** `e` is the error of the first file, in order, that fails. */
  ghost predicate FirstFailure(files: seq<FileContent>, allow: seq<string>, e: FileError) {
    exists k :: FailsAt(files, allow, k, e)
  }

  /** The collection loop succeeds exactly when every outcome does, with the
      fold of merge over the local tables; otherwise it reports the first
      failure in order. */
  lemma {:induction false} CollectSpec(acc: Table, files: seq<FileContent>, allow: seq<string>)
    ensures Collect(acc, Outcomes(files, allow)).Success? <==> AllRead(files, allow)
    ensures AllRead(files, allow) ==>
      Collect(acc, Outcomes(files, allow)) == Success(MergeAllFrom(acc, LocalTables(files, allow)))
    decreases |files|
  {
    var outs := Outcomes(files, allow);
    if files != [] {
      var rest := files[1..];
      assert outs[1..] == Outcomes(rest, allow);
      AllReadCons(files, allow);
      if outs[0].Success? {
        var local := outs[0].value;
        CollectSpec(Merge(acc, local), rest, allow);
        if AllRead(files, allow) {
          assert LocalTables(files, allow)[0] == local;
          assert LocalTables(files, allow)[1..] == LocalTables(rest, allow);
        }
      }
    }
  }

  /** A failed collection reports the first file, in order, that failed. */
  lemma {:induction false} CollectFirstFailure(acc: Table, files: seq<FileContent>, allow: seq<string>)
    requires Collect(acc, Outcomes(files, allow)).Failure?
    ensures FirstFailure(files, allow, Collect(acc, Outcomes(files, allow)).error.cause)
    decreases |files|
  {
    var outs := Outcomes(files, allow);
    var rest := files[1..];
    assert outs[1..] == Outcomes(rest, allow);
    if outs[0].Failure? {
      assert AllRead(files[..0], allow);
      assert FailsAt(files, allow, 0, outs[0].error);
    } else {
      CollectFirstFailure(Merge(acc, outs[0].value), rest, allow);
      var k :| FailsAt(rest, allow, k, Collect(acc, outs).error.cause);
      assert files[k + 1] == rest[k];
      assert files[..k + 1] == [files[0]] + rest[..k];
      assert FailsAt(files, allow, k + 1, Collect(acc, outs).error.cause);
    }
  }

  /** All or nothing: the run yields a table exactly when the folder has a
      `.json` file, the pool has a thread and every file can be read; the
      table is the empty one merged with each local table in order, and a
      failure reports the first file, in order, that failed. */
  lemma ReadAllJsonFilesSpec(folder: Option<seq<DirEntry>>, allow: seq<string>, threadCount: int)
    ensures var r := ReadAllJsonFiles(folder, allow, threadCount);
      r.Success? ==> r.value == MergeAll(LocalTables(JsonFiles(folder.value), allow))
    ensures var r := ReadAllJsonFiles(folder, allow, threadCount);
      r.Failure? && r.error.FailedToParse? ==> FirstFailure(JsonFiles(folder.value), allow, r.error.cause)
  {
    if folder.Some? && JsonFiles(folder.value) != [] && threadCount >= 1 {
      var files := JsonFiles(folder.value);
      CollectSpec(Empty, files, allow);
      assert ReadAllJsonFiles(folder, allow, threadCount) == Collect(Empty, Outcomes(files, allow));
      if !AllRead(files, allow) {
        CollectFirstFailure(Empty, files, allow);
      }
    }
  }

  /** On success every count is the sum of that count over the files, and
      the attributes are those of the local tables. */
  lemma ReadAllJsonFilesCounts(folder: Option<seq<DirEntry>>, allow: seq<string>, threadCount: int)
    requires ReadAllJsonFiles(folder, allow, threadCount).Success?
    ensures var r := ReadAllJsonFiles(folder, allow, threadCount).value;
      var locals := LocalTables(JsonFiles(folder.value), allow);
      && r.Keys == AllAttributes(locals)
      && (forall a, v :: Count(r, a, v) == SumCount(locals, a, v))
      && (forall a :: a in r ==> "" !in r[a])
      && Positive(r)
  {
    ReadAllJsonFilesSpec(folder, allow, threadCount);
    var files := JsonFiles(folder.value);
    var locals := LocalTables(files, allow);
    var r := MergeAll(locals);
    MergeAllCounts(locals);
    forall i | 0 <= i < |locals|
      ensures Positive(locals[i])
      ensures forall a :: Count(locals[i], a, "") == 0
    {
      ReadJsonFileSpec(files[i], allow);
    }
    MergeAllPositive(locals);
    forall a | a in r
      ensures "" !in r[a]
    {
      SumCountZero(locals, a, "");
    }
  }

  /** Neither the order in which the folder lists its files nor the number
      of threads changes a successful result. */
  lemma ReadAllJsonFilesOrderIndependent(folder: seq<DirEntry>, reordered: seq<DirEntry>, allow: seq<string>, threads: int, otherThreads: int)
    requires multiset(JsonFiles(folder)) == multiset(JsonFiles(reordered))
    requires threads >= 1 && otherThreads >= 1
    ensures ReadAllJsonFiles(Some(folder), allow, threads).Success? <==>
            ReadAllJsonFiles(Some(reordered), allow, otherThreads).Success?
    ensures ReadAllJsonFiles(Some(folder), allow, threads).Success? ==>
            ReadAllJsonFiles(Some(folder), allow, threads) == ReadAllJsonFiles(Some(reordered), allow, otherThreads)
  {
    var files, others := JsonFiles(folder), JsonFiles(reordered);
    ReadAllJsonFilesSpec(Some(folder), allow, threads);
    ReadAllJsonFilesSpec(Some(reordered), allow, otherThreads);
    assert files == [] <==> others == [] by {
      assert |files| == |multiset(files)| == |multiset(others)| == |others|;
    }
    assert AllRead(files, allow) <==> AllRead(others, allow) by {
      forall c | c in files
        ensures c in others
      {
        assert c in multiset(files);
      }
      forall c | c in others
        ensures c in files
      {
        assert c in multiset(others);
      }
    }
    if AllRead(files, allow) && files != [] {
      var ls, lo := LocalTables(files, allow), LocalTables(others, allow);
      assert multiset(ls) == multiset(lo) by {
        LocalTablesMultiset(files, others, allow);
      }
      MergeAllPermutation(ls, lo);
    }
  }

  /** The order in which `listFiles` returns the folder's entries does not
      change the outcome, nor does a different thread count once there is
      at least one thread. */
  lemma ReadAllJsonFilesListingOrder(folder: seq<DirEntry>, reordered: seq<DirEntry>, allow: seq<string>, threads: int, otherThreads: int)
    requires multiset(folder) == multiset(reordered)
    requires threads >= 1 && otherThreads >= 1
    ensures ReadAllJsonFiles(Some(folder), allow, threads).Success? <==>
            ReadAllJsonFiles(Some(reordered), allow, otherThreads).Success?
    ensures ReadAllJsonFiles(Some(folder), allow, threads).Success? ==>
            ReadAllJsonFiles(Some(folder), allow, threads) == ReadAllJsonFiles(Some(reordered), allow, otherThreads)
  {
    JsonFilesPermutation(folder, reordered);
    ReadAllJsonFilesOrderIndependent(folder, reordered, allow, threads, otherThreads);
  }

  /** Reading a reordered list of files gives a reordered list of tables. */
  lemma {:induction false} LocalTablesMultiset(files: seq<FileContent>, others: seq<FileContent>, allow: seq<string>)
    requires multiset(files) == multiset(others)
    ensures multiset(LocalTables(files, allow)) == multiset(LocalTables(others, allow))
    decreases |files|
  {
    if files == [] {
      assert |others| == |multiset(others)| == 0;
    } else {
      assert files[0] in multiset(others);
      var j :| 0 <= j < |others| && others[j] == files[0];
      var remaining := others[..j] + others[j + 1..];
      MultisetRemoveAt(files, others, j);
      LocalTablesMultiset(files[1..], remaining, allow);
      LocalTablesTail(files, allow);
      LocalTablesRemove(others, j, allow);
    }
  }

  lemma LocalTablesTail(files: seq<FileContent>, allow: seq<string>)
    requires files != []
    ensures multiset(LocalTables(files, allow)) ==
      multiset(LocalTables(files[1..], allow)) + multiset{LocalTable(files[0], allow)}
  {
    var locals := LocalTables(files, allow);
    assert locals == [locals[0]] + locals[1..];
    assert LocalTables(files[1..], allow) == locals[1..];
  }

  /** Dropping the file at `j` drops its table. */
  lemma LocalTablesRemove(files: seq<FileContent>, j: nat, allow: seq<string>)
    requires j < |files|
    ensures multiset(LocalTables(files, allow)) ==
      multiset(LocalTables(files[..j] + files[j + 1..], allow)) + multiset{LocalTable(files[j], allow)}
  {
    var locals := LocalTables(files, allow);
    assert locals == locals[..j] + [locals[j]] + locals[j + 1..];
    assert LocalTables(files[..j] + files[j + 1..], allow) == locals[..j] + locals[j + 1..];
  }

  // ---------------------------------------------------------------------
  // The end-to-end scenario of the repository's test: three books split
  // over two files, counted by genre and by author.

  function Book(genre: string, author: string): JsonObject {
    [Field("genre", Text(genre)), Field("author", Text(author))]
  }

  /** A plain value: recorded as itself, as one piece. */
  predicate PlainValue(s: string) {
    s != "" && ',' !in s
  }

  /** One book's pieces under an attribute of the allow-list. */
  lemma BookPieces(genre: string, author: string, allow: seq<string>)
    requires allow == ["genre", "author"]
    requires PlainValue(genre) && PlainValue(author)
    ensures FieldsPieces(Book(genre, author), allow, "genre") == [genre]
    ensures FieldsPieces(Book(genre, author), allow, "author") == [author]
    ensures FieldsAttributes(Book(genre, author), allow) == {"genre", "author"}
    ensures FieldsReadable(Book(genre, author), allow)
  {
    var b := Book(genre, author);
    var g, a := b[0], b[1];
    assert "genre" != YearPublished && "author" != YearPublished && "genre" != "author";
    assert FieldText(g) == Success(genre) && FieldText(a) == Success(author);
    assert Recorded(g, allow) && Recorded(a, allow);
    SplitNoComma(genre);
    SplitNoComma(author);
    assert b[1..] == [a] && b[1..][1..] == [];
    assert FieldPieces(g, allow, "genre") == [genre] && FieldPieces(a, allow, "genre") == [];
    assert FieldPieces(g, allow, "author") == [] && FieldPieces(a, allow, "author") == [author];
    assert FieldsPieces(b[1..], allow, "genre") == [];
    assert FieldsPieces(b[1..], allow, "author") == [author];
    assert FieldsAttributes(b[1..], allow) == {"author"};
  }

  /** How often `v` occurs as `x`: 1 or 0. */
  function Hit(v: string, x: string): nat {
    if v == x then 1 else 0
  }

  /** A list of objects is read object by object. */
  lemma ObjectsCons(o: JsonObject, rest: seq<JsonObject>, allow: seq<string>)
    ensures forall a :: ObjectsPieces([o] + rest, allow, a) == FieldsPieces(o, allow, a) + ObjectsPieces(rest, allow, a)
    ensures ObjectsAttributes([o] + rest, allow) == FieldsAttributes(o, allow) + ObjectsAttributes(rest, allow)
    ensures ObjectsReadable([o] + rest, allow) <==> FieldsReadable(o, allow) && ObjectsReadable(rest, allow)
  {
    var objects := [o] + rest;
    assert objects[0] == o && objects[1..] == rest;
    if FieldsReadable(o, allow) && ObjectsReadable(rest, allow) {
      forall i | 0 <= i < |objects|
        ensures FieldsReadable(objects[i], allow)
      {
        if i > 0 { assert objects[i] == rest[i - 1]; }
      }
    }
    if ObjectsReadable(objects, allow) {
      forall i | 0 <= i < |rest|
        ensures FieldsReadable(rest[i], allow)
      {
        assert rest[i] == objects[i + 1];
      }
    }
  }

  lemma TwoBooksPieces(g1: string, a1: string, g2: string, a2: string, allow: seq<string>)
    requires allow == ["genre", "author"]
    requires PlainValue(g1) && PlainValue(a1) && PlainValue(g2) && PlainValue(a2)
    ensures ObjectsPieces([Book(g1, a1), Book(g2, a2)], allow, "genre") == [g1, g2]
    ensures ObjectsPieces([Book(g1, a1), Book(g2, a2)], allow, "author") == [a1, a2]
    ensures ObjectsAttributes([Book(g1, a1), Book(g2, a2)], allow) == {"genre", "author"}
    ensures ObjectsReadable([Book(g1, a1), Book(g2, a2)], allow)
  {
    OneBookPieces(g2, a2, allow);
    BookPieces(g1, a1, allow);
    ObjectsCons(Book(g1, a1), [Book(g2, a2)], allow);
    assert [Book(g1, a1)] + [Book(g2, a2)] == [Book(g1, a1), Book(g2, a2)];
  }

  lemma OneBookPieces(g: string, a: string, allow: seq<string>)
    requires allow == ["genre", "author"]
    requires PlainValue(g) && PlainValue(a)
    ensures ObjectsPieces([Book(g, a)], allow, "genre") == [g]
    ensures ObjectsPieces([Book(g, a)], allow, "author") == [a]
    ensures ObjectsAttributes([Book(g, a)], allow) == {"genre", "author"}
    ensures ObjectsReadable([Book(g, a)], allow)
  {
    BookPieces(g, a, allow);
    ObjectsCons(Book(g, a), [], allow);
    assert [Book(g, a)] + [] == [Book(g, a)];
    assert ObjectsReadable([], allow);
  }

  /** A file of two books, read against the reference description. */
  lemma TwoBooksFile(g1: string, a1: string, g2: string, a2: string, allow: seq<string>)
    requires allow == ["genre", "author"]
    requires PlainValue(g1) && PlainValue(a1) && PlainValue(g2) && PlainValue(a2)
    ensures ReadJsonFile(ArrayOfObjects([Book(g1, a1), Book(g2, a2)]), allow).Success?
    ensures var t := ReadJsonFile(ArrayOfObjects([Book(g1, a1), Book(g2, a2)]), allow).value;
      && t.Keys == {"genre", "author"}
      && (forall v :: v != "" ==> Count(t, "genre", v) == Hit(v, g1) + Hit(v, g2))
      && (forall v :: v != "" ==> Count(t, "author", v) == Hit(v, a1) + Hit(v, a2))
  {
    TwoBooksPieces(g1, a1, g2, a2, allow);
    PairFile([Book(g1, a1), Book(g2, a2)], allow, g1, g2, a1, a2);
  }

  /** A readable file whose genres are `g1, g2` and whose authors are
      `a1, a2` counts each of them once per occurrence. */
  lemma PairFile(objects: seq<JsonObject>, allow: seq<string>, g1: string, g2: string, a1: string, a2: string)
    requires ObjectsReadable(objects, allow)
    requires ObjectsAttributes(objects, allow) == {"genre", "author"}
    requires ObjectsPieces(objects, allow, "genre") == [g1, g2]
    requires ObjectsPieces(objects, allow, "author") == [a1, a2]
    ensures ReadJsonFile(ArrayOfObjects(objects), allow).Success?
    ensures var t := ReadJsonFile(ArrayOfObjects(objects), allow).value;
      && t.Keys == {"genre", "author"}
      && (forall v :: v != "" ==> Count(t, "genre", v) == Hit(v, g1) + Hit(v, g2))
      && (forall v :: v != "" ==> Count(t, "author", v) == Hit(v, a1) + Hit(v, a2))
  {
    ReadJsonFileSpec(ArrayOfObjects(objects), allow);
    var t := ReadJsonFile(ArrayOfObjects(objects), allow).value;
    forall v | v != ""
      ensures Count(t, "genre", v) == Hit(v, g1) + Hit(v, g2)
      ensures Count(t, "author", v) == Hit(v, a1) + Hit(v, a2)
    {
      PairMultiset(g1, g2, v);
      PairMultiset(a1, a2, v);
    }
  }

  lemma PairMultiset(x: string, y: string, v: string)
    ensures multiset([x, y])[v] == Hit(v, x) + Hit(v, y)
  {
    assert [x, y] == [x] + [y];
  }

  /** A file of one book, read against the reference description. */
  lemma OneBookFile(g: string, a: string, allow: seq<string>)
    requires allow == ["genre", "author"]
    requires PlainValue(g) && PlainValue(a)
    ensures ReadJsonFile(ArrayOfObjects([Book(g, a)]), allow).Success?
    ensures var t := ReadJsonFile(ArrayOfObjects([Book(g, a)]), allow).value;
      && t.Keys == {"genre", "author"}
      && (forall v :: v != "" ==> Count(t, "genre", v) == Hit(v, g))
      && (forall v :: v != "" ==> Count(t, "author", v) == Hit(v, a))
  {
    OneBookPieces(g, a, allow);
    SingleFile([Book(g, a)], allow, g, a);
  }

  /** A readable file whose only genre is `g` and only author is `a`. */
  lemma SingleFile(objects: seq<JsonObject>, allow: seq<string>, g: string, a: string)
    requires ObjectsReadable(objects, allow)
    requires ObjectsAttributes(objects, allow) == {"genre", "author"}
    requires ObjectsPieces(objects, allow, "genre") == [g]
    requires ObjectsPieces(objects, allow, "author") == [a]
    ensures ReadJsonFile(ArrayOfObjects(objects), allow).Success?
    ensures var t := ReadJsonFile(ArrayOfObjects(objects), allow).value;
      && t.Keys == {"genre", "author"}
      && (forall v :: v != "" ==> Count(t, "genre", v) == Hit(v, g))
      && (forall v :: v != "" ==> Count(t, "author", v) == Hit(v, a))
  {
    ReadJsonFileSpec(ArrayOfObjects(objects), allow);
  }

  /** The listing of the scenario's folder keeps the two `.json` files. */
  lemma ScenarioListing(entries: seq<DirEntry>, first: FileContent, second: FileContent)
    requires entries == [DirEntry("books1.json", first), DirEntry("notes.txt", Unreadable), DirEntry("books2.json", second)]
    ensures JsonFiles(entries) == [first, second]
  {
    assert EndsWith(entries[0].name, ".json");
    assert !EndsWith(entries[1].name, ".json");
    assert EndsWith(entries[2].name, ".json");
    assert entries[1..][1..] == [entries[2]] && entries[1..][1..][1..] == [];
    assert JsonFiles(entries[2..]) == [second];
    assert JsonFiles(entries[1..]) == [second];
  }

  /** The scenario with the strings left abstract: any two distinct plain
      genres and three distinct plain authors. */
  lemma EndToEndScenarioGeneric(
    folder: Option<seq<DirEntry>>, allow: seq<string>,
    romance: string, dystopian: string, john: string, jane: string, herman: string)
    requires allow == ["genre", "author"]
    requires PlainValue(romance) && PlainValue(dystopian) && romance != dystopian
    requires PlainValue(john) && PlainValue(jane) && PlainValue(herman)
    requires john != jane && jane != herman && john != herman
    requires folder == Some([
      DirEntry("books1.json", ArrayOfObjects([Book(romance, john), Book(romance, jane)])),
      DirEntry("notes.txt", Unreadable),
      DirEntry("books2.json", ArrayOfObjects([Book(dystopian, herman)]))])
    ensures ReadAllJsonFiles(folder, allow, 2).Success?
    ensures var r := ReadAllJsonFiles(folder, allow, 2).value;
      && r.Keys == {"genre", "author"}
      && Count(r, "genre", romance) == 2
      && Count(r, "genre", dystopian) == 1
      && Count(r, "author", john) == 1
      && Count(r, "author", jane) == 1
      && Count(r, "author", herman) == 1
  {
    var first := ArrayOfObjects([Book(romance, john), Book(romance, jane)]);
    var second := ArrayOfObjects([Book(dystopian, herman)]);
    ScenarioListing(folder.value, first, second);
    TwoBooksFile(romance, john, romance, jane, allow);
    OneBookFile(dystopian, herman, allow);
    TwoFilesRead(folder, allow, 2, first, second);
    ScenarioSums(ReadAllJsonFiles(folder, allow, 2).value,
      ReadJsonFile(first, allow).value, ReadJsonFile(second, allow).value,
      romance, dystopian, john, jane, herman);
  }

  /** The scenario with the genres and authors of the repository's own test. */
  lemma EndToEndScenario(
    folder: Option<seq<DirEntry>>, allow: seq<string>,
    romance: string, dystopian: string, john: string, jane: string, herman: string)
    requires allow == ["genre", "author"]
    requires romance == "Romance" && dystopian == "Dystopian"
    requires john == "John Doe" && jane == "Jane Smith" && herman == "Herman Melville"
    requires folder == Some([
      DirEntry("books1.json", ArrayOfObjects([Book(romance, john), Book(romance, jane)])),
      DirEntry("notes.txt", Unreadable),
      DirEntry("books2.json", ArrayOfObjects([Book(dystopian, herman)]))])
    ensures ReadAllJsonFiles(folder, allow, 2).Success?
    ensures var r := ReadAllJsonFiles(folder, allow, 2).value;
      && r.Keys == {"genre", "author"}
      && Count(r, "genre", "Romance") == 2
      && Count(r, "genre", "Dystopian") == 1
      && Count(r, "author", "John Doe") == 1
      && Count(r, "author", "Jane Smith") == 1
      && Count(r, "author", "Herman Melville") == 1
  {
    assert romance[0] != dystopian[0] && john[1] != jane[1] && john[0] != herman[0] && jane[0] != herman[0];
    EndToEndScenarioGeneric(folder, allow, romance, dystopian, john, jane, herman);
  }

  /** The arithmetic of the scenario: the two files' tables added up. */
  lemma ScenarioSums(r: Table, t1: Table, t2: Table,
    romance: string, dystopian: string, john: string, jane: string, herman: string)
    requires romance != "" && dystopian != "" && romance != dystopian
    requires john != "" && jane != "" && herman != ""
    requires john != jane && jane != herman && john != herman
    requires r.Keys == t1.Keys + t2.Keys
    requires forall a, v :: Count(r, a, v) == Count(t1, a, v) + Count(t2, a, v)
    requires t1.Keys == {"genre", "author"} && t2.Keys == {"genre", "author"}
    requires forall v :: v != "" ==> Count(t1, "genre", v) == Hit(v, romance) + Hit(v, romance)
    requires forall v :: v != "" ==> Count(t1, "author", v) == Hit(v, john) + Hit(v, jane)
    requires forall v :: v != "" ==> Count(t2, "genre", v) == Hit(v, dystopian)
    requires forall v :: v != "" ==> Count(t2, "author", v) == Hit(v, herman)
    ensures r.Keys == {"genre", "author"}
    ensures Count(r, "genre", romance) == 2 && Count(r, "genre", dystopian) == 1
    ensures Count(r, "author", john) == 1 && Count(r, "author", jane) == 1 && Count(r, "author", herman) == 1
  {
  }

  /** A folder with exactly two `.json` files that can both be read yields
      the pointwise sum of their two tables. */
  lemma TwoFilesRead(folder: Option<seq<DirEntry>>, allow: seq<string>, threadCount: int, first: FileContent, second: FileContent)
    requires folder.Some? && JsonFiles(folder.value) == [first, second] && threadCount >= 1
    requires ReadJsonFile(first, allow).Success? && ReadJsonFile(second, allow).Success?
    ensures ReadAllJsonFiles(folder, allow, threadCount).Success?
    ensures var r := ReadAllJsonFiles(folder, allow, threadCount).value;
      var t1 := ReadJsonFile(first, allow).value;
      var t2 := ReadJsonFile(second, allow).value;
      && r.Keys == t1.Keys + t2.Keys
      && (forall a, v :: Count(r, a, v) == Count(t1, a, v) + Count(t2, a, v))
  {
    var files := [first, second];
    assert AllRead(files, allow);
    ReadAllJsonFilesCounts(folder, allow, threadCount);
    var locals: seq<Table> := LocalTables(files, allow);
    var last: seq<Table> := locals[1..][1..];
    assert |locals| == 2 && last == [];
    assert AllAttributes(locals[1..]) == locals[1].Keys;
    forall a, v
      ensures SumCount(locals, a, v) == Count(locals[0], a, v) + Count(locals[1], a, v)
    {
      assert SumCount(locals[1..], a, v) == Count(locals[1], a, v) + SumCount(last, a, v);
    }
  }
}
