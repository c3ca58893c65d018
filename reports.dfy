/** Loading and normalising the per-package diagnostic reports.

    Both scripts run the same loader loop; they differ only in the
    sentinel that stands for a missing `check_name` or `severity`
    (`"unknown"` in generate_treemap_data.py, `"Unknown"` in
    generate_treemap.py), so the sentinel is a parameter here and each
    script module passes its own.

    The directory listing and `json.load` are inputs: a file is its name
    (in `os.listdir` order, which is not sorted) and what reading and
    parsing it gives. */
module Reports {
  import opened Seqs

  datatype Option<T> = None | Some(value: T)

  /** `dict.get(key, default)` on one field. */
  function GetOr<T>(o: Option<T>, default: T): T {
    match o
    case Some(v) => v
    case None => default
  }

  /** One element of a report's JSON array. `Issue` is an object whose
      three fields may each be absent; `NotAnObject` is any other JSON
      value, on which `.get` raises. */
  datatype Item =
    | Issue(checkName: Option<string>, severity: Option<string>, description: Option<string>)
    | NotAnObject

  /** What opening and parsing a file gives: it cannot be read or is not
      valid JSON, it is valid JSON but not an array, or it is an array. */
  datatype Parsed = Unreadable | NotAList | JsonList(items: seq<Item>)

  /** One directory entry, in listing order. */
  datatype ReportFile = ReportFile(name: string, parsed: Parsed)

  /** A normalised diagnostic: every field present. */
  datatype Record = Record(package: string, checkName: string, severity: string, description: string)

  const NoDescription: string := "No description"
  const JsonSuffix: string := ".json"

  // ---------------------------------------------------------------------
  // File selection and package names

  predicate EndsWith(s: string, suffix: string) {
    |suffix| <= |s| && s[|s| - |suffix|..] == suffix
  }

  /** The entries whose name ends with ".json", in listing order. */
  function JsonFiles(entries: seq<ReportFile>): (files: seq<ReportFile>)
    ensures forall f :: f in files <==> f in entries && EndsWith(f.name, JsonSuffix)
  {
    if entries == [] then []
    else (if EndsWith(entries[0].name, JsonSuffix) then [entries[0]] else [])
         + JsonFiles(entries[1..])
  }

  /** The selection keeps the listing order: it works entry by entry, so
      the selection of a listing is the selections of its parts, one after
      the other, and a single entry is kept exactly when its name ends with
      ".json". */
  lemma JsonFilesKeepsOrder(a: seq<ReportFile>, b: seq<ReportFile>)
    ensures JsonFiles(a + b) == JsonFiles(a) + JsonFiles(b)
    ensures forall e :: JsonFiles([e]) == if EndsWith(e.name, JsonSuffix) then [e] else []
  {
    JsonFilesAppend(a, b);
    forall e ensures JsonFiles([e]) == if EndsWith(e.name, JsonSuffix) then [e] else [] {
      assert [e][1..] == [];
    }
  }

  lemma {:induction false} JsonFilesAppend(a: seq<ReportFile>, b: seq<ReportFile>)
    ensures JsonFiles(a + b) == JsonFiles(a) + JsonFiles(b)
  {
    if a == [] {
      assert a + b == b;
    } else {
      assert (a + b)[1..] == a[1..] + b;
      JsonFilesAppend(a[1..], b);
    }
  }

  /** Index of the last '.', or -1. */
  function LastDot(s: string): (i: int)
    ensures -1 <= i < |s|
    ensures i >= 0 ==> s[i] == '.'
    ensures forall j :: i < j < |s| ==> s[j] != '.'
  {
    if s == [] then -1
    else if s[|s| - 1] == '.' then |s| - 1
    else LastDot(s[..|s| - 1])
  }

  predicate AllDots(s: string) {
    forall j :: 0 <= j < |s| ==> s[j] == '.'
  }

  /** `os.path.splitext(name)[0]` for a name without a directory part:
      the text before the last '.', unless everything before that dot is
      dots (a leading dot starts a hidden name, not an extension). */
  function StripExtension(name: string): string {
    var d := LastDot(name);
    if d >= 0 && !AllDots(name[..d]) then name[..d] else name
  }

  /** The package of `<stem>.json` is `<stem>`, except when the stem is
      empty or all dots, where the whole name is kept. */
  lemma PackageOfJsonName(stem: string)
    ensures StripExtension(stem + JsonSuffix) == if AllDots(stem) then stem + JsonSuffix else stem
  {
    var name := stem + JsonSuffix;
    assert name[|stem|] == '.';
    assert forall j :: |stem| < j < |name| ==> name[j] != '.';
    assert LastDot(name) == |stem|;
    assert name[..|stem|] == stem;
  }

  // ---------------------------------------------------------------------
  // Normalisation

  /** The record appended for one array element: the package is the
      file's, an absent `check_name` or `severity` becomes `unknown`, an
      absent `description` becomes "No description", and a present value
      is copied whatever it is (no severity taxonomy is enforced). */
  function Normalize(item: Item, package: string, unknown: string): (r: Record)
    requires item.Issue?
    ensures r.package == package
    ensures item.checkName.Some? ==> r.checkName == item.checkName.value
    ensures item.checkName.None? ==> r.checkName == unknown
    ensures item.severity.Some? ==> r.severity == item.severity.value
    ensures item.severity.None? ==> r.severity == unknown
    ensures item.description.Some? ==> r.description == item.description.value
    ensures item.description.None? ==> r.description == NoDescription
  {
    Record(package, GetOr(item.checkName, unknown), GetOr(item.severity, unknown),
           GetOr(item.description, NoDescription))
  }

  /** A record seen as an input object with every field present. */
  function AsIssue(r: Record): Item {
    Issue(Some(r.checkName), Some(r.severity), Some(r.description))
  }

  /** Normalisation only fills gaps: a record whose fields are all present
      comes back unchanged, whatever the sentinel. */
  lemma NormalizeIdempotent(r: Record, unknown: string)
    ensures Normalize(AsIssue(r), r.package, unknown) == r
  {
  }

  // ---------------------------------------------------------------------
  // What one file contributes

  /** Index of the first element that is not an object (where `.get`
      raises), or the length when there is none. */
  function FirstNonObject(items: seq<Item>): (n: nat)
    ensures n <= |items|
    ensures forall k :: 0 <= k < n ==> items[k].Issue?
    ensures n < |items| ==> items[n].NotAnObject?
  {
    if items == [] then 0
    else if items[0].NotAnObject? then 0
    else 1 + FirstNonObject(items[1..])
  }

  /** The records of a prefix made of objects only. */
  function NormalizeAll(items: seq<Item>, package: string, unknown: string): (rs: seq<Record>)
    requires forall k :: 0 <= k < |items| ==> items[k].Issue?
    ensures |rs| == |items|
    ensures forall k :: 0 <= k < |items| ==> rs[k] == Normalize(items[k], package, unknown)
  {
    if items == [] then []
    else NormalizeAll(items[..|items| - 1], package, unknown)
         + [Normalize(items[|items| - 1], package, unknown)]
  }

  /** The records an array yields: one per element up to the first
      element that is not an object; those appended before the exception
      stay. */
  function ListRecords(items: seq<Item>, package: string, unknown: string): (rs: seq<Record>)
    ensures |rs| == FirstNonObject(items)
    ensures forall k :: 0 <= k < |rs| ==> rs[k] == Normalize(items[k], package, unknown)
  {
    NormalizeAll(items[..FirstNonObject(items)], package, unknown)
  }

  /** The records a file adds to `data`: none unless it parsed to a list. */
  function Contribution(f: ReportFile, unknown: string): (rs: seq<Record>)
    ensures !f.parsed.JsonList? ==> rs == []
    ensures forall r :: r in rs ==> r.package == StripExtension(f.name)
  {
    match f.parsed
    case JsonList(items) => ListRecords(items, StripExtension(f.name), unknown)
    case _ => []
  }

  /** Reading the file raised: it could not be opened or parsed, or one
      of its array elements is not an object. */
  predicate Raises(f: ReportFile) {
    match f.parsed
    case Unreadable => true
    case NotAList => false
    case JsonList(items) => FirstNonObject(items) < |items|
  }

  /** `data` after the loader has processed `files` in order. */
  function Loaded(files: seq<ReportFile>, unknown: string): seq<Record> {
    ConcatMap(files, f => Contribution(f, unknown))
  }

  /** The names reported as "Error reading", in order. */
  function FailedFiles(files: seq<ReportFile>): seq<string> {
    ConcatMap(files, f => if Raises(f) then [f.name] else [])
  }

  /** One more file processed by the loader. */
  lemma LoadedStep(files: seq<ReportFile>, i: nat, unknown: string)
    requires i < |files|
    ensures Loaded(files[..i + 1], unknown) == Loaded(files[..i], unknown) + Contribution(files[i], unknown)
    ensures FailedFiles(files[..i + 1])
            == FailedFiles(files[..i]) + (if Raises(files[i]) then [files[i].name] else [])
  {
    assert files[..i + 1][..i] == files[..i];
  }

  // ---------------------------------------------------------------------
  // The loader loop

  /** The inner loop over one array: appends the record of each element
      in order, and stops where `.get` raises on an element that is not
      an object, keeping what it already appended. */
  method AppendRecords(data0: seq<Record>, items: seq<Item>, package: string, unknown: string)
    returns (data: seq<Record>, raised: bool)
    ensures data == data0 + ListRecords(items, package, unknown)
    ensures raised <==> FirstNonObject(items) < |items|
  {
    data := data0;
    raised := false;
    var j := 0;
    while j < |items| && !raised
      decreases |items| - j, if raised then 0 else 1
      invariant 0 <= j <= |items|
      invariant forall k :: 0 <= k < j ==> items[k].Issue?
      invariant raised ==> j < |items| && items[j].NotAnObject?
      invariant data == data0 + NormalizeAll(items[..j], package, unknown)
    {
      if items[j].NotAnObject? {
        raised := true;
      } else {
        assert items[..j + 1][..j] == items[..j];
        data := data + [Normalize(items[j], package, unknown)];
        j := j + 1;
      }
    }
    assert j == FirstNonObject(items);
  }

  /** The loop over the report files: appends one record per array
      element, skips files that are not lists, and on an exception
      reports the file and continues with the next one, keeping what was
      already appended. */
  method LoadReports(files: seq<ReportFile>, unknown: string)
    returns (data: seq<Record>, failed: seq<string>)
    ensures data == Loaded(files, unknown)
    ensures failed == FailedFiles(files)
  {
    data, failed := [], [];
    for i := 0 to |files|
      invariant data == Loaded(files[..i], unknown)
      invariant failed == FailedFiles(files[..i])
    {
      var file := files[i];
      LoadedStep(files, i, unknown);
      match file.parsed {
        case Unreadable =>
          failed := failed + [file.name];
        case NotAList =>
        case JsonList(items) =>
          var raised;
          data, raised := AppendRecords(data, items, StripExtension(file.name), unknown);
          if raised {
            failed := failed + [file.name];
          }
      }
    }
    assert files[..|files|] == files;
  }

  // ---------------------------------------------------------------------
  // Properties of the loader

  /** Processing two batches of files one after the other. */
  lemma LoadedAppend(a: seq<ReportFile>, b: seq<ReportFile>, unknown: string)
    ensures Loaded(a + b, unknown) == Loaded(a, unknown) + Loaded(b, unknown)
  {
    ConcatMapAppend(a, b, f => Contribution(f, unknown));
  }

  /** Each object of an array file yields exactly one record, at the
      position given by the files before it and its own index, tagged
      with the file's package name. */
  lemma EachIssueYieldsOneRecord(files: seq<ReportFile>, i: nat, j: nat, unknown: string)
    requires i < |files| && files[i].parsed.JsonList?
    requires j < FirstNonObject(files[i].parsed.items)
    ensures |Loaded(files[..i], unknown)| + j < |Loaded(files, unknown)|
    ensures Loaded(files, unknown)[|Loaded(files[..i], unknown)| + j]
            == Normalize(files[i].parsed.items[j], StripExtension(files[i].name), unknown)
  {
    assert files == files[..i] + [files[i]] + files[i + 1..];
    LoadedAppend(files[..i] + [files[i]], files[i + 1..], unknown);
    LoadedAppend(files[..i], [files[i]], unknown);
    assert Loaded([files[i]], unknown) == Contribution(files[i], unknown) by {
      assert [files[i]][..0] == [];
    }
  }

  /** Every loaded record comes from some object of some array file, and
      its package is that file's name without the extension. */
  lemma {:induction false} RecordsComeFromIssues(files: seq<ReportFile>, unknown: string, r: Record)
    requires r in Loaded(files, unknown)
    ensures exists i, j :: 0 <= i < |files| && files[i].parsed.JsonList?
              && 0 <= j < FirstNonObject(files[i].parsed.items)
              && r == Normalize(files[i].parsed.items[j], StripExtension(files[i].name), unknown)
  {
    var init, last := files[..|files| - 1], files[|files| - 1];
    if r in Loaded(init, unknown) {
      RecordsComeFromIssues(init, unknown, r);
      var i, j :| 0 <= i < |init| && init[i].parsed.JsonList?
                  && 0 <= j < FirstNonObject(init[i].parsed.items)
                  && r == Normalize(init[i].parsed.items[j], StripExtension(init[i].name), unknown);
      assert files[i] == init[i];
    } else {
      var rs := Contribution(last, unknown);
      var j :| 0 <= j < |rs| && rs[j] == r;
      assert files[|files| - 1] == last;
    }
  }

  /** Nothing is loaded exactly when no file contributes a record. */
  lemma {:induction false} NothingLoaded(files: seq<ReportFile>, unknown: string)
    ensures Loaded(files, unknown) == []
            <==> forall f :: f in files ==> Contribution(f, unknown) == []
  {
    if files != [] {
      var init, last := files[..|files| - 1], files[|files| - 1];
      assert files == init + [last];
      NothingLoaded(init, unknown);
    }
  }

  /** Exactly the files that raise are reported, in order. */
  lemma {:induction false} FailuresReported(files: seq<ReportFile>)
    ensures forall name :: name in FailedFiles(files)
              <==> exists f :: f in files && Raises(f) && f.name == name
  {
    if files != [] {
      var init, last := files[..|files| - 1], files[|files| - 1];
      assert files == init + [last];
      assert FailedFiles(files) == FailedFiles(init) + (if Raises(last) then [last.name] else []);
      FailuresReported(init);
    }
  }
}
