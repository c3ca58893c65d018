# Diagnostic-report aggregation, modelled in Dafny

Two scripts turn a directory of per-package type-checker reports into
pictures of where the errors are:

- `scripts/generate_treemap_data.py`:
  - loads every `*.json` report and normalises each diagnostic into a record
    (package, check name, severity, description);
  - groups the records by (severity, check name, package) into buckets, each
    with a count and up to five example descriptions;
  - computes summary statistics;
  - exports the buckets, statistics and colour tables for a web viewer;
  - prints a per-severity breakdown in a fixed order.
- `scripts/generate_treemap.py` runs the same loading and grouping. It then
  draws a treemap "All Errors" → severity → check name → package, where each
  leaf is sized by its bucket's count.

The model has six modules:

- `Seqs`: the sequence vocabulary, with its lemmas. It covers filtering by a
  key (one group of a groupby), first-seen de-duplication
  (`Series.unique`), `xs[:n]`, weighted sums and partitions of a sum by key,
  and `sep.join`.
- `Ordering`: Python's string order, and the sorted distinct values a
  groupby produces.
- `Reports`: the loader both scripts share.
  - The directory listing and `json.load` are inputs: a `ReportFile` is an
    entry's name and what parsing it gave.
  - `LoadReports` is the loader loop. It keeps the records appended before
    an exception and reports the failing file.
  - The missing-value sentinel is a parameter. Each script passes its own:
    `"unknown"` in the data script, `"Unknown"` in the treemap script.
- `Buckets`: the shared `groupby(...).agg(...)`.
  - Python's string order is extended to the (severity, check name,
    package) key tuples, and the buckets come in ascending key order.
  - Each count is the group size.
  - The examples are the first five distinct descriptions in arrival order.
    `ExamplesText` bullets them and joins them with `"<br>"`.
- `TreemapData`: the data script.
  - Statistics, the colour map and `severity_info` (labels and colours).
  - The ordered breakdown, with its percentages as exact reals.
  - The exported value.
  - `Run`, which goes from the directory entries to either "No data found."
    or the export plus the breakdown.
- `Treemap`: the treemap script.
  - Its colour map.
  - The hierarchy as a recursive `Tree` datatype.
  - `Run`, which goes from the directory entries to either "No data found."
    or the tree.

The model follows the code where the code differs from what one might
expect:

- The scripts do not sort the file list. Files are processed in listing
  order.
- Severity values pass through unchanged. No closed set of severities is
  enforced.
- The two scripts use differently capitalised sentinels, and these are kept
  apart.
- A severity outside the six known ones is counted in the total, but it is
  never printed in the breakdown. `TreemapData.BreakdownCoversTotal` proves
  that the printed counts add up to the total exactly when no such severity
  occurs.

## Model

| member | source | states |
|---|---|---|
| Reports.JsonFiles | scripts/generate_treemap_data.py:7-9 | an entry is selected exactly when its name ends with ".json"; its order is stated by `JsonFilesKeepsOrder` |
| Reports.JsonFilesKeepsOrder | scripts/generate_treemap_data.py:7-9 | the selection works entry by entry in listing order: the selection of `a + b` is that of `a` followed by that of `b`, and one entry is kept exactly when its name ends with ".json"; nothing is sorted |
| Reports.StripExtension | scripts/generate_treemap_data.py:16 | `os.path.splitext(js)[0]`: the name up to its last '.', unless only dots precede that dot; its value on report names is stated by `PackageOfJsonName` |
| Reports.PackageOfJsonName | scripts/generate_treemap_data.py:16 | `splitext(stem + ".json")[0]` is the stem, unless the stem is empty or all dots, in which case the whole name is kept |
| Reports.Normalize | scripts/generate_treemap_data.py:23-30 | the record carries the file's package; a missing check name or severity becomes the sentinel; a missing description becomes "No description"; present values are copied unchanged |
| Reports.NormalizeIdempotent | scripts/generate_treemap_data.py:26-28 | normalising a record whose fields are all present gives the same record back, whatever the sentinel |
| Reports.ListRecords | scripts/generate_treemap_data.py:23-30 | an array yields one record per element, in order, up to the first element that is not an object |
| Reports.Contribution | scripts/generate_treemap_data.py:19-30 | a file that is not a JSON array contributes nothing; every record it adds is tagged with its package name |
| Reports.AppendRecords | scripts/generate_treemap_data.py:23-30 | the inner loop appends exactly the records of `ListRecords`; it raises exactly when some element is not an object |
| Reports.LoadReports | scripts/generate_treemap_data.py:15-32 | the loop leaves `data` equal to the concatenated contributions of all files in order, with earlier records kept past an exception; the reported files are exactly those that raise |
| Reports.LoadedStep | scripts/generate_treemap_data.py:15-32 | one more iteration appends that file's contribution and, when it raises, its name |
| Reports.LoadedAppend | scripts/generate_treemap_data.py:15-32 | loading two batches of files one after the other gives the concatenation of their records |
| Reports.EachIssueYieldsOneRecord | scripts/generate_treemap_data.py:15-30 | each object of an array file that comes before the array's first non-object element yields exactly one record, at a position fixed by the earlier files and its own index, tagged with the file's package |
| Reports.RecordsComeFromIssues | scripts/generate_treemap_data.py:15-30 | every loaded record is the normalisation of some object of some array file |
| Reports.NothingLoaded | scripts/generate_treemap_data.py:34-36 | `data` is empty exactly when no file contributes a record |
| Reports.Raises | scripts/generate_treemap_data.py:18-32 | a file raises when it cannot be read or parsed, or when an element of its array is not an object; used by `FailedFiles` and `AppendRecords` |
| Reports.Loaded | scripts/generate_treemap_data.py:15-32 | `data` after the loop: the contributions of the files in order; `LoadReports` is proved to compute it, and `LoadedAppend`, `EachIssueYieldsOneRecord`, `RecordsComeFromIssues` and `NothingLoaded` state its properties |
| Reports.FailedFiles | scripts/generate_treemap_data.py:31-32 | the names printed as "Error reading", in order; `LoadReports` is proved to compute it and `FailuresReported` characterises it |
| Reports.FailuresReported | scripts/generate_treemap_data.py:31-32 | a name is reported exactly when some file with that name raises |
| Ordering.StrLess | scripts/generate_treemap_data.py:44 | Python's `<` on `str`: the first differing code point decides, a proper prefix is smaller; `StrLessIsStrictTotalOrder` states it is a strict total order |
| Ordering.SortedSet | scripts/generate_treemap_data.py:44 | the sorted group keys: exactly the values present, each once; `SortedSetIsSorted` states they ascend strictly |
| Ordering.StrLessIsStrictTotalOrder | scripts/generate_treemap_data.py:44 | Python's string comparison is irreflexive, transitive and total |
| Ordering.SortedSetIsSorted | scripts/generate_treemap_data.py:44 | the sorted key set is strictly ascending, hence free of duplicates |
| Ordering.DistinctOfAscending | scripts/generate_treemap_data.py:72 | `unique()` of an ascending column is strictly ascending |
| Buckets.KeyLess | scripts/generate_treemap_data.py:44 | the order pandas sorts the (severity, check name, package) keys in: by severity, then check name, then package; `KeyLessIsStrictTotalOrder` states it is a strict total order |
| Buckets.KeyLessIsStrictTotalOrder | scripts/generate_treemap_data.py:44 | the order on (severity, check name, package) keys is a strict total order |
| Seqs.Distinct | scripts/generate_treemap_data.py:49 | `unique()` has no repeats and holds exactly the input's values |
| Seqs.DistinctFirstSeenOrder | scripts/generate_treemap_data.py:49 | `unique()` lists values in the order of their first occurrence |
| Seqs.Take | scripts/generate_treemap_data.py:49 | `xs[:n]` has length min(n, len) and starts like `xs` |
| Buckets.ExampleList | scripts/generate_treemap_data.py:49 | `x.unique()[:5]`; `ExampleListIsFirstSeen` and `ExampleListStartsWithFirst` characterise it |
| Buckets.ExamplesText | scripts/generate_treemap_data.py:49 | `"<br>".join` of the bulleted examples; `ExamplesTextShape` states where each part and separator sits |
| Seqs.JoinPlacesParts | scripts/generate_treemap_data.py:49 | `sep.join(parts)` holds each part at offset (length of the parts before it + one separator per part before it), followed by `sep` unless it is the last |
| Buckets.ExampleListIsFirstSeen | scripts/generate_treemap_data.py:49 | a bucket has min(5, #distinct descriptions) examples, with no repeats, all taken from the group, in first-seen order; a description is left out only when five earlier-seen ones were chosen |
| Buckets.ExampleListStartsWithFirst | scripts/generate_treemap_data.py:49 | a non-empty group has 1 to 5 examples, and the first is the group's first description |
| Buckets.ExamplesTextShape | scripts/generate_treemap_data.py:49 | the examples text of a group is made of its 1 to 5 examples, each as `"    • " + d` at its offset with one "<br>" between neighbours (at most four) and nothing else (the length is the parts plus the separators); it starts with the group's first description, bulleted |
| Buckets.GroupKeys | scripts/generate_treemap_data.py:44 | the group keys are strictly ascending, cover every record's key, and each has a non-empty group |
| Buckets.MakeBuckets | scripts/generate_treemap_data.py:43-53 | one bucket per key, in key order, whose count is the size of that key's group |
| Buckets.Aggregate | scripts/generate_treemap_data.py:43-53 | `df_counts` has one row per present key, in ascending key order; each count is that key's group size, so at least 1 |
| Buckets.BucketExamples | scripts/generate_treemap_data.py:47-49 | a row's examples are the first distinct descriptions of its own group, starting with the group's first description |
| Buckets.RecordInExactlyOneBucket | scripts/generate_treemap_data.py:44 | every record lands in exactly one bucket, the one with its key |
| Buckets.BucketHasRecord | scripts/generate_treemap_data.py:43-53 | every bucket has a record with its key behind it |
| Buckets.BucketCountsAreGroupSizes | scripts/generate_treemap_data.py:46 | the counts of the buckets of some keys add up to the sizes of those keys' groups |
| Buckets.TotalIsRecordCount | scripts/generate_treemap_data.py:67 | the bucket counts add up to the number of loaded records |
| Buckets.SeverityTotalIsRecordCount | scripts/generate_treemap_data.py:70 | the counts of one severity's buckets add up to the number of records with that severity |
| Buckets.BucketPackagesAreRecordPackages | scripts/generate_treemap_data.py:68 | the packages of the buckets are exactly the packages of the records |
| Buckets.BucketCheckNamesAreRecordCheckNames | scripts/generate_treemap_data.py:69 | the check names of the buckets are exactly the check names of the records |
| TreemapData.SeverityTablesAgree | scripts/generate_treemap_data.py:55-112 | `severity_info`, the colour map and the breakdown order name the same six severities; each entry's colour is the colour map's; the sentinel "unknown" is among them |
| TreemapData.ExistingSeverities | scripts/generate_treemap_data.py:72 | `df_counts["severity"].unique()`; `ExistingSeveritiesAreCountKeys` and `ExistingSeveritiesAscending` state its properties |
| TreemapData.SeverityCounts | scripts/generate_treemap_data.py:70 | `groupby("severity")["count"].sum()`; `SeverityCountKeys`, `SeverityCountsSumToTotal` and `StatsOfRecords` state its properties |
| TreemapData.ComputeStats | scripts/generate_treemap_data.py:67-70 | the four statistics over the buckets; `StatsOfRecords` ties each to the loaded records |
| TreemapData.ExistingSeveritiesAreCountKeys | scripts/generate_treemap_data.py:70-72 | `existing_severities` lists each key of `severity_counts` once, and nothing else |
| TreemapData.SeverityCountsSumToTotal | scripts/generate_treemap_data.py:67-70 | the values of `severity_counts` add up to `total_errors` |
| TreemapData.SeverityCountKeys | scripts/generate_treemap_data.py:70 | a severity is a key of `severity_counts` exactly when some record has it |
| TreemapData.StatsOfRecords | scripts/generate_treemap_data.py:67-70 | `total_errors` is the number of records; `unique_packages` and `unique_error_types` count the records' distinct packages and check names; each `severity_counts` value is that severity's record count |
| TreemapData.ExistingSeveritiesAscending | scripts/generate_treemap_data.py:72 | `existing_severities` comes out strictly ascending, because the rows are sorted by severity first |
| TreemapData.BreakdownOf | scripts/generate_treemap_data.py:142-147 | every line names a listed, present severity, with its count, its label from `severity_info` and count/total*100 |
| TreemapData.Breakdown | scripts/generate_treemap_data.py:142-147 | the printed lines over the fixed order blocker, critical, major, minor, info, unknown; its properties are stated on `BreakdownOf` and by `BreakdownCoversTotal` |
| TreemapData.BreakdownListsPresent | scripts/generate_treemap_data.py:142-144 | every listed severity with a count gets a line |
| TreemapData.BreakdownFollowsOrder | scripts/generate_treemap_data.py:142-143 | the lines' severities are exactly the fixed order filtered by presence in `severity_counts`, in that order |
| TreemapData.BreakdownSeveritiesDistinct | scripts/generate_treemap_data.py:142-143 | no severity is printed twice |
| TreemapData.BreakdownCountsAreGroups | scripts/generate_treemap_data.py:142-146 | the printed counts add up to the counts of the listed severities |
| TreemapData.PercentsAdd | scripts/generate_treemap_data.py:146 | the printed percentages add up to the share of the total that the printed counts make |
| TreemapData.PercentsMakeHundred | scripts/generate_treemap_data.py:146 | lines that account for the whole total have percentages adding up to 100 |
| TreemapData.SeverityOfBucketCounted | scripts/generate_treemap_data.py:70 | every bucket's severity is a key of `severity_counts` |
| TreemapData.AbsentSeverity | scripts/generate_treemap_data.py:143 | a severity that is not a key of `severity_counts` has no buckets |
| TreemapData.BreakdownOfCoversAll | scripts/generate_treemap_data.py:142-146 | when every present severity is listed, the printed counts add up to the total |
| TreemapData.BreakdownOfFallsShort | scripts/generate_treemap_data.py:142-146 | a bucket whose severity is unlisted makes the printed counts fall short of the total |
| TreemapData.BreakdownCoversTotal | scripts/generate_treemap_data.py:142-147 | after a non-empty load, `total_errors` is the record count; the breakdown accounts for every diagnostic exactly when all severities are among the six, and its percentages then add up to 100 |
| TreemapData.ExportedRecord | scripts/generate_treemap_data.py:116-129 | each exported row carries its bucket's key and group size, and its examples text is exactly the "<br>"-joined bulleted examples of the group (`ExamplesText(ExampleList(descs))`, laid out by `ExamplesTextShape`), starting with the group's first description |
| TreemapData.MakeExport | scripts/generate_treemap_data.py:116-129 | `export_data`: one row per bucket, the statistics, the colour map, `severity_info` and `existing_severities`; `ExportedRecord` states what each row holds |
| TreemapData.Run | scripts/generate_treemap_data.py:7-147 | the failed files are those that raise; the run stops exactly when nothing was loaded; otherwise it exports the buckets of the loaded records with `total_errors` = record count > 0, and prints the breakdown of `severity_counts` over that total |
| Treemap.MissingSeverityHasColor | scripts/generate_treemap.py:54-61 | a record without a severity gets "Unknown", a key of this script's colour map, and is drawn grey |
| Treemap.Hierarchy | scripts/generate_treemap.py:68-71 | the tree of `path=[px.Constant("All Errors"), "severity", "check_name", "package"]` with `values="count"`; `HierarchyBalanced`, `HierarchyCountsRecords`, `BucketHasLeaf`, `LeafHasBucket` and `ChildNamesDistinct` state its properties |
| Treemap.SeverityNode | scripts/generate_treemap.py:70-71 | the node of one severity over its check names; `SeverityNodeBalanced` and `CheckNamesDistinct` state its properties |
| Treemap.CheckNode | scripts/generate_treemap.py:70-71 | the node of one check name over its package leaves; `CheckNodeBalanced` and `PackageNamesDistinct` state its properties |
| Treemap.Leaf | scripts/generate_treemap.py:70-71 | one package leaf per bucket, sized by its count; `BucketHasLeaf` and `LeafHasBucket` place it |
| Treemap.CheckNodeBalanced | scripts/generate_treemap.py:70-71 | a check-name node weighs the sum of its package leaves |
| Treemap.SeverityNodeBalanced | scripts/generate_treemap.py:70-71 | a severity node weighs the sum of its check-name nodes, and so on down |
| Treemap.HierarchyBalanced | scripts/generate_treemap.py:68-71 | every inner node of the tree weighs the sum of its children; the root weighs the total of the bucket counts |
| Treemap.HierarchyCountsRecords | scripts/generate_treemap.py:68-71 | the root weighs the number of loaded records; each severity node weighs the number of records with that severity |
| Treemap.AggregateKeysDistinct | scripts/generate_treemap.py:40-52 | no two rows of `df_counts` share a key |
| Treemap.SeverityChild | scripts/generate_treemap.py:70 | each bucket's severity has a node under the root |
| Treemap.CheckChild | scripts/generate_treemap.py:70 | each bucket's check name has a node under its severity's node |
| Treemap.LeafChild | scripts/generate_treemap.py:70 | each bucket has a leaf under its check name's node |
| Treemap.BucketHasLeaf | scripts/generate_treemap.py:70 | every bucket appears as a leaf sized by its count, under its check name, under its severity, under "All Errors" |
| Treemap.LeafHasBucket | scripts/generate_treemap.py:70 | every leaf is the leaf of a bucket whose severity and check name are the names of the nodes above it |
| Treemap.SeverityNamesDistinct | scripts/generate_treemap.py:70 | the root's children are named by exactly the distinct severities of the rows, in first-seen order: each has a bucket beneath it, every severity present has one, and no two share a name |
| Treemap.CheckNamesDistinct | scripts/generate_treemap.py:70 | a severity node's children are named by exactly the distinct check names of that severity's rows, in first-seen order: each has a bucket beneath it, every such check name has one, and no two share a name |
| Treemap.PackageNamesDistinct | scripts/generate_treemap.py:70 | when keys are distinct, no two leaves under one check name share a package |
| Treemap.ChildNamesDistinct | scripts/generate_treemap.py:70 | for buckets with distinct keys, which `AggregateKeysDistinct` gives for `df_counts`, the children of a node have distinct names at every level |
| Treemap.Run | scripts/generate_treemap.py:8-76 | the failed files are those that raise; the run stops exactly when nothing was loaded; otherwise the tree is the hierarchy of the buckets, its root weighs the record count (> 0), and every inner node weighs the sum of its children |

## Left out

- Reading the directory, `open`, `json.load`, `os.makedirs` and writing
  `visualizer/data.json` or `output/index.html` are I/O. Each directory
  entry is an input value: its name and its parse result. `Run` returns what
  would be written.
- The printed progress and error messages, and the number formatting of
  the breakdown (`{count:,}`, `.1f`), are left out. Percentages are exact
  reals.
- Plotly is a foreign library. The model leaves out:
  - rendering, layout, the title and the hover template with its
    `custom_data`;
  - the colour Plotly picks for a severity missing from the colour map;
  - the on-screen placement of children.
  The tree's children come in first-seen row order.
- pandas' handling of JSON `null` and of non-string field values is not
  modelled. A field is either a string or absent.
- The unused `all_packages` and `all_error_types` lists
  (scripts/generate_treemap_data.py:41-42) are left out.
- The description and icon texts of `severity_info` are left out. Only
  labels and colours are kept.
- `int(...)` on pandas integers is not modelled: counts are unbounded
  naturals.
- An exception other than an unreadable file or a non-object array element
  is not modelled.
- The examples column: the model keeps the list of chosen descriptions. The
  string the scripts store is `ExamplesText` of that list, used in each
  exported row. The treemap's hover text, which shows it, is not modelled.
- The key order of the JSON objects the data script writes is not modelled. `severity_counts`, the colour map and `severity_info` are Dafny maps, which have no order. The script writes `severity_counts` in ascending key order and the two tables in declaration order.
- TreemapData.BreakdownFollowsOrder: states the printing order as a filter
  of the fixed order. It does not compare positions line by line.
