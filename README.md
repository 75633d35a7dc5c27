# Product importer pipeline, modelled in Dafny

This project models the `ProductImporter\Csv` class of the product importer.
The class is a fluent, in-memory pipeline over one CSV file:

1. the constructor pairs every data row with the header row;
2. `groupBy` partitions the records by the value of one field;
3. `addRule` registers named ordering rules;
4. `sortByRule` sorts each group, ranking each record under the rule that
   its own discriminator value names;
5. `mapToStructure` remaps each group into one product object;
6. `get`, `first` and `last` render the data as JSON or as the native value.

The class becomes the Dafny class `ProductImporter.Csv`. Its four fields are
`raw` (the records), `keys` (the header), `rules` (the rule registry) and
`data` (the working data). Each pipeline step is a method that reassigns
those fields with the same loops the PHP code runs. Each method is proved
against a specification function. The properties the pipeline promises are
proved as lemmas about those functions:

- grouping is a partition in first-seen order;
- the rule sort yields a stable, rank-ordered permutation of each group;
- the remap gives each product the shape its structure asks for.

Files, one module each:

- `wrappers.dfy`: `Option`, `Result` and `Outcome`.
- `records.dfy`: a record as a map from field name to value. It defines how
  a field is read (`Lookup`, `KeyOf`) and how `array_combine` builds a record
  (`Combine`).
- `grouping.dfy`: grouping (`FirstSeen`, `Members`, `Groups`) and the
  partition lemmas.
- `sorting.dfy`: the stable sort `usort` performs in PHP 8, as an insertion
  sort by integer rank, with its correctness lemmas.
- `rules.dfy`: rules, `array_search` (`IndexOf`), the record rank, and when a
  group can be sorted.
- `mapping.dfy`: the structure description and the object each group becomes.
- `csv.dfy`: the class itself, the error kinds, and the format dispatch
  `toType`.

How the PHP behaviour is modelled:

- **Field reads.** Reading a field a record does not have gives PHP null.
  Null used as an array key, or compared loosely with a string, behaves as
  the empty string, and `KeyOf` returns that. Inside a remapped product the
  null is kept: `Lookup` returns `None`.
- **Rank of a value not in the list.** `array_search` returns `false`, and the
  comparator's subtraction counts `false` as 0. Such a record therefore ties
  with a record whose value is the first list entry. The model reproduces
  this.
- **When the sort fails.** A group of fewer than two records is never
  compared, so it never fails. In a larger group, every record takes part in
  some comparison. A record whose discriminator names no rule then fails the
  sort in either role:
  - as `$a`, it raises "This Rule does not exist!";
  - as `$b`, `array_search` raises a `TypeError` because it is handed null.

  The model reports both as one error, `UnknownRule`, naming the first group
  that fails.
- **`first` removes its element first.** `first` takes the element off `data`
  before it checks the format, so the element is gone even when the format is
  rejected. `last` leaves `data` as it is.

## Model

| member | source | states |
|---|---|---|
| ProductImporter.Csv.Open | src/Csv.php:43-52 | No rows is `SourceNotFound`. The first data row whose length differs from the header's is `ColumnMismatch` with that row's index. Otherwise `keys` is the first row, and raw record i is `Combine(header, row i+1)`. |
| ProductImporter.Csv.Init | src/Csv.php:48-50 | The new object holds the header and records, an empty rule registry and empty data. |
| Records.Combine | src/Csv.php:50 | The record's fields are exactly the header names. |
| Records.CombineAt | src/Csv.php:50 | A header name maps to the value in the column of its last occurrence (a later duplicate overwrites). |
| Records.CombineDistinct | src/Csv.php:50 | With a duplicate-free header, every name `keys[j]` maps to `row[j]`. |
| Grouping.FirstSeen | src/Csv.php:220 | The group keys have no duplicates. A key occurs exactly when some record carries it. |
| Grouping.Members | src/Csv.php:220 | Every member of a group is an input record carrying the group's key. |
| Grouping.MembersComplete | src/Csv.php:220 | Conversely, every record carrying a key is a member of that key's group. |
| Grouping.MembersAppend | src/Csv.php:220 | Grouping distributes over concatenation, so records keep their arrival order inside a group. |
| Grouping.GroupsNonEmpty | src/Csv.php:217-222 | No group is empty. |
| Grouping.GroupsKeyed | src/Csv.php:60-65 | There is one group per distinct key, indexed from 0. Every record of group g has key g. Two records share a key exactly when they are in the same group. |
| Grouping.GroupsPermutation | src/Csv.php:217-222 | The groups joined together are a permutation of the input: nothing is lost or duplicated. |
| Grouping.GroupsFirstSeenOrder | src/Csv.php:220 | For groups g < h, some record of g arrives before every record of h (first-seen key order). |
| ProductImporter.Csv.ArrayGroupBy | src/Csv.php:217-222 | The single appending pass gives the buckets in first-seen key order. Each bucket holds exactly its key's records, in arrival order. |
| ProductImporter.Csv.GroupBy | src/Csv.php:60-67 | `data` becomes the groups of `raw`, re-indexed from 0. Every other field is unchanged. |
| ProductImporter.Csv.AddRule | src/Csv.php:77-83 | `rules[name]` becomes `(field, order)`, overwriting any earlier rule. Every other rule, `data`, `raw` and `keys` are unchanged. |
| Rules.IndexOf | src/Csv.php:102-103 | `array_search` gives the first index holding the value, or not found exactly when the value is absent. |
| Rules.RankFirstMatch | src/Csv.php:99-104 | A record's rank is the first index of its comparison value in its own rule's list, or 0 when the value is absent. |
| StableSort.SortByCorrect | src/Csv.php:94 | The sort returns a permutation in non-decreasing rank. Elements of equal rank keep their input order. |
| Rules.SortGroupCorrect | src/Csv.php:94-105 | A group sorted by rule keeps its length and records. It is in non-decreasing rank, and equal-rank records keep their relative order. |
| Rules.ShoeSizeExample | src/Csv.php:99-104 | Take two SHOE_EU records with sizes 22 and 20, under the rule list 20, 21, 22. They sort to 20, 22. |
| ProductImporter.Csv.SortByRule | src/Csv.php:91-108 | It succeeds exactly when no group of two or more records holds a record whose discriminator names no rule. On success each group is replaced by its sorted version, with group count and order unchanged. On failure it names the first failing group: the groups before it are sorted, the rest unchanged. |
| Mapping.MapGroupKeys | src/Csv.php:119-134 | A non-empty group's object has exactly the keys the structure names. An empty group writes nothing. |
| Mapping.MapGroupScalar | src/Csv.php:122-131 | A plain-name entry holds the value of the group's last record. |
| Mapping.MapGroupNested | src/Csv.php:123-129 | In a well-formed structure, a `key => fields` entry that is the last to write its key holds one sub-object per record, in group order. Each holds exactly `fields`, taken from that record. |
| Mapping.NestedThenScalarExample | src/Csv.php:122-131 | A plain name after a nested entry of the same name overwrites the list with the last record's value. |
| Mapping.ShoeExample | src/Csv.php:116-138 | Two records of PLU 1 with SKUs S1 and S2 are mapped with PLU, name, SKU and sizes => [SKU, size]. The result is one product whose SKU is S2 and whose sizes list both records in order. |
| ProductImporter.Csv.ProjectRecord | src/Csv.php:124-127 | The field loop builds exactly the requested fields of one record. |
| ProductImporter.Csv.WriteEntry | src/Csv.php:121-133 | The record loop with counter `$i` writes one entry's value into the object. It reports a write exactly when the group is non-empty. |
| ProductImporter.Csv.BuildObject | src/Csv.php:120-134 | The entry loop builds the group's specified object. It reports a write exactly when both the group and the structure are non-empty. |
| ProductImporter.Csv.MapToStructure | src/Csv.php:116-138 | `data` becomes one product per group, in group order. With an empty structure, `data` becomes empty. Every other field is unchanged. |
| ProductImporter.ToType | src/Csv.php:180-186 | It succeeds exactly for `json` and `plain`, and otherwise fails with `UnsupportedType`. `plain` hands the value back unchanged. |
| ProductImporter.Csv.Get | src/Csv.php:146-149 | Renders the whole data in the requested format (default `json`). |
| ProductImporter.Csv.First | src/Csv.php:157-160 | Removes `data[0]` whatever the format, and renders it. |
| ProductImporter.Csv.Last | src/Csv.php:168-171 | Renders the last element and leaves `data` unchanged. |

## Left out

- Reading the file is not modelled: `file` with `FILE_SKIP_EMPTY_LINES` and the CSV tokenising by `str_getcsv` are I/O and library parsing. `Open` takes the rows already split. An empty file and a missing file both raise, and both appear as an empty row list (`SourceNotFound`).
- `json_encode` is a foreign library call. `Encoded(p)` stands for its text without computing it. The JSON round trip is not stated.
- PHP's loose `==` in `array_search` is not modelled. Neither is the conversion of numeric-string keys to integer array keys. All values are strings compared exactly.
- The ordering of keys inside a record or a product is not modelled: PHP arrays are ordered, and the model's maps are not. Only the key order of the rendered output is lost, in the JSON text and the native value alike. No stage of the core iterates over a record's or a product's keys.
- ProductImporter.Csv.Open: keeps PHP 8's behaviour: a length mismatch in `array_combine` raises. PHP 7 instead stores `false` and warns.
- ProductImporter.Csv.SortByRule: models PHP 8's stable `usort`; before PHP 8 the order of equal-rank records was not guaranteed. On failure, the failing group is stated as left unchanged. PHP may leave that group partly reordered. Which record of the failing group raises depends on the sort's comparison order, so it is not modelled.
- ProductImporter.Csv.SortByRule: requires the data to be groups. Sorting data after it has been remapped into products is not modelled.
- ProductImporter.Csv.MapToStructure: requires the data to be groups. It also excludes a structure in which a nested key comes after a plain entry of the same name. PHP then writes the list into the scalar already stored. If that value is a string, PHP raises an Error at src/Csv.php:126 (a string offset cannot be used as an array) when the field list is non-empty. With an empty field list it overwrites characters of the string. If it is null (the field is missing), the null silently becomes the list. The model excludes all such structures. A plain name after a nested key of the same name is admitted: it overwrites the list with the last record's value. Nested keys are strings, not integer keys.
- ProductImporter.Csv.First: requires non-empty data, and so does `Last`. On empty data PHP 8 raises a `TypeError`.
- A read of a missing field emits a PHP warning. The warning is not modelled; the null value is.
- `end` moves the array's internal pointer. That pointer is not modelled.
- `index.php` is a driver script that configures rules and prints the result. It is not part of this model.
