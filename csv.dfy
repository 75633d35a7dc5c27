/**
 * The importer pipeline: a `Csv` object holding the raw records, the header,
 * the rule registry and the working data, which each stage replaces.
 */
module ProductImporter {
  import opened Wrappers
  import opened Records
  import opened Grouping
  import opened Rules
  import opened Mapping

  /** The distinguishable failures of the pipeline. */
  datatype Error =
    | SourceNotFound            // the input has no lines at all
    | ColumnMismatch(row: nat)  // data row `row` has a different field count than the header
    | UnknownRule(group: nat)   // a compared record of group `group` names no registered rule
    | UnsupportedType(name: string)

  /** An element of the working data: a group of records, or a remapped product. */
  datatype Item = Group(records: seq<Record>) | Product(fields: Object)

  /** What a terminal call renders: the whole data or one element of it. */
  datatype Payload = All(items: seq<Item>) | One(item: Item)

  /**
   * A rendered result: `Encoded(p)` stands for the JSON text of `p` (the
   * encoder itself is not modelled), `Native(p)` for `p` handed back as is.
   */
  datatype Output = Encoded(json: Payload) | Native(value: Payload)

  const AllowedTypes: seq<string> := ["json", "plain"]

  /** `toType`: dispatch on the requested format, refusing any other name. */
  function ToType(t: string, p: Payload): (r: Result<Output, Error>)
    ensures r.Ok? <==> t in AllowedTypes
    ensures r.Err? ==> r.error == UnsupportedType(t)
    ensures t == "json" ==> r == Ok(Encoded(p))
    ensures t == "plain" ==> r == Ok(Native(p)) && r.value.value == p
  {
    if t !in AllowedTypes then Err(UnsupportedType(t))
    else if t == "json" then Ok(Encoded(p))
    else Ok(Native(p))
  }

  predicate AllGroups(items: seq<Item>)
  {
    forall i :: 0 <= i < |items| ==> items[i].Group?
  }

  function GroupsOf(items: seq<Item>): seq<seq<Record>>
    requires AllGroups(items)
  {
    seq(|items|, i requires 0 <= i < |items| => items[i].records)
  }

  function Products(objs: seq<Object>): seq<Item>
  {
    seq(|objs|, i requires 0 <= i < |objs| => Product(objs[i]))
  }

  class Csv {
    var data: seq<Item>
    var raw: seq<Record>
    var keys: seq<string>
    var rules: RuleSet

    /** Every raw record exposes exactly the header's fields; no group is empty. */
    ghost predicate Valid()
      reads this
    {
      && (forall i :: 0 <= i < |raw| ==> raw[i].Keys == set k | k in keys)
      && (forall i :: 0 <= i < |data| && data[i].Group? ==> |data[i].records| > 0)
    }

    constructor Init(keys: seq<string>, raw: seq<Record>)
      requires forall i :: 0 <= i < |raw| ==> raw[i].Keys == set k | k in keys
      ensures Valid()
      ensures this.keys == keys && this.raw == raw && rules == map[] && data == []
    {
      this.keys := keys;
      this.raw := raw;
      rules := map[];
      data := [];
    }

    /**
     * The constructor, given the input already split into rows: the first row
     * is the header, every later row is paired with it by position. Fails on
     * an input with no rows, and on the first row whose length differs from
     * the header's.
     */
    static method Open(rows: seq<seq<string>>) returns (r: Result<Csv, Error>)
      ensures rows == [] ==> r == Err(SourceNotFound)
      ensures rows != [] ==> (r.Ok? <==> forall i :: 1 <= i < |rows| ==> |rows[i]| == |rows[0]|)
      ensures rows != [] && r.Err? ==>
                r.error.ColumnMismatch? && r.error.row + 1 < |rows|
                && |rows[r.error.row + 1]| != |rows[0]|
                && forall i :: 1 <= i <= r.error.row ==> |rows[i]| == |rows[0]|
      ensures r.Ok? ==>
                && fresh(r.value) && r.value.Valid()
                && r.value.keys == rows[0] && |r.value.raw| == |rows| - 1
                && (forall i :: 0 <= i < |r.value.raw| ==> r.value.raw[i] == Combine(rows[0], rows[i + 1]))
                && r.value.rules == map[] && r.value.data == []
    {
      if rows == [] {
        return Err(SourceNotFound);
      }
      var keys := rows[0];
      var records: seq<Record> := [];
      for i := 0 to |rows| - 1
        invariant forall j :: 1 <= j <= i ==> |rows[j]| == |keys|
        invariant |records| == i
        invariant forall j :: 0 <= j < i ==> records[j] == Combine(keys, rows[j + 1])
      {
        var row := rows[i + 1];
        if |row| != |keys| {
          return Err(ColumnMismatch(i));
        }
        records := records + [Combine(keys, row)];
      }
      var csv := new Csv.Init(keys, records);
      return Ok(csv);
    }

    /**
     * `arrayGroupBy`: one pass over the records, appending each to the bucket
     * of its key; `order` is the order in which the buckets were created.
     */
    static method ArrayGroupBy(records: seq<Record>, field: string)
      returns (order: seq<string>, buckets: map<string, seq<Record>>)
      ensures order == FirstSeen(records, field)
      ensures forall k :: k in buckets <==> k in order
      ensures forall k :: k in buckets ==> buckets[k] == Members(records, field, k)
    {
      order, buckets := [], map[];
      for i := 0 to |records|
        invariant order == FirstSeen(records[..i], field)
        invariant forall k :: k in buckets <==> k in order
        invariant forall k :: k in buckets ==> buckets[k] == Members(records[..i], field, k)
      {
        var value := records[i];
        var k := KeyOf(value, field);
        assert records[..i + 1][..i] == records[..i];
        if k in buckets {
          buckets := buckets[k := buckets[k] + [value]];
        } else {
          MembersAbsent(records[..i], field, k);
          order := order + [k];
          buckets := buckets[k := [value]];
        }
      }
      assert records[..|records|] == records;
    }

    /** `groupBy`: the working data becomes the groups of the raw records. */
    method GroupBy(field: string)
      requires Valid()
      modifies this
      ensures Valid()
      ensures raw == old(raw) && keys == old(keys) && rules == old(rules)
      ensures AllGroups(data) && GroupsOf(data) == Groups(raw, field)
    {
      var order, buckets := ArrayGroupBy(raw, field);
      var groups := seq(|order|, i requires 0 <= i < |order| => Group(buckets[order[i]]));
      GroupsNonEmpty(raw, field);
      assert |groups| == |Groups(raw, field)|;
      assert forall i :: 0 <= i < |groups| ==> groups[i].records == Groups(raw, field)[i];
      data := groups;
    }

    /** `addRule`: registers or overwrites the rule called `name`. */
    method AddRule(name: string, field: string, order: seq<string>)
      requires Valid()
      modifies this
      ensures Valid()
      ensures rules == old(rules)[name := Rule(field, order)]
      ensures data == old(data) && raw == old(raw) && keys == old(keys)
    {
      rules := rules[name := Rule(field, order)];
    }

    /**
     * `sortByRule`: sorts every group by the rank of its records, each record
     * ranked under the rule its own `field` value names. Stops at the first
     * group holding a compared record with no rule; the groups before it are
     * sorted, the rest are as they were.
     */
    method SortByRule(field: string) returns (outcome: Outcome<Error>)
      requires Valid() && AllGroups(data)
      modifies this
      ensures Valid() && AllGroups(data) && |data| == |old(data)|
      ensures raw == old(raw) && keys == old(keys) && rules == old(rules)
      ensures outcome.Pass? <==>
                forall g :: 0 <= g < |old(data)| ==> Sortable(rules, field, old(data)[g].records)
      ensures outcome.Pass? ==>
                forall g :: 0 <= g < |data| ==> data[g] == Group(SortGroup(rules, field, old(data)[g].records))
      ensures outcome.Fail? ==>
                && outcome.error.UnknownRule?
                && var k := outcome.error.group;
                && k < |data| && !Sortable(rules, field, old(data)[k].records)
                && (forall g :: 0 <= g < k ==>
                      Sortable(rules, field, old(data)[g].records)
                      && data[g] == Group(SortGroup(rules, field, old(data)[g].records)))
                && (forall g :: k <= g < |data| ==> data[g] == old(data)[g])
    {
      var g := 0;
      while g < |data|
        invariant 0 <= g <= |data| == |old(data)|
        invariant Valid() && AllGroups(data)
        invariant raw == old(raw) && keys == old(keys) && rules == old(rules)
        invariant forall h :: 0 <= h < g ==>
                    Sortable(rules, field, old(data)[h].records)
                    && data[h] == Group(SortGroup(rules, field, old(data)[h].records))
        invariant forall h :: g <= h < |data| ==> data[h] == old(data)[h]
      {
        var group := data[g].records;
        if !Sortable(rules, field, group) {
          return Fail(UnknownRule(g));
        }
        SortGroupCorrect(rules, field, group);
        data := data[g := Group(SortGroup(rules, field, group))];
        g := g + 1;
      }
      return Pass;
    }

    /** The sub-object of one record: its `fields`, one write per field. */
    static method ProjectRecord(record: Record, fields: seq<string>) returns (sub: SubObject)
      ensures sub == Project(record, fields)
    {
      sub := map[];
      for f := 0 to |fields|
        invariant sub == Project(record, fields[..f])
      {
        assert fields[..f + 1] == fields[..f] + [fields[f]];
        sub := sub[fields[f] := Lookup(record, fields[f])];
      }
      assert fields[..|fields|] == fields;
    }

    /**
     * The record loop for one structure entry: a scalar is rewritten for every
     * record, a nested key gets the sub-object of record `i` at index `i`.
     * `wrote` tells whether any write took place.
     */
    static method WriteEntry(obj: Object, group: seq<Record>, entry: Entry)
      returns (res: Object, wrote: bool)
      ensures res == Apply(obj, group, entry)
      ensures wrote <==> group != []
    {
      res, wrote := obj, false;
      var rows: seq<SubObject> := [];
      for i := 0 to |group|
        invariant entry.Nested? ==> rows == seq(i, j requires 0 <= j < i => Project(group[j], entry.fields))
        invariant res == if i == 0 then obj else Apply(obj, group[..i], entry)
        invariant wrote <==> i > 0
      {
        var record := group[i];
        match entry {
          case Nested(key, fields) =>
            var sub := ProjectRecord(record, fields);
            rows := rows + [sub];
            assert rows == seq(i + 1, j requires 0 <= j < i + 1 => Project(group[..i + 1][j], fields));
            res := res[key := Rows(rows)];
          case Scalar(name) =>
            assert group[..i + 1][i] == record;
            res := res[name := Value(Lookup(record, name))];
        }
        wrote := true;
      }
      assert group[..|group|] == group;
    }

    /** The object of one group: every entry of `structure` written in order. */
    static method BuildObject(group: seq<Record>, structure: seq<Entry>)
      returns (obj: Object, written: bool)
      ensures obj == MapGroup(group, structure)
      ensures written <==> group != [] && structure != []
    {
      obj, written := map[], false;
      for s := 0 to |structure|
        invariant obj == MapGroup(group, structure[..s])
        invariant written <==> group != [] && s > 0
      {
        var wrote;
        obj, wrote := WriteEntry(obj, group, structure[s]);
        written := written || wrote;
        assert structure[..s + 1][..s] == structure[..s];
      }
      assert structure[..|structure|] == structure;
    }

    /**
     * `mapToStructure`: every group becomes one product object shaped by
     * `structure`; a group's object exists only once something was written
     * into it, so an empty structure leaves no objects at all.
     */
    method MapToStructure(structure: seq<Entry>)
      requires Valid() && AllGroups(data) && WellFormed(structure)
      modifies this
      ensures Valid()
      ensures raw == old(raw) && keys == old(keys) && rules == old(rules)
      ensures data == Products(MapAll(old(GroupsOf(data)), structure))
    {
      ghost var groups := GroupsOf(data);
      var results: seq<Item> := [];
      for g := 0 to |data|
        invariant data == old(data) && raw == old(raw) && keys == old(keys) && rules == old(rules)
        invariant results == if structure == [] then []
                             else seq(g, h requires 0 <= h < g => Product(MapGroup(groups[h], structure)))
      {
        assert data[g].records == groups[g] != [];
        var obj, written := BuildObject(data[g].records, structure);
        if written {
          results := results + [Product(obj)];
        }
      }
      data := results;
    }

    /** `get`: the whole working data in the requested format. */
    method Get(t: string := "json") returns (r: Result<Output, Error>)
      ensures r == ToType(t, All(data))
    {
      r := ToType(t, All(data));
    }

    /**
     * `first`: removes the first element and renders it; the element is
     * removed before the format is checked, so it is gone on failure too.
     */
    method First(t: string := "json") returns (r: Result<Output, Error>)
      requires Valid() && |data| > 0
      modifies this
      ensures Valid()
      ensures data == old(data)[1..] && raw == old(raw) && keys == old(keys) && rules == old(rules)
      ensures r == ToType(t, One(old(data)[0]))
    {
      var head := data[0];
      data := data[1..];
      r := ToType(t, One(head));
    }

    /** `last`: renders the final element; the data is left as it is. */
    method Last(t: string := "json") returns (r: Result<Output, Error>)
      requires |data| > 0
      ensures r == ToType(t, One(data[|data| - 1]))
    {
      r := ToType(t, One(data[|data| - 1]));
    }
  }
}
