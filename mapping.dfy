/**
 * The structural remap (`mapToStructure`): each group becomes one output
 * object whose shape a structure description gives.
 */
module Mapping {
  import opened Wrappers
  import opened Records

  /**
   * One entry of the structure: a plain field name copied as a scalar, or a
   * key collecting one sub-object of the listed fields per record.
   */
  datatype Entry = Scalar(name: string) | Nested(key: string, fields: seq<string>)

  /** The output key an entry writes. */
  function NameOf(e: Entry): string
  {
    match e
    case Scalar(name) => name
    case Nested(key, _) => key
  }

  /** A sub-object: field name to value, PHP null for a field the record lacks. */
  type SubObject = map<string, Option<string>>

  /** A value of an output object: a scalar, or the list of sub-objects. */
  datatype Cell = Value(value: Option<string>) | Rows(rows: seq<SubObject>)

  type Object = map<string, Cell>

  /**
   * No nested key follows a plain entry of the same name. There the nested
   * writes would index into the scalar already stored. If that value is a
   * string, PHP raises an Error at src/Csv.php:126 (a string offset cannot be
   * used as an array) when the field list is non-empty; with an empty field
   * list it overwrites characters of the string. A null value silently
   * becomes the list. A scalar after a nested entry of the same name simply
   * overwrites the list, and is admitted.
   */
  predicate WellFormed(structure: seq<Entry>)
  {
    forall i, j :: 0 <= j < i < |structure| && structure[i].Nested? && structure[j].Scalar? ==>
      structure[j].name != structure[i].key
  }

  /** The sub-object holding exactly `fields` of record `r`. */
  function Project(r: Record, fields: seq<string>): SubObject
  {
    map f | f in fields :: Lookup(r, f)
  }

  /**
   * The writes one entry makes into a group's object: a scalar is written
   * once per record, so the last record's value stays; a nested key gets one
   * sub-object per record. An empty group writes nothing.
   */
  function Apply(obj: Object, group: seq<Record>, e: Entry): Object
  {
    if group == [] then obj
    else match e
      case Scalar(name) => obj[name := Value(Lookup(group[|group| - 1], name))]
      case Nested(key, fields) =>
        obj[key := Rows(seq(|group|, i requires 0 <= i < |group| => Project(group[i], fields)))]
  }

  /** The output object of one group: the entries applied in order. */
  function MapGroup(group: seq<Record>, structure: seq<Entry>): Object
  {
    if structure == [] then map[]
    else Apply(MapGroup(group, structure[..|structure| - 1]), group, structure[|structure| - 1])
  }

  /** The whole output: one object per group; an empty structure writes nothing at all. */
  function MapAll(groups: seq<seq<Record>>, structure: seq<Entry>): seq<Object>
  {
    if structure == [] then []
    else seq(|groups|, g requires 0 <= g < |groups| => MapGroup(groups[g], structure))
  }

  lemma WellFormedPrefix(structure: seq<Entry>, n: nat)
    requires WellFormed(structure) && n <= |structure|
    ensures WellFormed(structure[..n])
  {
  }

  /** A group's object has exactly the keys the structure names (none for an empty group). */
  lemma {:induction false} MapGroupKeys(group: seq<Record>, structure: seq<Entry>)
    ensures group == [] ==> MapGroup(group, structure) == map[]
    ensures group != [] ==> MapGroup(group, structure).Keys == set e | e in structure :: NameOf(e)
  {
    if structure != [] {
      var n := |structure|;
      MapGroupKeys(group, structure[..n - 1]);
      assert structure == structure[..n - 1] + [structure[n - 1]];
      var last := structure[n - 1];
      assert (set e | e in structure :: NameOf(e))
          == (set e | e in structure[..n - 1] :: NameOf(e)) + {NameOf(last)};
      if group != [] {
        assert MapGroup(group, structure).Keys == MapGroup(group, structure[..n - 1]).Keys + {NameOf(last)};
      }
    }
  }

  /** A plain-name entry holds the value of the group's last record. */
  lemma {:induction false} MapGroupScalar(group: seq<Record>, structure: seq<Entry>, j: nat)
    requires WellFormed(structure) && group != []
    requires j < |structure| && structure[j].Scalar?
    ensures var name := structure[j].name;
            var obj := MapGroup(group, structure);
            name in obj && obj[name] == Value(Lookup(group[|group| - 1], name))
  {
    var n := |structure|;
    if j < n - 1 {
      WellFormedPrefix(structure, n - 1);
      MapGroupScalar(group, structure[..n - 1], j);
      assert structure[..n - 1][j] == structure[j];
    }
  }

  /**
   * A nested entry that is the last to write its key holds one sub-object per
   * record of the group, in group order, each with exactly the listed fields
   * taken from that record. (A later entry of that name overwrites it; when
   * that entry is a scalar, `MapGroupScalar` gives the result.)
   */
  lemma {:induction false} MapGroupNested(group: seq<Record>, structure: seq<Entry>, j: nat)
    requires group != []
    requires WellFormed(structure)
    requires j < |structure| && structure[j].Nested?
    requires forall l :: j < l < |structure| ==> NameOf(structure[l]) != structure[j].key
    ensures var key, fields := structure[j].key, structure[j].fields;
            var obj := MapGroup(group, structure);
            && key in obj && obj[key].Rows? && |obj[key].rows| == |group|
            && forall i :: 0 <= i < |group| ==>
                 && obj[key].rows[i].Keys == (set f | f in fields)
                 && forall f :: f in fields ==> obj[key].rows[i][f] == Lookup(group[i], f)
  {
    var n := |structure|;
    if j < n - 1 {
      WellFormedPrefix(structure, n - 1);
      MapGroupNested(group, structure[..n - 1], j);
      assert structure[..n - 1][j] == structure[j];
      assert NameOf(structure[n - 1]) != structure[j].key;
    }
  }

  /** A plain name after a nested entry of that name overwrites the list with the last value. */
  lemma NestedThenScalarExample(r1: Record, r2: Record)
    ensures var structure := [Nested("sizes", ["SKU"]), Scalar("sizes")];
            WellFormed(structure) && MapGroup([r1, r2], structure)["sizes"] == Value(Lookup(r2, "sizes"))
  {
    var structure := [Nested("sizes", ["SKU"]), Scalar("sizes")];
    MapGroupScalar([r1, r2], structure, 1);
  }

  /**
   * Two records of one product (PLU 1, SKUs S1 and S2, sizes 20 and 21) and
   * the structure PLU, name, SKU, sizes => [SKU, size]: the scalars carry the
   * second record's SKU and the sizes list holds both records in order.
   */
  lemma ShoeExample()
    ensures var r1 := map["PLU" := "1", "name" := "Shoe", "SKU" := "S1", "size" := "20"];
            var r2 := map["PLU" := "1", "name" := "Shoe", "SKU" := "S2", "size" := "21"];
            var structure := [Scalar("PLU"), Scalar("name"), Scalar("SKU"), Nested("sizes", ["SKU", "size"])];
            MapAll([[r1, r2]], structure) == [map[
              "PLU" := Value(Some("1")), "name" := Value(Some("Shoe")), "SKU" := Value(Some("S2")),
              "sizes" := Rows([map["SKU" := Some("S1"), "size" := Some("20")],
                               map["SKU" := Some("S2"), "size" := Some("21")]])]]
  {
    var r1 := map["PLU" := "1", "name" := "Shoe", "SKU" := "S1", "size" := "20"];
    var r2 := map["PLU" := "1", "name" := "Shoe", "SKU" := "S2", "size" := "21"];
    var structure := [Scalar("PLU"), Scalar("name"), Scalar("SKU"), Nested("sizes", ["SKU", "size"])];
    var g := [r1, r2];
    assert structure[..3] == [Scalar("PLU"), Scalar("name"), Scalar("SKU")];
    assert structure[..3][..2] == [Scalar("PLU"), Scalar("name")];
    assert structure[..3][..2][..1] == [Scalar("PLU")];
    assert structure[..3][..2][..1][..0] == [];
    assert Project(r1, ["SKU", "size"]) == map["SKU" := Some("S1"), "size" := Some("20")];
    assert Project(r2, ["SKU", "size"]) == map["SKU" := Some("S2"), "size" := Some("21")];
    assert MapGroup(g, structure[..3][..2][..1]) == map["PLU" := Value(Some("1"))];
    assert MapGroup(g, structure[..3][..2]) == map["PLU" := Value(Some("1")), "name" := Value(Some("Shoe"))];
    assert MapGroup(g, structure[..3]) == map[
      "PLU" := Value(Some("1")), "name" := Value(Some("Shoe")), "SKU" := Value(Some("S2"))];
    assert seq(2, i requires 0 <= i < 2 => Project(g[i], ["SKU", "size"]))
        == [map["SKU" := Some("S1"), "size" := Some("20")], map["SKU" := Some("S2"), "size" := Some("21")]];
  }
}
