/**
 * Ordering rules (`addRule`) and the rank `sortByRule` compares by: the
 * position of a record's comparison value in its rule's list, as
 * `array_search` finds it.
 */
module Rules {
  import opened Wrappers
  import opened Records
  import StableSort

  /** A rule: the field to compare and the canonical order of its values. */
  datatype Rule = Rule(field: string, order: seq<string>)

  /** The registry, keyed by rule name (the discriminator value of a record). */
  type RuleSet = map<string, Rule>

  /** `array_search(v, order)`: the first index holding `v`, or not found. */
  function IndexOf(order: seq<string>, v: string): (r: Option<nat>)
    ensures r.Some? ==> r.value < |order| && order[r.value] == v
                        && forall j :: 0 <= j < r.value ==> order[j] != v
    ensures r.None? <==> v !in order
  {
    if order == [] then None
    else if order[0] == v then Some(0)
    else match IndexOf(order[1..], v)
      case None => None
      case Some(i) => Some(i + 1)
  }

  /** The search result as the comparator subtracts it: not found (false) counts as 0. */
  function Position(order: seq<string>, v: string): nat
  {
    match IndexOf(order, v)
    case Some(i) => i
    case None => 0
  }

  /** The rank of a record under the rule its discriminator value names. */
  function Rank(rules: RuleSet, discriminator: string, r: Record): int
  {
    var name := KeyOf(r, discriminator);
    if name in rules then Position(rules[name].order, KeyOf(r, rules[name].field)) else 0
  }

  function RankBy(rules: RuleSet, discriminator: string): Record -> int
  {
    r => Rank(rules, discriminator, r)
  }

  /**
   * A group sorts without error: a group of fewer than two records is never
   * compared; otherwise every record takes part in some comparison, and one
   * whose discriminator names no rule raises.
   */
  predicate Sortable(rules: RuleSet, discriminator: string, g: seq<Record>)
  {
    |g| < 2 || forall i :: 0 <= i < |g| ==> KeyOf(g[i], discriminator) in rules
  }

  /** `usort` of one group with the rule comparator. */
  function SortGroup(rules: RuleSet, discriminator: string, g: seq<Record>): seq<Record>
  {
    StableSort.SortBy(g, RankBy(rules, discriminator))
  }

  /** The rank is the first index of the comparison value in the record's rule. */
  lemma RankFirstMatch(rules: RuleSet, discriminator: string, r: Record)
    requires KeyOf(r, discriminator) in rules
    ensures var rule := rules[KeyOf(r, discriminator)];
            var v := KeyOf(r, rule.field);
            var k := Rank(rules, discriminator, r);
            && 0 <= k
            && (v in rule.order ==> k < |rule.order| && rule.order[k] == v
                                    && forall j :: 0 <= j < k ==> rule.order[j] != v)
            && (v !in rule.order ==> k == 0)
  {
  }

  /**
   * A sorted group is a permutation of the group, in non-decreasing rank,
   * and records of equal rank keep their relative order.
   */
  lemma SortGroupCorrect(rules: RuleSet, discriminator: string, g: seq<Record>)
    ensures |SortGroup(rules, discriminator, g)| == |g|
    ensures multiset(SortGroup(rules, discriminator, g)) == multiset(g)
    ensures var s := SortGroup(rules, discriminator, g);
            forall i, j :: 0 <= i < j < |s| ==> Rank(rules, discriminator, s[i]) <= Rank(rules, discriminator, s[j])
    ensures forall k :: StableSort.WithRank(SortGroup(rules, discriminator, g), RankBy(rules, discriminator), k)
                        == StableSort.WithRank(g, RankBy(rules, discriminator), k)
  {
    var rank := RankBy(rules, discriminator);
    StableSort.SortByCorrect(g, rank);
    var s := SortGroup(rules, discriminator, g);
    assert |s| == |multiset(s)| == |multiset(g)| == |g|;
    forall i, j | 0 <= i < j < |s|
      ensures Rank(rules, discriminator, s[i]) <= Rank(rules, discriminator, s[j])
    {
      assert rank(s[i]) <= rank(s[j]);
    }
  }

  /** Two EU shoe sizes 22 and 20 under the list 20, 21, 22 sort to 20, 22. */
  lemma ShoeSizeExample()
    ensures var rules := map["SHOE_EU" := Rule("size", ["20", "21", "22"])];
            var a := map["sizeSort" := "SHOE_EU", "size" := "22"];
            var b := map["sizeSort" := "SHOE_EU", "size" := "20"];
            Sortable(rules, "sizeSort", [a, b]) && SortGroup(rules, "sizeSort", [a, b]) == [b, a]
  {
    var rules := map["SHOE_EU" := Rule("size", ["20", "21", "22"])];
    var a := map["sizeSort" := "SHOE_EU", "size" := "22"];
    var b := map["sizeSort" := "SHOE_EU", "size" := "20"];
    assert IndexOf(["20", "21", "22"], "20") == Some(0);
    assert ["20", "21", "22"][1..] == ["21", "22"];
    assert ["21", "22"][1..] == ["22"];
    assert IndexOf(["20", "21", "22"], "22") == Some(2);
    assert Rank(rules, "sizeSort", a) == 2;
    assert Rank(rules, "sizeSort", b) == 0;
    assert [a, b][..1] == [a];
    assert [a][..0] == [];
    var rank := RankBy(rules, "sizeSort");
    assert rank(a) == 2 && rank(b) == 0;
    assert StableSort.SortBy([a], rank) == [a];
    assert StableSort.Insert([], b, rank) == [b];
    assert StableSort.Insert([a], b, rank) == [b, a];
    assert [a, b][1] == b;
  }
}
