/**
 * Grouping records that share the value of one field (`groupBy` and
 * `arrayGroupBy`): groups come in the order their key is first seen and keep
 * the records' arrival order.
 */
module Grouping {
  import opened Records

  /** The distinct grouping keys, in the order they first occur. */
  function FirstSeen(rs: seq<Record>, f: string): (ks: seq<string>)
    ensures forall i, j :: 0 <= i < j < |ks| ==> ks[i] != ks[j]
    ensures forall k :: k in ks <==> exists i :: 0 <= i < |rs| && KeyOf(rs[i], f) == k
  {
    if rs == [] then []
    else
      var ks := FirstSeen(rs[..|rs| - 1], f);
      var k := KeyOf(rs[|rs| - 1], f);
      assert forall i :: 0 <= i < |rs| - 1 ==> rs[..|rs| - 1][i] == rs[i];
      if k in ks then ks else ks + [k]
  }

  /** The records whose key is `k`, in arrival order. */
  function Members(rs: seq<Record>, f: string, k: string): (g: seq<Record>)
    ensures forall i :: 0 <= i < |g| ==> g[i] in rs && KeyOf(g[i], f) == k
  {
    if rs == [] then []
    else
      var last := rs[|rs| - 1];
      Members(rs[..|rs| - 1], f, k) + (if KeyOf(last, f) == k then [last] else [])
  }

  /** The groups of records sharing a key, indexed from 0 in first-seen key order. */
  function Groups(rs: seq<Record>, f: string): (gs: seq<seq<Record>>)
  {
    var ks := FirstSeen(rs, f);
    seq(|ks|, i requires 0 <= i < |ks| => Members(rs, f, ks[i]))
  }

  /** The groups joined back together, in order. */
  function Concat<T>(gs: seq<seq<T>>): seq<T>
  {
    if gs == [] then [] else Concat(gs[..|gs| - 1]) + gs[|gs| - 1]
  }

  /** Filtering distributes over concatenation: a group keeps arrival order. */
  lemma {:induction false} MembersAppend(a: seq<Record>, b: seq<Record>, f: string, k: string)
    ensures Members(a + b, f, k) == Members(a, f, k) + Members(b, f, k)
  {
    if b != [] {
      var n := |b|;
      assert (a + b)[..|a + b| - 1] == a + b[..n - 1];
      assert (a + b)[|a + b| - 1] == b[n - 1];
      MembersAppend(a, b[..n - 1], f, k);
    } else {
      assert a + b == a;
    }
  }

  /** Conversely, every record carrying key `k` is a member of its group. */
  lemma MembersComplete(rs: seq<Record>, f: string, k: string, i: nat)
    requires i < |rs| && KeyOf(rs[i], f) == k
    ensures rs[i] in Members(rs, f, k)
  {
    assert rs == rs[..i] + [rs[i]] + rs[i + 1..];
    MembersAppend(rs[..i] + [rs[i]], rs[i + 1..], f, k);
    MembersAppend(rs[..i], [rs[i]], f, k);
    assert [rs[i]][..0] == [];
  }

  /** A key that no record carries has no members. */
  lemma MembersAbsent(rs: seq<Record>, f: string, k: string)
    requires k !in FirstSeen(rs, f)
    ensures Members(rs, f, k) == []
  {
  }

  /** A record whose key is already seen joins the end of that key's group. */
  lemma GroupsSnocOld(p: seq<Record>, x: Record, f: string, q: nat)
    requires q < |FirstSeen(p, f)| && FirstSeen(p, f)[q] == KeyOf(x, f)
    ensures Groups(p + [x], f) == Groups(p, f)[q := Groups(p, f)[q] + [x]]
  {
    var rs := p + [x];
    assert rs[..|rs| - 1] == p;
    var ks, k := FirstSeen(p, f), KeyOf(x, f);
    assert rs[|rs| - 1] == x;
    assert FirstSeen(rs, f) == ks;
    forall i | 0 <= i < |ks|
      ensures Groups(rs, f)[i] == Groups(p, f)[q := Groups(p, f)[q] + [x]][i]
    {
      assert Members(rs, f, ks[i]) == Members(p, f, ks[i]) + (if ks[i] == k then [x] else []);
    }
  }

  /** A record with a new key opens a new group at the end. */
  lemma GroupsSnocNew(p: seq<Record>, x: Record, f: string)
    requires KeyOf(x, f) !in FirstSeen(p, f)
    ensures Groups(p + [x], f) == Groups(p, f) + [[x]]
  {
    var rs := p + [x];
    assert rs[..|rs| - 1] == p;
    var ks, k := FirstSeen(p, f), KeyOf(x, f);
    assert rs[|rs| - 1] == x;
    MembersAbsent(p, f, k);
    assert FirstSeen(rs, f) == ks + [k];
    forall i | 0 <= i < |ks| + 1
      ensures Groups(rs, f)[i] == (Groups(p, f) + [[x]])[i]
    {
      if i < |ks| {
        assert ks[i] != k;
        assert Members(rs, f, ks[i]) == Members(p, f, ks[i]);
      } else {
        assert Members(rs, f, k) == Members(p, f, k) + [x];
      }
    }
  }

  lemma {:induction false} ConcatUpdate<T>(gs: seq<seq<T>>, q: nat, x: T)
    requires q < |gs|
    ensures multiset(Concat(gs[q := gs[q] + [x]])) == multiset(Concat(gs)) + multiset{x}
  {
    var n := |gs|;
    var hs := gs[q := gs[q] + [x]];
    assert hs[..n - 1] == if q < n - 1 then gs[..n - 1][q := gs[q] + [x]] else gs[..n - 1];
    if q < n - 1 {
      ConcatUpdate(gs[..n - 1], q, x);
    }
  }

  /** Every group is non-empty. */
  lemma GroupsNonEmpty(rs: seq<Record>, f: string)
    ensures forall g :: 0 <= g < |Groups(rs, f)| ==> |Groups(rs, f)[g]| > 0
  {
    var gs := Groups(rs, f);
    var ks := FirstSeen(rs, f);
    forall g | 0 <= g < |gs| ensures |gs[g]| > 0 {
      assert ks[g] in ks;
      var i :| 0 <= i < |rs| && KeyOf(rs[i], f) == ks[g];
      assert rs == rs[..i] + [rs[i]] + rs[i + 1..];
      MembersAppend(rs[..i] + [rs[i]], rs[i + 1..], f, ks[g]);
      MembersAppend(rs[..i], [rs[i]], f, ks[g]);
      assert [rs[i]][..0] == [];
    }
  }

  /**
   * Every record of group g carries group g's key, and two records carry the
   * same key exactly when they are in the same group.
   */
  lemma GroupsKeyed(rs: seq<Record>, f: string)
    ensures |Groups(rs, f)| == |FirstSeen(rs, f)|
    ensures forall g, i :: 0 <= g < |Groups(rs, f)| && 0 <= i < |Groups(rs, f)[g]| ==>
              KeyOf(Groups(rs, f)[g][i], f) == FirstSeen(rs, f)[g]
    ensures var gs := Groups(rs, f);
            forall g, h, i, j :: 0 <= g < |gs| && 0 <= h < |gs| && 0 <= i < |gs[g]| && 0 <= j < |gs[h]| ==>
              (KeyOf(gs[g][i], f) == KeyOf(gs[h][j], f) <==> g == h)
  {
  }

  /** Joining the groups gives back exactly the input records: nothing lost, nothing duplicated. */
  lemma {:induction false} GroupsPermutation(rs: seq<Record>, f: string)
    ensures multiset(Concat(Groups(rs, f))) == multiset(rs)
  {
    if rs != [] {
      var p, x := rs[..|rs| - 1], rs[|rs| - 1];
      assert rs == p + [x];
      GroupsPermutation(p, f);
      if KeyOf(x, f) in FirstSeen(p, f) {
        var q :| 0 <= q < |FirstSeen(p, f)| && FirstSeen(p, f)[q] == KeyOf(x, f);
        GroupsSnocOld(p, x, f, q);
        ConcatUpdate(Groups(p, f), q, x);
      } else {
        GroupsSnocNew(p, x, f);
        assert (Groups(p, f) + [[x]])[..|Groups(p, f)|] == Groups(p, f);
      }
    }
  }

  /**
   * Groups come in first-seen order: for groups g < h, some record of group g
   * arrives before every record of group h.
   */
  lemma {:induction false} GroupsFirstSeenOrder(rs: seq<Record>, f: string, g: nat, h: nat)
    requires g < h < |FirstSeen(rs, f)|
    ensures exists i :: 0 <= i < |rs| && KeyOf(rs[i], f) == FirstSeen(rs, f)[g]
              && forall j :: 0 <= j <= i ==> KeyOf(rs[j], f) != FirstSeen(rs, f)[h]
  {
    var n := |rs|;
    var p, x := rs[..n - 1], rs[n - 1];
    var ks, all := FirstSeen(p, f), FirstSeen(rs, f);
    assert all == if KeyOf(x, f) in ks then ks else ks + [KeyOf(x, f)];
    assert forall j :: 0 <= j < n - 1 ==> p[j] == rs[j];
    if h < |ks| {
      assert all[g] == ks[g] && all[h] == ks[h];
      GroupsFirstSeenOrder(p, f, g, h);
      var i :| 0 <= i < |p| && KeyOf(p[i], f) == ks[g]
               && forall j :: 0 <= j <= i ==> KeyOf(p[j], f) != ks[h];
      assert KeyOf(rs[i], f) == all[g];
    } else {
      assert all[g] == ks[g] && all[h] == KeyOf(x, f) && KeyOf(x, f) !in ks;
      assert ks[g] in ks;
      var i :| 0 <= i < |p| && KeyOf(p[i], f) == ks[g];
      assert KeyOf(rs[i], f) == all[g];
      forall j | 0 <= j <= i ensures KeyOf(rs[j], f) != all[h] {
        assert KeyOf(p[j], f) in ks;
      }
    }
  }

}
