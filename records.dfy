/**
 * Records: one CSV row paired with the header, as `array_combine` builds it,
 * and the two ways the pipeline reads a field out of a record.
 */
module Records {
  import opened Wrappers

  /** A record maps each header name to the row's value at that position. */
  type Record = map<string, string>

  /**
   * Reading `$record[$field]`: a missing field yields PHP null.
   */
  function Lookup(r: Record, f: string): Option<string>
  {
    if f in r then Some(r[f]) else None
  }

  /**
   * A field read used as an array key or compared loosely with strings:
   * PHP null then behaves as the empty string.
   */
  function KeyOf(r: Record, f: string): string
  {
    if f in r then r[f] else ""
  }

  /**
   * `array_combine(keys, values)`: pairs keys and values by position, a later
   * duplicate key overwriting an earlier one.
   */
  function Combine(ks: seq<string>, vs: seq<string>): (r: Record)
    requires |ks| == |vs|
    ensures r.Keys == set k | k in ks
  {
    if ks == [] then map[]
    else Combine(ks[..|ks| - 1], vs[..|vs| - 1])[ks[|ks| - 1] := vs[|vs| - 1]]
  }

  /** The value stored under a key is the one at the key's last position. */
  lemma {:induction false} CombineAt(ks: seq<string>, vs: seq<string>, j: nat)
    requires |ks| == |vs| && j < |ks|
    requires forall i :: j < i < |ks| ==> ks[i] != ks[j]
    ensures ks[j] in Combine(ks, vs) && Combine(ks, vs)[ks[j]] == vs[j]
  {
    var n := |ks|;
    if j < n - 1 {
      CombineAt(ks[..n - 1], vs[..n - 1], j);
    }
  }

  /** With a duplicate-free header, the record pairs every key with its own column. */
  lemma CombineDistinct(ks: seq<string>, vs: seq<string>)
    requires |ks| == |vs|
    requires forall i, j :: 0 <= i < j < |ks| ==> ks[i] != ks[j]
    ensures forall j :: 0 <= j < |ks| ==> ks[j] in Combine(ks, vs) && Combine(ks, vs)[ks[j]] == vs[j]
  {
    forall j | 0 <= j < |ks|
      ensures ks[j] in Combine(ks, vs) && Combine(ks, vs)[ks[j]] == vs[j]
    {
      CombineAt(ks, vs, j);
    }
  }
}
