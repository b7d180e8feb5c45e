/** Format tables: ordered lists of string pairs, the Python dicts that map
    a source column to a record element (or back).  Python dicts keep
    insertion order and hold each key once. */
module Tables {

  /** No two entries share their second component. */
  predicate DistinctSeconds(t: seq<(string, string)>) {
    forall j, k :: 0 <= j < k < |t| ==> t[j].1 != t[k].1
  }

  /** No two entries share their first component. */
  predicate DistinctFirsts(t: seq<(string, string)>) {
    forall j, k :: 0 <= j < k < |t| ==> t[j].0 != t[k].0
  }

  function Firsts(t: seq<(string, string)>): set<string> {
    set k | 0 <= k < |t| :: t[k].0
  }

  function Seconds(t: seq<(string, string)>): set<string> {
    set k | 0 <= k < |t| :: t[k].1
  }

  /** Python's `d.get(key, [])` on a table of code lists. */
  function CodesFor(codes: map<string, seq<string>>, key: string): seq<string> {
    if key in codes then codes[key] else []
  }

  /** Two distinct names of a table usually differ in length or in their
      first, second or last character; when that holds for every pair the
      names are distinct. */
  lemma SecondsDiffer(t: seq<(string, string)>)
    requires forall k :: 0 <= k < |t| ==> |t[k].1| >= 2
    requires forall j, k :: 0 <= j < k < |t| ==>
      var a, b := t[j].1, t[k].1;
      |a| != |b| || a[0] != b[0] || a[1] != b[1] || a[|a| - 1] != b[|b| - 1]
    ensures DistinctSeconds(t)
  {
  }

  lemma FirstsDiffer(t: seq<(string, string)>)
    requires forall k :: 0 <= k < |t| ==> |t[k].0| >= 2
    requires forall j, k :: 0 <= j < k < |t| ==>
      var a, b := t[j].0, t[k].0;
      |a| != |b| || a[0] != b[0] || a[1] != b[1] || a[|a| - 1] != b[|b| - 1]
    ensures DistinctFirsts(t)
  {
  }
}
