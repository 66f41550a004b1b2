/** The `status_data` dictionary of the live-status server and the JSON
    values `/update_status` receives. A Python `dict` keeps its keys in
    insertion order (the order shows in the printed `STATUS` event), so it
    is an association list here: assigning to a present key replaces its
    value in place, assigning to a new key appends it. */
module StatusDict {
  import opened Seqs
  import opened Wrappers

  /** A parsed JSON document (numbers as reals: Python's int/float split is
      not modelled). An object keeps its members in document order,
      duplicates included. */
  datatype Json =
    | JNull
    | JBool(b: bool)
    | JNumber(n: real)
    | JString(s: string)
    | JArray(elems: seq<Json>)
    | JObject(members: seq<(string, Json)>)

  type Dict = seq<(string, Json)>

  function Keys(d: Dict): (ks: seq<string>)
    ensures |ks| == |d|
  {
    seq(|d|, i requires 0 <= i < |d| => d[i].0)
  }

  /** No key occurs twice: the association list is a dictionary. */
  ghost predicate UniqueKeys(d: Dict)
  {
    Distinct(Keys(d))
  }

  /** `d.get(k)`. */
  function Get(d: Dict, k: string): (r: Option<Json>)
    ensures r.Some? <==> k in Keys(d)
    decreases |d|
  {
    if d == [] then None
    else
      assert Keys(d) == [d[0].0] + Keys(d[1..]);
      if d[0].0 == k then Some(d[0].1) else Get(d[1..], k)
  }

  /** `d[k] = v`: a present key is assigned in place, a new one is added. */
  function Put(d: Dict, k: string, v: Json): (r: Dict)
    ensures |r| == if k in Keys(d) then |d| else |d| + 1
    decreases |d|
  {
    if d == [] then [(k, v)]
    else
      assert Keys(d) == [d[0].0] + Keys(d[1..]);
      if d[0].0 == k then [(k, v)] + d[1..]
      else [d[0]] + Put(d[1..], k, v)
  }

  /** Property: after `d[k] = v`, `k` maps to `v` and every other key keeps
      its value. */
  lemma {:induction false} PutGet(d: Dict, k: string, v: Json, k': string)
    ensures Get(Put(d, k, v), k') == if k' == k then Some(v) else Get(d, k')
    decreases |d|
  {
    if d != [] && d[0].0 != k {
      PutGet(d[1..], k, v, k');
      assert ([d[0]] + Put(d[1..], k, v))[1..] == Put(d[1..], k, v);
    }
  }

  /** Property: a present key keeps its place, a new key goes last. */
  lemma {:induction false} PutKeys(d: Dict, k: string, v: Json)
    ensures Keys(Put(d, k, v)) == if k in Keys(d) then Keys(d) else Keys(d) + [k]
    decreases |d|
  {
    if d != [] {
      assert d == [d[0]] + d[1..];
      KeysCons(d[0], d[1..]);
      if d[0].0 != k {
        PutKeys(d[1..], k, v);
        KeysCons(d[0], Put(d[1..], k, v));
      } else {
        KeysCons((k, v), d[1..]);
      }
    }
  }

  lemma KeysCons(x: (string, Json), d: Dict)
    ensures Keys([x] + d) == [x.0] + Keys(d)
  {
  }

  lemma PutUnique(d: Dict, k: string, v: Json)
    requires UniqueKeys(d)
    ensures UniqueKeys(Put(d, k, v))
  {
    PutKeys(d, k, v);
  }

  /** `d.update(e)`: the members of `e` assigned one after the other. */
  function Merge(d: Dict, e: seq<(string, Json)>): (r: Dict)
    ensures |d| <= |r| <= |d| + |e|
    decreases |e|
  {
    if e == [] then d
    else Put(Merge(d, e[..|e| - 1]), e[|e| - 1].0, e[|e| - 1].1)
  }

  /** The value the last member of `e` named `k` carries, if any: what a JSON
      object with repeated names holds once parsed. */
  function Latest(e: seq<(string, Json)>, k: string): (r: Option<Json>)
    ensures r.Some? <==> k in Keys(e)
    decreases |e|
  {
    if e == [] then None
    else
      assert Keys(e) == Keys(e[..|e| - 1]) + [e[|e| - 1].0];
      if e[|e| - 1].0 == k then Some(e[|e| - 1].1) else Latest(e[..|e| - 1], k)
  }

  /** Property: once the body is merged, each of its keys maps to the
      body's value and every other key keeps its old value. */
  lemma {:induction false} MergeGet(d: Dict, e: seq<(string, Json)>, k: string)
    ensures Get(Merge(d, e), k) == if k in Keys(e) then Latest(e, k) else Get(d, k)
    decreases |e|
  {
    if e != [] {
      var init := e[..|e| - 1];
      MergeGet(d, init, k);
      PutGet(Merge(d, init), e[|e| - 1].0, e[|e| - 1].1, k);
      assert Keys(e) == Keys(init) + [e[|e| - 1].0];
    }
  }

  /** Without repeated names, the value that wins is simply the member's. */
  lemma {:induction false} LatestUnique(e: seq<(string, Json)>, k: string)
    requires UniqueKeys(e)
    ensures Latest(e, k) == Get(e, k)
    decreases |e|
  {
    if e != [] {
      var init := e[..|e| - 1];
      assert Keys(e) == Keys(init) + [e[|e| - 1].0];
      assert Keys(e)[..|e| - 1] == Keys(init);
      LatestUnique(init, k);
      assert e == init + [e[|e| - 1]];
      GetSnoc(init, e[|e| - 1], k);
      if e[|e| - 1].0 == k {
        assert k !in Keys(init) by {
          forall i | 0 <= i < |init| ensures Keys(init)[i] != k {
            assert Keys(e)[i] != Keys(e)[|e| - 1];
          }
        }
      }
    }
  }

  /** Looking up in a list with one more member at the end. */
  lemma {:induction false} GetSnoc(d: Dict, m: (string, Json), k: string)
    ensures Get(d + [m], k) == if k in Keys(d) then Get(d, k) else if m.0 == k then Some(m.1) else None
    decreases |d|
  {
    if d != [] {
      assert (d + [m])[1..] == d[1..] + [m];
      assert Keys(d) == [d[0].0] + Keys(d[1..]);
      GetSnoc(d[1..], m, k);
    }
  }

  /** Property: the old keys keep their places at the front, the new keys
      follow, and the result is still a dictionary. */
  lemma {:induction false} MergeKeys(d: Dict, e: seq<(string, Json)>)
    requires UniqueKeys(d)
    ensures Keys(d) <= Keys(Merge(d, e))
    ensures forall k :: k in Keys(Merge(d, e)) <==> k in Keys(d) || k in Keys(e)
    ensures UniqueKeys(Merge(d, e))
    decreases |e|
  {
    if e != [] {
      var init, m := e[..|e| - 1], e[|e| - 1];
      var prev := Merge(d, init);
      MergeKeys(d, init);
      assert Keys(e) == Keys(init) + [m.0];
      PutKeys(prev, m.0, m.1);
      PutUnique(prev, m.0, m.1);
      assert Keys(prev) <= Keys(Merge(d, e));
    }
  }
}
