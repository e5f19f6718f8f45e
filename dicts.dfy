/** Python dictionaries as insertion-ordered association lists. Iteration
    order matters to the modelled code (the differencer reports in the order
    it walks a dictionary), so a Dafny `map` is not enough. */
module Dicts {
  import opened Wrappers
  import opened Text

  type Dict<K, V> = seq<(K, V)>

  function Keys<K, V>(d: Dict<K, V>): (ks: seq<K>)
    ensures |ks| == |d|
    ensures forall i :: 0 <= i < |d| ==> ks[i] == d[i].0
  {
    seq(|d|, i requires 0 <= i < |d| => d[i].0)
  }

  /** What every real dictionary satisfies: no key twice. */
  predicate Unique<K(==), V>(d: Dict<K, V>) {
    forall i, j :: 0 <= i < j < |d| ==> d[i].0 != d[j].0
  }

  /** `d.get(k)`: the value stored under `k`, if any. */
  function Get<K(==), V>(d: Dict<K, V>, k: K): (r: Option<V>)
    ensures r.Some? <==> k in Keys(d)
    ensures r.Some? ==> exists i :: 0 <= i < |d| && d[i] == (k, r.value)
  {
    if |d| == 0 then None
    else if d[0].0 == k then Some(d[0].1)
    else
      var r := Get(d[1..], k);
      assert Keys(d) == [d[0].0] + Keys(d[1..]);
      assert r.Some? ==> exists i :: 0 <= i < |d[1..]| && d[1..][i] == (k, r.value);
      r
  }

  /** In a dictionary without repeated keys, the value of a stored pair is what `Get` finds. */
  lemma {:induction false} GetAt<K, V>(d: Dict<K, V>, i: nat)
    requires Unique(d) && i < |d|
    ensures Get(d, d[i].0) == Some(d[i].1)
  {
    if i > 0 {
      GetAt(d[1..], i - 1);
    }
  }

  /** `d[k] = v`: overwrite in place when present, append otherwise. */
  function Put<K(==), V>(d: Dict<K, V>, k: K, v: V): (r: Dict<K, V>)
    ensures k in Keys(d) ==> Keys(r) == Keys(d)
    ensures k !in Keys(d) ==> Keys(r) == Keys(d) + [k]
  {
    if |d| == 0 then [(k, v)]
    else if d[0].0 == k then
      assert Keys([(k, v)] + d[1..]) == [k] + Keys(d[1..]);
      assert Keys(d) == [k] + Keys(d[1..]);
      [(k, v)] + d[1..]
    else
      var rest := Put(d[1..], k, v);
      assert Keys([d[0]] + rest) == [d[0].0] + Keys(rest);
      assert Keys(d) == [d[0].0] + Keys(d[1..]);
      [d[0]] + rest
  }

  lemma {:induction false} GetPut<K, V>(d: Dict<K, V>, k: K, v: V, k': K)
    ensures Get(Put(d, k, v), k') == if k' == k then Some(v) else Get(d, k')
  {
    if |d| > 0 && d[0].0 != k {
      GetPut(d[1..], k, v, k');
    }
  }

  lemma PutUnique<K, V>(d: Dict<K, V>, k: K, v: V)
    requires Unique(d)
    ensures Unique(Put(d, k, v))
  {
    var r := Put(d, k, v);
    forall i, j | 0 <= i < j < |r| ensures r[i].0 != r[j].0 {
      assert Keys(r)[i] == r[i].0 && Keys(r)[j] == r[j].0;
      if k !in Keys(d) && j == |d| {
        assert Keys(d)[i] == r[i].0;
      } else {
        assert Keys(d)[i] == r[i].0 && Keys(d)[j] == r[j].0;
      }
    }
  }

  /** `d.update(e)` (and `dict(e)` from an empty `d`): the pairs of `e` put in order. */
  function Update<K(==), V>(d: Dict<K, V>, e: seq<(K, V)>): Dict<K, V> {
    if |e| == 0 then d else Put(Update(d, e[..|e| - 1]), e[|e| - 1].0, e[|e| - 1].1)
  }

  /** The value the last pair with key `k` in `e` carries. */
  function LastGet<K(==), V>(e: seq<(K, V)>, k: K): Option<V> {
    if |e| == 0 then None
    else if e[|e| - 1].0 == k then Some(e[|e| - 1].1)
    else LastGet(e[..|e| - 1], k)
  }

  /** After `d.update(e)`, a key holds the value of its last pair in `e`, or
      its old value when `e` does not mention it. */
  lemma {:induction false} GetUpdate<K, V>(d: Dict<K, V>, e: seq<(K, V)>, k: K)
    ensures Get(Update(d, e), k) == if LastGet(e, k).Some? then LastGet(e, k) else Get(d, k)
  {
    if |e| > 0 {
      GetUpdate(d, e[..|e| - 1], k);
      GetPut(Update(d, e[..|e| - 1]), e[|e| - 1].0, e[|e| - 1].1, k);
    }
  }

  lemma {:induction false} UpdateUnique<K, V>(d: Dict<K, V>, e: seq<(K, V)>)
    requires Unique(d)
    ensures Unique(Update(d, e))
  {
    if |e| > 0 {
      UpdateUnique(d, e[..|e| - 1]);
      PutUnique(Update(d, e[..|e| - 1]), e[|e| - 1].0, e[|e| - 1].1);
    }
  }

  /** Two dictionaries with the same contents, whatever their order. */
  ghost predicate SameContents<K(!new), V>(a: Dict<K, V>, b: Dict<K, V>) {
    forall k :: Get(a, k) == Get(b, k)
  }

  lemma {:induction false} PutAbsent<K, V>(d: Dict<K, V>, k: K, v: V)
    requires k !in Keys(d)
    ensures Put(d, k, v) == d + [(k, v)]
  {
    if |d| > 0 {
      assert Keys(d) == [d[0].0] + Keys(d[1..]);
      PutAbsent(d[1..], k, v);
      assert d == [d[0]] + d[1..];
    }
  }

  /** `dict(pairs)` of a list without repeated keys is that list. */
  lemma {:induction false} UpdateFromEmpty<K, V>(d: Dict<K, V>)
    requires Unique(d)
    ensures Update([], d) == d
  {
    if |d| > 0 {
      var n := |d| - 1;
      UpdateFromEmpty(d[..n]);
      assert d[n].0 !in Keys(d[..n]) by {
        forall i | 0 <= i < n
          ensures Keys(d[..n])[i] != d[n].0
        {
        }
      }
      PutAbsent(d[..n], d[n].0, d[n].1);
      assert d[..n] + [d[n]] == d;
    }
  }

  /** The `NAME=value` pairs of an environment list, split at the first '='. */
  function EnvPairs(vars: seq<string>): Result<seq<(string, string)>> {
    if |vars| == 0 then Ok([])
    else
      var parts := SplitOnce(vars[0], '=');
      if |parts| != 2 then Err(ValueError("dictionary update sequence element has length 1"))
      else
        var rest :- EnvPairs(vars[1..]);
        Ok([(parts[0], parts[1])] + rest)
  }

  /** `dict(var.split('=', 1) for var in vars)`: a later assignment of a name wins;
      an entry without '=' raises ValueError. */
  function EnvFromVars(vars: seq<string>): Result<Dict<string, string>> {
    var pairs :- EnvPairs(vars);
    Ok(Update([], pairs))
  }

  /** The same over a list Docker may report as null: iterating None raises TypeError. */
  function EnvFromList(vars: Option<seq<string>>): Result<Dict<string, string>> {
    match vars
    case None => Err(TypeError("'NoneType' object is not iterable"))
    case Some(v) => EnvFromVars(v)
  }

  /** The `NAME=value` list that describes an environment. */
  function EnvVars(d: Dict<string, string>): seq<string> {
    if |d| == 0 then [] else [d[0].0 + "=" + d[0].1] + EnvVars(d[1..])
  }

  lemma {:induction false} EnvPairsOfVars(d: Dict<string, string>)
    requires forall i :: 0 <= i < |d| ==> '=' !in d[i].0
    ensures EnvPairs(EnvVars(d)) == Ok(d)
  {
    if |d| > 0 {
      EnvPairsOfVars(d[1..]);
      var v := d[0].0 + "=" + d[0].1;
      assert EnvVars(d)[0] == v && EnvVars(d)[1..] == EnvVars(d[1..]);
      assert '=' in v by { assert v[|d[0].0|] == '='; }
      var parts := SplitOnce(v, '=');
      assert parts[0] + "=" + parts[1] == v;
      PieceUnique(parts[0], parts[1], d[0].0, d[0].1, '=');
      assert d == [d[0]] + d[1..];
    }
  }

  /** Reading back the `NAME=value` list of an environment gives the environment. */
  lemma EnvRoundTrip(d: Dict<string, string>)
    requires Unique(d)
    requires forall i :: 0 <= i < |d| ==> '=' !in d[i].0
    ensures EnvFromVars(EnvVars(d)) == Ok(d)
  {
    EnvPairsOfVars(d);
    UpdateFromEmpty(d);
  }

  lemma {:induction false} LastGetUnique<K, V>(e: Dict<K, V>, k: K)
    requires Unique(e)
    ensures LastGet(e, k) == Get(e, k)
  {
    if |e| > 0 {
      var n := |e| - 1;
      LastGetUnique(e[..n], k);
      if e[n].0 == k {
        GetAt(e, n);
      } else {
        GetPrefix(e, n, k);
      }
    }
  }

  lemma {:induction false} GetPrefix<K, V>(e: Dict<K, V>, n: nat, k: K)
    requires n < |e| && e[n].0 != k && n == |e| - 1
    ensures Get(e, k) == Get(e[..n], k)
  {
    if n > 0 && e[0].0 != k {
      assert e[1..][..n - 1] == e[..n][1..];
      GetPrefix(e[1..], n - 1, k);
    }
  }

  /** The last pair for a key in `a + b` is the last one in `b`, or else in `a`. */
  lemma {:induction false} LastGetConcat<K, V>(a: seq<(K, V)>, b: seq<(K, V)>, k: K)
    ensures LastGet(a + b, k) == if LastGet(b, k).Some? then LastGet(b, k) else LastGet(a, k)
  {
    if |b| > 0 {
      assert (a + b)[..|a + b| - 1] == a + b[..|b| - 1];
      LastGetConcat(a, b[..|b| - 1], k);
    } else {
      assert a + b == a;
    }
  }
}
