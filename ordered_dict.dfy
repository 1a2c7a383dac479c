/** Python dictionaries as insertion-ordered association lists.

    A Python `dict` remembers the order in which keys were first inserted;
    assigning to an existing key replaces its value in place and keeps its
    position.  `Put` is that assignment, `Get` is `d.get(k)`, `Keys` and
    `Values` are `d.keys()` and `d.values()` in iteration order, and
    `FromPairs` evaluates a dict display `{k1: v1, k2: v2, ...}` in which a
    repeated key keeps its first position and takes its last value. */
module OrderedDict {
  import opened Wrappers
  import opened Sequences

  type Dict<K, V> = seq<(K, V)>

  function Keys<K, V>(d: Dict<K, V>): (ks: seq<K>)
    ensures |ks| == |d|
    ensures forall i :: 0 <= i < |d| ==> ks[i] == d[i].0
  {
    if d == [] then [] else [d[0].0] + Keys(d[1..])
  }

  function Values<K, V>(d: Dict<K, V>): (vs: seq<V>)
    ensures |vs| == |d|
    ensures forall i :: 0 <= i < |d| ==> vs[i] == d[i].1
  {
    if d == [] then [] else [d[0].1] + Values(d[1..])
  }

  /** Every key occurs at most once, as in a real dictionary. */
  ghost predicate UniqueKeys<K, V>(d: Dict<K, V>) {
    forall i, j :: 0 <= i < j < |d| ==> d[i].0 != d[j].0
  }

  /** The position of the first entry whose key is `k`. */
  function IndexOf<K(==), V>(d: Dict<K, V>, k: K): (r: Option<nat>)
    ensures r.Some? ==> r.value < |d| && d[r.value].0 == k
    ensures r.Some? ==> forall j :: 0 <= j < r.value ==> d[j].0 != k
    ensures r.None? <==> k !in Keys(d)
  {
    if d == [] then None
    else if d[0].0 == k then Some(0)
    else match IndexOf(d[1..], k)
      case Some(i) => Some(i + 1)
      case None => None
  }

  /** The first entry with key `k` is the one `IndexOf` finds. */
  lemma IndexOfAt<K, V>(d: Dict<K, V>, k: K, i: nat)
    requires i < |d| && d[i].0 == k
    requires forall j :: 0 <= j < i ==> d[j].0 != k
    ensures IndexOf(d, k) == Some(i)
  {
    assert k in Keys(d) by { assert Keys(d)[i] == k; }
  }

  /** `d.get(k)`: the value stored under `k`, if any. */
  function Get<K(==), V>(d: Dict<K, V>, k: K): (r: Option<V>)
    ensures r.Some? <==> k in Keys(d)
    ensures r.Some? ==> (k, r.value) in d
    ensures UniqueKeys(d) ==> forall i :: 0 <= i < |d| && d[i].0 == k ==> r == Some(d[i].1)
  {
    match IndexOf(d, k)
    case Some(i) => Some(d[i].1)
    case None => None
  }

  /** `d[k] = v`: an existing key keeps its position, a new key goes last. */
  function Put<K(==), V>(d: Dict<K, V>, k: K, v: V): (r: Dict<K, V>)
    ensures k in Keys(d) ==> |r| == |d|
    ensures k !in Keys(d) ==> r == d + [(k, v)]
    ensures Get(r, k) == Some(v)
    ensures Keys(r) == if k in Keys(d) then Keys(d) else Keys(d) + [k]
    ensures UniqueKeys(d) ==> UniqueKeys(r)
    ensures forall e :: e in r ==> e in d || e == (k, v)
  {
    match IndexOf(d, k)
    case Some(i) =>
      PutExisting(d, k, v, i);
      d[i := (k, v)]
    case None =>
      PutNew(d, k, v);
      d + [(k, v)]
  }

  /** Assigning to a key at position `i` rewrites that entry alone. */
  lemma PutExisting<K, V>(d: Dict<K, V>, k: K, v: V, i: nat)
    requires IndexOf(d, k) == Some(i)
    ensures var r := d[i := (k, v)];
      && Get(r, k) == Some(v)
      && Keys(r) == Keys(d)
      && (UniqueKeys(d) ==> UniqueKeys(r))
      && (forall e :: e in r ==> e in d || e == (k, v))
  {
    var r := d[i := (k, v)];
    IndexOfAt(r, k, i);
    assert Keys(r) == Keys(d);
  }

  /** Assigning to a new key appends an entry. */
  lemma PutNew<K, V>(d: Dict<K, V>, k: K, v: V)
    requires IndexOf(d, k) == None
    ensures var r := d + [(k, v)];
      && Get(r, k) == Some(v)
      && Keys(r) == Keys(d) + [k]
      && (UniqueKeys(d) ==> UniqueKeys(r))
      && (forall e :: e in r ==> e in d || e == (k, v))
  {
    IndexOfAt(d + [(k, v)], k, |d|);
    KeysSnoc(d, k, v);
    if UniqueKeys(d) {
      UniqueKeysSnoc(d, k, v);
    }
    MembersSnoc(d, (k, v));
  }

  lemma KeysSnoc<K, V>(d: Dict<K, V>, k: K, v: V)
    ensures Keys(d + [(k, v)]) == Keys(d) + [k]
  {
    assert Keys(d + [(k, v)]) == Keys(d) + [k];
  }

  lemma UniqueKeysSnoc<K, V>(d: Dict<K, V>, k: K, v: V)
    requires UniqueKeys(d) && k !in Keys(d)
    ensures UniqueKeys(d + [(k, v)])
  {
    var r := d + [(k, v)];
    forall i, j | 0 <= i < j < |r| ensures r[i].0 != r[j].0 {
      if j == |d| {
        assert Keys(d)[i] == d[i].0;
      }
    }
  }

  /** Writing one key leaves what every other key reads unchanged. */
  lemma GetPutOther<K, V>(d: Dict<K, V>, k: K, v: V, k': K)
    requires k' != k
    ensures Get(Put(d, k, v), k') == Get(d, k')
  {
    var r := Put(d, k, v);
    match IndexOf(d, k')
    case None =>
    case Some(i) =>
      assert r[i] == d[i];
      IndexOfAt(r, k', i);
  }

  /** The value a dict display gives key `k`: that of its last occurrence. */
  function LastValue<K(==), V>(ps: seq<(K, V)>, k: K): Option<V> {
    if ps == [] then None
    else if ps[|ps| - 1].0 == k then Some(ps[|ps| - 1].1)
    else LastValue(ps[..|ps| - 1], k)
  }

  /** Occurrences after position `n` that do not mention `k` do not change
      the value the display gives it. */
  lemma {:induction false} LastValueSkipsSuffix<K, V>(ps: seq<(K, V)>, n: nat, k: K)
    requires n <= |ps|
    requires forall i :: n <= i < |ps| ==> ps[i].0 != k
    ensures LastValue(ps, k) == LastValue(ps[..n], k)
    decreases |ps|
  {
    if |ps| > n {
      var init := ps[..|ps| - 1];
      assert init[..n] == ps[..n];
      LastValueSkipsSuffix(init, n, k);
    } else {
      assert ps[..n] == ps;
    }
  }

  /** In a dict display, a key takes the value of its last occurrence. */
  lemma GetFromPairsAt<K, V>(ps: seq<(K, V)>, n: nat, k: K, v: V)
    requires n < |ps| && ps[n] == (k, v)
    requires forall i :: n < i < |ps| ==> ps[i].0 != k
    ensures Get(FromPairs(ps), k) == Some(v)
  {
    var pre := ps[..n + 1];
    assert pre[|pre| - 1] == (k, v);
    assert LastValue(pre, k) == Some(v);
    LastValueSkipsSuffix(ps, n + 1, k);
    GetFromPairs(ps, k);
  }

  /** The dict display `{ps[0].0: ps[0].1, ps[1].0: ps[1].1, ...}`. */
  function FromPairs<K(==), V>(ps: seq<(K, V)>): (d: Dict<K, V>)
    ensures UniqueKeys(d)
    ensures forall e :: e in d ==> e in ps
  {
    if ps == [] then []
    else
      var init := ps[..|ps| - 1];
      var d := Put(FromPairs(init), ps[|ps| - 1].0, ps[|ps| - 1].1);
      assert forall e :: e in init ==> e in ps;
      d
  }

  /** A dict display keeps the last value written for each key. */
  lemma {:induction false} GetFromPairs<K, V>(ps: seq<(K, V)>, k: K)
    ensures Get(FromPairs(ps), k) == LastValue(ps, k)
  {
    if ps != [] {
      GetFromPairs(ps[..|ps| - 1], k);
      if ps[|ps| - 1].0 != k {
        GetPutOther(FromPairs(ps[..|ps| - 1]), ps[|ps| - 1].0, ps[|ps| - 1].1, k);
      }
    }
  }

  /** Evaluating a display with one more item is one more assignment. */
  lemma FromPairsSnoc<K, V>(ps: seq<(K, V)>, k: K, v: V)
    ensures FromPairs(ps + [(k, v)]) == Put(FromPairs(ps), k, v)
  {
    assert (ps + [(k, v)])[..|ps|] == ps;
  }

  /** The keys of a dict display are exactly the keys written in it. */
  lemma {:induction false} KeysFromPairs<K, V>(ps: seq<(K, V)>, k: K)
    ensures k in Keys(FromPairs(ps)) <==> exists i :: 0 <= i < |ps| && ps[i].0 == k
  {
    if ps != [] {
      var init := ps[..|ps| - 1];
      KeysFromPairs(init, k);
      if exists i :: 0 <= i < |ps| && ps[i].0 == k {
        var i :| 0 <= i < |ps| && ps[i].0 == k;
        if i < |ps| - 1 {
          assert init[i].0 == k;
        }
      }
      if exists i :: 0 <= i < |init| && init[i].0 == k {
        var i :| 0 <= i < |init| && init[i].0 == k;
        assert ps[i].0 == k;
      }
    }
  }
}
