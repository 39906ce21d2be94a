/** PHP arrays as the audit presentation code uses them.

    A PHP array with string keys is an ordered map: its entries keep the order in
    which their keys were first inserted, and each key occurs at most once. It is
    modelled here as a sequence of (key, value) entries with distinct keys. A
    list (`array_keys(...)`) is a plain sequence: its keys are its positions.
 */
module PhpArrays {

  predicate DistinctKeys<V>(m: seq<(string, V)>) {
    forall i, j | 0 <= i < j < |m| :: m[i].0 != m[j].0
  }

  /** An ordered PHP array with string keys. */
  type Dict<V> = m: seq<(string, V)> | DistinctKeys(m) witness []

  /** `array_keys($m)`: the keys in insertion order. */
  function Keys<V>(m: seq<(string, V)>): seq<string> {
    seq(|m|, i requires 0 <= i < |m| => m[i].0)
  }

  /** The position of key `k` in `m`. */
  function IndexOf<V>(m: seq<(string, V)>, k: string): (i: nat)
    requires k in Keys(m)
    ensures i < |m| && m[i].0 == k
    ensures forall j | 0 <= j < i :: m[j].0 != k
  {
    if m[0].0 == k then 0
    else
      assert Keys(m) == [m[0].0] + Keys(m[1..]);
      1 + IndexOf(m[1..], k)
  }

  /** `$m[$k]` for a key that `array_key_exists`. */
  function Get<V>(m: seq<(string, V)>, k: string): V
    requires k in Keys(m)
  {
    m[IndexOf(m, k)].1
  }

  /** In an array with distinct keys, the entry at position `i` is the one its key finds. */
  lemma GetAt<V>(m: Dict<V>, i: nat)
    requires i < |m|
    ensures m[i].0 in Keys(m)
    ensures IndexOf(m, m[i].0) == i && Get(m, m[i].0) == m[i].1
  {
    assert Keys(m)[i] == m[i].0;
  }

  /** `$m[$k] = $v`: an existing key keeps its position and takes the new value,
      a new key is appended at the end. */
  function Put<V>(m: Dict<V>, k: string, v: V): (r: Dict<V>)
    ensures Keys(r) == if k in Keys(m) then Keys(m) else Keys(m) + [k]
    ensures k in Keys(r) && Get(r, k) == v
    ensures forall k' | k' in Keys(m) && k' != k :: k' in Keys(r) && Get(r, k') == Get(m, k')
  {
    if k in Keys(m) then
      var i := IndexOf(m, k);
      var r := m[i := (k, v)];
      assert Keys(r) == Keys(m);
      GetAt(r, i);
      forall k' | k' in Keys(m) && k' != k
        ensures Get(r, k') == Get(m, k')
      {
        var j := IndexOf(m, k');
        GetAt(r, j);
      }
      r
    else
      var r := m + [(k, v)];
      assert forall j | 0 <= j < |m| :: Keys(m)[j] == m[j].0;
      assert DistinctKeys(r);
      assert Keys(r) == Keys(m) + [k];
      GetAt(r, |m|);
      forall k' | k' in Keys(m) && k' != k
        ensures Get(r, k') == Get(m, k')
      {
        var j := IndexOf(m, k');
        GetAt(r, j);
      }
      r
  }

  lemma KeysConcat<V>(a: seq<(string, V)>, b: seq<(string, V)>)
    ensures Keys(a + b) == Keys(a) + Keys(b)
  {
  }

  lemma DistinctKeysSplit<V>(a: seq<(string, V)>, b: seq<(string, V)>)
    requires DistinctKeys(a + b)
    ensures DistinctKeys(a) && DistinctKeys(b)
  {
    forall i, j | 0 <= i < j < |a|
      ensures a[i].0 != a[j].0
    {
      assert (a + b)[i] == a[i] && (a + b)[j] == a[j];
    }
    forall i, j | 0 <= i < j < |b|
      ensures b[i].0 != b[j].0
    {
      assert (a + b)[|a| + i] == b[i] && (a + b)[|a| + j] == b[j];
    }
  }

  /** Two arrays with distinct keys and no key in common concatenate to one. */
  lemma DistinctKeysConcat<V>(a: Dict<V>, b: Dict<V>)
    requires forall k | k in Keys(a) :: k !in Keys(b)
    ensures DistinctKeys(a + b)
  {
    forall i, j | 0 <= i < j < |a + b|
      ensures (a + b)[i].0 != (a + b)[j].0
    {
      if j < |a| {
        assert (a + b)[i] == a[i] && (a + b)[j] == a[j];
      } else if i < |a| {
        assert Keys(a)[i] == a[i].0;
        assert Keys(b)[j - |a|] == b[j - |a|].0;
        assert a[i].0 in Keys(a) && b[j - |a|].0 in Keys(b);
      } else {
        assert (a + b)[i] == b[i - |a|] && (a + b)[j] == b[j - |a|];
      }
    }
  }

  /** A list without repeated elements, such as the keys of an array. */
  predicate Distinct(s: seq<string>) {
    forall i, j | 0 <= i < j < |s| :: s[i] != s[j]
  }

  lemma KeysDistinct<V>(m: Dict<V>)
    ensures Distinct(Keys(m))
  {
  }

  /** `array_diff_key($a, $b)` for two lists: PHP compares their KEYS, which for
      lists are the positions 0..|a|-1 and 0..|b|-1, so the result holds the
      elements of `a` at positions `|b|` and above, whatever the elements of `b`
      are. The result keeps the positions of `a` as its keys; iterating it with
      `foreach` visits the elements in the order given here. */
  function ArrayDiffKey(a: seq<string>, b: seq<string>): seq<string> {
    DiffKeyFrom(a, |b|, 0)
  }

  /** Elements of `a` from position `i` on whose position is not below `n`. */
  function DiffKeyFrom(a: seq<string>, n: nat, i: nat): seq<string>
    decreases |a| - i
  {
    if i >= |a| then []
    else (if i < n then [] else [a[i]]) + DiffKeyFrom(a, n, i + 1)
  }

  lemma {:induction false} DiffKeyFromSuffix(a: seq<string>, n: nat, i: nat)
    requires i <= |a| && n <= |a|
    ensures DiffKeyFrom(a, n, i) == if i <= n then a[n..] else a[i..]
    decreases |a| - i
  {
    if i < |a| {
      DiffKeyFromSuffix(a, n, i + 1);
      if i >= n {
        assert a[i..] == [a[i]] + a[i + 1..];
      }
    }
  }

  /** The positional difference is the suffix of `a` past the length of `b`. */
  lemma ArrayDiffKeyIsSuffix(a: seq<string>, b: seq<string>)
    requires |b| <= |a|
    ensures ArrayDiffKey(a, b) == a[|b|..]
  {
    DiffKeyFromSuffix(a, |b|, 0);
  }

  /** When `b` is a prefix of the distinct list `a`, the positional difference is
      the real set difference: an element of `a` is in the result exactly when it
      is not in `b`, and `b` and the result together make up `a`. */
  lemma ArrayDiffKeyOfPrefix(a: seq<string>, b: seq<string>)
    requires Distinct(a)
    requires |b| <= |a| && a[..|b|] == b
    ensures ArrayDiffKey(a, b) == a[|b|..]
    ensures b + ArrayDiffKey(a, b) == a
    ensures forall k :: k in ArrayDiffKey(a, b) <==> k in a && k !in b
  {
    ArrayDiffKeyIsSuffix(a, b);
    assert b + a[|b|..] == a;
    forall k | k in a && k !in b
      ensures k in a[|b|..]
    {
      var j :| 0 <= j < |a| && a[j] == k;
      assert a[|b|..][j - |b|] == k;
    }
  }
}
