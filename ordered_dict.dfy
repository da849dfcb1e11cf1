/**
 * Python's `dict` as the modules of this model use it: an insertion-ordered
 * list of entries with distinct string keys. Assigning an existing key
 * replaces its value in place; assigning a new key appends it; `pop` removes
 * the entry and leaves every other entry in its order.
 */
module OrderedDict {
  import opened Wrappers

  type Dict<V> = seq<(string, V)>

  /** The keys in iteration order (`list(d)`). */
  function Keys<V>(d: Dict<V>): (ks: seq<string>)
    ensures |ks| == |d|
    ensures forall i :: 0 <= i < |d| ==> ks[i] == d[i].0
  {
    seq(|d|, i requires 0 <= i < |d| => d[i].0)
  }

  lemma KeysOfPrefix<V>(d: Dict<V>, n: nat)
    requires 0 < n <= |d|
    ensures Keys(d[..n]) == Keys(d[..n - 1]) + [d[n - 1].0]
  {
    var a, b := Keys(d[..n]), Keys(d[..n - 1]) + [d[n - 1].0];
    assert |a| == |b|;
    forall i | 0 <= i < |a| ensures a[i] == b[i] {
    }
  }

  /** No key occurs twice, as in every Python dict. */
  predicate UniqueKeys<V>(d: Dict<V>) {
    forall i, j :: 0 <= i < j < |d| ==> d[i].0 != d[j].0
  }

  /** Position of `k` in `d`, if present. */
  function IndexOf<V>(d: Dict<V>, k: string): (r: Option<nat>)
    ensures r.None? <==> k !in Keys(d)
    ensures r.Some? ==> r.value < |d| && d[r.value].0 == k
    ensures r.Some? ==> forall i :: 0 <= i < r.value ==> d[i].0 != k
  {
    if d == [] then None
    else if d[0].0 == k then Some(0)
    else
      match IndexOf(d[1..], k)
      case None => assert Keys(d) == [d[0].0] + Keys(d[1..]); None
      case Some(i) => Some(i + 1)
  }

  /** `d.get(k)`. */
  function Get<V>(d: Dict<V>, k: string): (r: Option<V>)
    ensures r.Some? <==> k in Keys(d)
    ensures UniqueKeys(d) ==> forall i :: 0 <= i < |d| && d[i].0 == k ==> r == Some(d[i].1)
  {
    match IndexOf(d, k)
    case None => None
    case Some(i) => Some(d[i].1)
  }

  /** `d[k] = v`. */
  function Put<V>(d: Dict<V>, k: string, v: V): (r: Dict<V>)
    ensures UniqueKeys(d) ==> UniqueKeys(r)
    ensures Get(r, k) == Some(v)
    ensures forall k' :: k' != k ==> Get(r, k') == Get(d, k')
    ensures Keys(r) == if k in Keys(d) then Keys(d) else Keys(d) + [k]
  {
    match IndexOf(d, k)
    case None =>
      AppendFresh(d, k, v);
      d + [(k, v)]
    case Some(i) =>
      ReplaceAt(d, i, v);
      d[i := (k, v)]
  }

  /** `d.pop(k, None)`'s effect on `d`. */
  function Remove<V>(d: Dict<V>, k: string): (r: Dict<V>)
    requires UniqueKeys(d)
    ensures UniqueKeys(r)
    ensures Get(r, k) == None
    ensures forall k' :: k' != k ==> Get(r, k') == Get(d, k')
    ensures Keys(r) == Without(Keys(d), {k})
    ensures |r| == if k in Keys(d) then |d| - 1 else |d|
  {
    match IndexOf(d, k)
    case None =>
      WithoutAbsent(Keys(d), {k});
      d
    case Some(i) =>
      DropAt(d, i);
      d[..i] + d[i + 1..]
  }

  lemma AppendFresh<V>(d: Dict<V>, k: string, v: V)
    requires k !in Keys(d)
    ensures UniqueKeys(d) ==> UniqueKeys(d + [(k, v)])
    ensures Get(d + [(k, v)], k) == Some(v)
    ensures forall k' :: k' != k ==> Get(d + [(k, v)], k') == Get(d, k')
    ensures Keys(d + [(k, v)]) == Keys(d) + [k]
  {
    var r := d + [(k, v)];
    forall k' | k' != k ensures IndexOf(r, k') == IndexOf(d, k') {
      if k' in Keys(d) {
        PrefixIndexOf(d, [(k, v)], k');
      } else {
        assert k' !in Keys(r);
      }
    }
    assert IndexOf(r, k) == Some(|d|) by {
      PrefixIndexOfAbsent(d, [(k, v)], k);
    }
  }

  lemma ReplaceAt<V>(d: Dict<V>, i: nat, v: V)
    requires i < |d|
    ensures var r := d[i := (d[i].0, v)];
      && (UniqueKeys(d) ==> UniqueKeys(r))
      && Keys(r) == Keys(d)
      && (IndexOf(d, d[i].0) == Some(i) ==> Get(r, d[i].0) == Some(v))
      && (forall k' :: k' != d[i].0 ==> Get(r, k') == Get(d, k'))
  {
    var r := d[i := (d[i].0, v)];
    assert Keys(r) == Keys(d);
    forall k' ensures IndexOf(r, k') == IndexOf(d, k') {
      SameKeysIndexOf(d, r, k');
    }
  }

  lemma DropAt<V>(d: Dict<V>, i: nat)
    requires UniqueKeys(d) && i < |d|
    ensures var r := d[..i] + d[i + 1..];
      && UniqueKeys(r)
      && Get(r, d[i].0) == None
      && (forall k' :: k' != d[i].0 ==> Get(r, k') == Get(d, k'))
      && Keys(r) == Without(Keys(d), {d[i].0})
  {
    var r := d[..i] + d[i + 1..];
    assert UniqueKeys(r) by {
      forall a, b | 0 <= a < b < |r| ensures r[a].0 != r[b].0 {
        var a' := if a < i then a else a + 1;
        var b' := if b < i then b else b + 1;
        assert r[a] == d[a'] && r[b] == d[b'];
      }
    }
    DropAtKeys(d, i);
    DropAtGet(d, i);
  }

  lemma DropAtKeys<V>(d: Dict<V>, i: nat)
    requires UniqueKeys(d) && i < |d|
    ensures Keys(d[..i] + d[i + 1..]) == Without(Keys(d), {d[i].0})
  {
    var k := d[i].0;
    var pre, post := Keys(d[..i]), Keys(d[i + 1..]);
    assert Keys(d[..i] + d[i + 1..]) == pre + post;
    assert Keys(d) == pre + ([k] + post);
    assert forall x :: x in pre ==> x !in {k};
    assert forall x :: x in post ==> x !in {k};
    WithoutAbsent(pre, {k});
    WithoutAbsent(post, {k});
    assert Without([k], {k}) == [] by {
      assert [k][..0] == [];
    }
    WithoutConcat([k], post, {k});
    WithoutConcat(pre, [k] + post, {k});
    assert [] + post == post;
  }

  lemma DropAtGet<V>(d: Dict<V>, i: nat)
    requires UniqueKeys(d) && i < |d|
    ensures var r := d[..i] + d[i + 1..];
      && Get(r, d[i].0) == None
      && (forall k' :: k' != d[i].0 ==> Get(r, k') == Get(d, k'))
  {
    var k := d[i].0;
    var r := d[..i] + d[i + 1..];
    assert k !in Keys(r) by {
      forall j | 0 <= j < |r| ensures r[j].0 != k {
        if j < i { assert r[j] == d[j]; } else { assert r[j] == d[j + 1]; }
      }
    }
    forall k' | k' != k ensures Get(r, k') == Get(d, k') {
      if k' in Keys(d) {
        var j :| 0 <= j < |d| && d[j].0 == k';
        assert j != i;
        if j < i { assert r[j] == d[j]; } else { assert r[j - 1] == d[j]; }
        assert UniqueKeys(r);
      } else {
        assert k' !in Keys(r) by {
          forall j | 0 <= j < |r| ensures r[j].0 != k' {
            if j < i { assert r[j] == d[j]; } else { assert r[j] == d[j + 1]; }
          }
        }
      }
    }
  }

  /** The elements of `s` that are not in `drop`, in order. */
  function Without(s: seq<string>, drop: set<string>): (r: seq<string>)
    ensures |r| <= |s|
    ensures forall x :: x in r <==> x in s && x !in drop
  {
    if s == [] then []
    else if s[|s| - 1] in drop then Without(s[..|s| - 1], drop)
    else Without(s[..|s| - 1], drop) + [s[|s| - 1]]
  }

  lemma {:induction false} WithoutConcat(a: seq<string>, b: seq<string>, drop: set<string>)
    ensures Without(a + b, drop) == Without(a, drop) + Without(b, drop)
    decreases |b|
  {
    if b == [] {
      assert a + b == a;
    } else {
      assert (a + b)[..|a + b| - 1] == a + b[..|b| - 1];
      WithoutConcat(a, b[..|b| - 1], drop);
    }
  }

  lemma {:induction false} WithoutAbsent(s: seq<string>, drop: set<string>)
    requires forall x :: x in s ==> x !in drop
    ensures Without(s, drop) == s
  {
    if s != [] {
      assert s[..|s| - 1] + [s[|s| - 1]] == s;
      WithoutAbsent(s[..|s| - 1], drop);
    }
  }

  /** Dropping one set of elements, then another, is dropping their union. */
  lemma {:induction false} WithoutWithout(s: seq<string>, a: set<string>, b: set<string>)
    ensures Without(Without(s, a), b) == Without(s, a + b)
  {
    if s != [] {
      WithoutWithout(s[..|s| - 1], a, b);
      var x := s[|s| - 1];
      if x !in a {
        assert Without(s, a)[..|Without(s, a)| - 1] == Without(s[..|s| - 1], a);
      }
    }
  }

  lemma {:induction false} PrefixIndexOf<V>(d: Dict<V>, e: Dict<V>, k: string)
    requires k in Keys(d)
    ensures IndexOf(d + e, k) == IndexOf(d, k)
  {
    if d[0].0 != k {
      assert (d + e)[1..] == d[1..] + e;
      assert Keys(d) == [d[0].0] + Keys(d[1..]);
      PrefixIndexOf(d[1..], e, k);
    }
  }

  lemma {:induction false} PrefixIndexOfAbsent<V>(d: Dict<V>, e: Dict<V>, k: string)
    requires k !in Keys(d) && e != [] && e[0].0 == k
    ensures IndexOf(d + e, k) == Some(|d|)
  {
    if d != [] {
      assert (d + e)[1..] == d[1..] + e;
      assert Keys(d) == [d[0].0] + Keys(d[1..]);
      PrefixIndexOfAbsent(d[1..], e, k);
    } else {
      assert d + e == e;
    }
  }

  lemma {:induction false} SameKeysIndexOf<V>(d: Dict<V>, e: Dict<V>, k: string)
    requires Keys(d) == Keys(e)
    ensures IndexOf(d, k) == IndexOf(e, k)
  {
    if d != [] {
      assert d[0].0 == Keys(d)[0] == Keys(e)[0] == e[0].0;
      assert Keys(d[1..]) == Keys(d)[1..];
      assert Keys(e[1..]) == Keys(e)[1..];
      SameKeysIndexOf(d[1..], e[1..], k);
    }
  }

  /** Assigning a key that is not there appends the entry. */
  lemma PutFresh<V>(d: Dict<V>, k: string, v: V)
    requires k !in Keys(d)
    ensures Put(d, k, v) == d + [(k, v)]
  {
  }

  lemma KeysConcat<V>(a: Dict<V>, b: Dict<V>)
    ensures Keys(a + b) == Keys(a) + Keys(b)
  {
    assert |Keys(a + b)| == |Keys(a) + Keys(b)|;
    forall i | 0 <= i < |a + b| ensures Keys(a + b)[i] == (Keys(a) + Keys(b))[i] {
      if i >= |a| {
        assert (a + b)[i] == b[i - |a|];
      }
    }
  }

  lemma {:induction false} SuffixIndexOf<V>(a: Dict<V>, b: Dict<V>, k: string)
    requires k !in Keys(a)
    ensures IndexOf(a + b, k) == match IndexOf(b, k) case None => None case Some(i) => Some(|a| + i)
  {
    if a == [] {
      assert a + b == b;
    } else {
      assert (a + b)[1..] == a[1..] + b;
      assert Keys(a) == [a[0].0] + Keys(a[1..]);
      SuffixIndexOf(a[1..], b, k);
    }
  }

  /** Looking a key up in two dictionaries laid end to end: the first one holding it answers. */
  lemma GetConcat<V>(a: Dict<V>, b: Dict<V>, k: string)
    ensures Get(a + b, k) == if k in Keys(a) then Get(a, k) else Get(b, k)
  {
    if k in Keys(a) {
      GetConcatLeft(a, b, k);
    } else {
      GetConcatRight(a, b, k);
    }
  }

  lemma GetConcatLeft<V>(a: Dict<V>, b: Dict<V>, k: string)
    requires k in Keys(a)
    ensures Get(a + b, k) == Get(a, k)
  {
    PrefixIndexOf(a, b, k);
    var i := IndexOf(a, k).value;
    assert (a + b)[i] == a[i];
  }

  lemma GetConcatRight<V>(a: Dict<V>, b: Dict<V>, k: string)
    requires k !in Keys(a)
    ensures Get(a + b, k) == Get(b, k)
  {
    SuffixIndexOf(a, b, k);
    if IndexOf(b, k).Some? {
      var i := IndexOf(b, k).value;
      assert (a + b)[|a| + i] == b[i];
    }
  }

  /** Two dictionaries with no key in common laid end to end still have distinct keys. */
  lemma UniqueConcat<V>(a: Dict<V>, b: Dict<V>)
    requires UniqueKeys(a) && UniqueKeys(b)
    requires forall k :: k in Keys(b) ==> k !in Keys(a)
    ensures UniqueKeys(a + b)
  {
    forall i, j | 0 <= i < j < |a + b| ensures (a + b)[i].0 != (a + b)[j].0 {
      if j >= |a| {
        assert (a + b)[j] == b[j - |a|];
        assert b[j - |a|].0 in Keys(b);
        if i >= |a| {
          assert (a + b)[i] == b[i - |a|];
        } else {
          assert (a + b)[i] == a[i];
          assert a[i].0 in Keys(a);
        }
      }
    }
  }
}
