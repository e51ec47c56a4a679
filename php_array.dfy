/**
 * PHP arrays with string keys and string values, as the language resolver uses
 * them: an ordered list of key => value entries (insertion order), together with
 * the built-in operations the resolver applies to them.
 */
module PhpArray {
  import opened Wrappers

  /** One `key => value` pair. */
  datatype Entry = Entry(key: string, value: string)

  /** A PHP array: its entries in insertion order. */
  type Assoc = seq<Entry>

  /** PHP arrays never hold the same key twice. */
  ghost predicate UniqueKeys(a: Assoc)
  {
    forall i, j :: 0 <= i < j < |a| ==> a[i].key != a[j].key
  }

  /** Any two entries of `s` occur in `b` too, in the same relative order. */
  ghost predicate InOrderOf(s: Assoc, b: Assoc)
  {
    forall i, j :: 0 <= i < j < |s| ==> PairInOrder(s, b, i, j)
  }

  /** Entries `i` and `j` of `s` occur in `b` at indices `p < q`. */
  ghost predicate PairInOrder(s: Assoc, b: Assoc, i: int, j: int)
    requires 0 <= i < j < |s|
  {
    exists p, q :: 0 <= p < q < |b| && s[i] == b[p] && s[j] == b[q]
  }

  /** No two entries carry the same value. */
  ghost predicate UniqueValues(a: Assoc)
  {
    forall i, j :: 0 <= i < j < |a| ==> a[i].value != a[j].value
  }

  /** `$a[$k]`: the value stored under `k`, or `None` where PHP yields null for an undefined index. */
  function Get(a: Assoc, k: string): (r: Option<string>)
    ensures r.None? <==> forall i :: 0 <= i < |a| ==> a[i].key != k
    ensures r.Some? ==> exists i :: 0 <= i < |a| && a[i] == Entry(k, r.value)
  {
    if a == [] then None
    else if a[0].key == k then Some(a[0].value)
    else
      var r := Get(a[1..], k);
      assert r.Some? ==> exists i :: 0 <= i < |a[1..]| && a[1..][i] == Entry(k, r.value);
      assert forall i :: 0 <= i < |a[1..]| ==> a[1..][i] == a[i + 1];
      r
  }

  /** `isset($a[$k])`: the array holds the key `k` (its values are strings, never null). */
  predicate HasKey(a: Assoc, k: string): (b: bool)
    ensures b <==> exists i :: 0 <= i < |a| && a[i].key == k
  {
    Get(a, k).Some?
  }

  /** `in_array($v, $a)` under exact comparison: some entry has the value `v`. */
  predicate InArray(a: Assoc, v: string): (b: bool)
    ensures b <==> exists i :: 0 <= i < |a| && a[i].value == v
  {
    if a == [] then false
    else
      assert forall i :: 0 <= i < |a[1..]| ==> a[1..][i] == a[i + 1];
      a[0].value == v || InArray(a[1..], v)
  }

  /** `array_search($v, $a, true)`: the key of the first entry whose value is `v`. */
  function Search(a: Assoc, v: string): (r: Option<string>)
    ensures r.None? <==> !InArray(a, v)
    ensures r.Some? ==>
      exists i :: 0 <= i < |a| && a[i] == Entry(r.value, v) && forall j :: 0 <= j < i ==> a[j].value != v
  {
    if a == [] then None
    else if a[0].value == v then Some(a[0].key)
    else
      var r := Search(a[1..], v);
      assert forall i :: 0 <= i < |a[1..]| ==> a[1..][i] == a[i + 1];
      assert r.None? ==> forall i :: 1 <= i < |a| ==> a[i].value != v;
      r
  }

  /** The entries of `b` whose key `a` does not hold, in `b`'s order. */
  function Missing(a: Assoc, b: Assoc): Assoc
  {
    if b == [] then []
    else
      var rest := Missing(a, b[1..]);
      if HasKey(a, b[0].key) then rest else [b[0]] + rest
  }

  /** `Missing` keeps only entries of `b`, and none whose key `a` holds. */
  lemma {:induction false} MissingSub(a: Assoc, b: Assoc)
    ensures forall e :: e in Missing(a, b) ==> e in b && !HasKey(a, e.key)
  {
    if b != [] {
      MissingSub(a, b[1..]);
      assert forall e :: e in b[1..] ==> e in b;
    }
  }

  /** `Missing` keeps the entries it retains in `b`'s order. */
  lemma {:induction false} MissingOrder(a: Assoc, b: Assoc, i: int, j: int) returns (p: int, q: int)
    requires 0 <= i < j < |Missing(a, b)|
    ensures 0 <= p < q < |b| && Missing(a, b)[i] == b[p] && Missing(a, b)[j] == b[q]
  {
    var tail := b[1..];
    var rest := Missing(a, tail);
    if HasKey(a, b[0].key) {
      assert Missing(a, b) == rest;
      p, q := MissingOrder(a, tail, i, j);
      p, q := p + 1, q + 1;
    } else {
      assert Missing(a, b) == [b[0]] + rest;
      if i == 0 {
        var k := MissingIndex(a, tail, j - 1);
        p, q := 0, k + 1;
      } else {
        p, q := MissingOrder(a, tail, i - 1, j - 1);
        p, q := p + 1, q + 1;
      }
    }
  }

  /** Every entry `Missing` keeps sits at some index of `b`. */
  lemma {:induction false} MissingIndex(a: Assoc, b: Assoc, i: int) returns (p: int)
    requires 0 <= i < |Missing(a, b)|
    ensures 0 <= p < |b| && Missing(a, b)[i] == b[p]
  {
    var tail := b[1..];
    var rest := Missing(a, tail);
    if HasKey(a, b[0].key) {
      assert Missing(a, b) == rest;
      p := MissingIndex(a, tail, i);
      p := p + 1;
    } else {
      assert Missing(a, b) == [b[0]] + rest;
      if i == 0 {
        p := 0;
      } else {
        p := MissingIndex(a, tail, i - 1);
        p := p + 1;
      }
    }
  }

  /** Dropping the keys of `a` leaves every other key's lookup unchanged. */
  lemma {:induction false} MissingGet(a: Assoc, b: Assoc, k: string)
    requires !HasKey(a, k)
    ensures Get(Missing(a, b), k) == Get(b, k)
  {
    if b != [] {
      MissingGet(a, b[1..], k);
    }
  }

  /** Dropping entries keeps keys unique. */
  lemma {:induction false} MissingUnique(a: Assoc, b: Assoc)
    requires UniqueKeys(b)
    ensures UniqueKeys(Missing(a, b))
  {
    if b != [] {
      var rest := Missing(a, b[1..]);
      MissingUnique(a, b[1..]);
      MissingSub(a, b[1..]);
      forall e | e in rest ensures e.key != b[0].key {
        var j :| 0 <= j < |b[1..]| && b[1..][j] == e;
        assert b[j + 1] == e;
      }
    }
  }

  /**
   * `$a + $b`: every entry of `a`, followed by the entries of `b` whose key `a`
   * does not hold. Where both hold a key, the entry of `a` is kept.
   */
  function Union(a: Assoc, b: Assoc): (r: Assoc)
    ensures |a| <= |r| && r[..|a|] == a
    ensures forall k :: Get(r, k) == if HasKey(a, k) then Get(a, k) else Get(b, k)
    ensures forall e :: e in r ==> e in a || e in b
    ensures InOrderOf(r[|a|..], b)
    ensures UniqueKeys(a) && UniqueKeys(b) ==> UniqueKeys(r)
  {
    UnionLookup(a, b);
    UnionOrder(a, b);
    UnionUnique(a, b);
    a + Missing(a, b)
  }

  /** A key of `a + Missing(a, b)` is looked up in `a` first, then in `b`. */
  lemma UnionLookup(a: Assoc, b: Assoc)
    ensures forall k :: Get(a + Missing(a, b), k) == if HasKey(a, k) then Get(a, k) else Get(b, k)
    ensures forall e :: e in a + Missing(a, b) ==> e in a || e in b
  {
    var m := Missing(a, b);
    MissingSub(a, b);
    GetConcat(a, m);
    forall k | !HasKey(a, k) ensures Get(m, k) == Get(b, k) {
      MissingGet(a, b, k);
    }
    assert forall e :: e in a + m ==> e in a || e in m;
  }

  /** The entries after `a` in `a + Missing(a, b)` keep `b`'s order. */
  lemma UnionOrder(a: Assoc, b: Assoc)
    ensures InOrderOf((a + Missing(a, b))[|a|..], b)
  {
    var m := Missing(a, b);
    assert (a + m)[|a|..] == m;
    forall i, j | 0 <= i < j < |m| ensures PairInOrder(m, b, i, j) {
      var p, q := MissingOrder(a, b, i, j);
      assert 0 <= p < q < |b| && m[i] == b[p] && m[j] == b[q];
    }
    assert InOrderOf(m, b);
  }

  /** `a + Missing(a, b)` keeps keys unique. */
  lemma UnionUnique(a: Assoc, b: Assoc)
    ensures UniqueKeys(a) && UniqueKeys(b) ==> UniqueKeys(a + Missing(a, b))
  {
    var m := Missing(a, b);
    if UniqueKeys(a) && UniqueKeys(b) {
      MissingSub(a, b);
      MissingUnique(a, b);
      forall i, j | 0 <= i < j < |a + m| ensures (a + m)[i].key != (a + m)[j].key {
        if j >= |a| {
          assert (a + m)[j] in m;
          if i < |a| {
            assert HasKey(a, a[i].key);
          }
        }
      }
    }
  }

  /** Looking a key up in `x + y` finds it in `x` first. */
  lemma {:induction false} GetConcat(x: Assoc, y: Assoc)
    ensures forall k :: Get(x + y, k) == if HasKey(x, k) then Get(x, k) else Get(y, k)
  {
    if x != [] {
      GetConcat(x[1..], y);
      assert (x + y)[1..] == x[1..] + y;
    } else {
      assert x + y == y;
    }
  }

  /** With unique keys, the value found for the key of an entry is that entry's value. */
  lemma GetAt(a: Assoc, i: int)
    requires UniqueKeys(a) && 0 <= i < |a|
    ensures Get(a, a[i].key) == Some(a[i].value)
  {
  }

  /**
   * `[e] + $a` where `a` holds `e`'s key at index `i`: `e` leads, and the rest of
   * `a` follows in its order with index `i` left out.
   */
  lemma {:induction false} MissingSingle(e: Entry, a: Assoc, i: int)
    requires UniqueKeys(a) && 0 <= i < |a| && a[i].key == e.key
    ensures Missing([e], a) == a[..i] + a[i + 1..]
  {
    var rest := a[1..];
    assert UniqueKeys(rest) by {
      forall p, q | 0 <= p < q < |rest| ensures rest[p].key != rest[q].key {
        assert rest[p] == a[p + 1] && rest[q] == a[q + 1];
      }
    }
    if i == 0 {
      forall j | 0 <= j < |rest| ensures rest[j].key != e.key {
        assert rest[j] == a[j + 1];
      }
      MissingOthers(e, rest);
      assert a[..0] + a[1..] == rest;
    } else {
      assert HasKey([e], a[0].key) <==> a[0].key == e.key;
      assert a[0].key != e.key by { assert a[0].key != a[i].key; }
      MissingSingle(e, rest, i - 1);
      assert a[..i] == [a[0]] + rest[..i - 1];
      assert a[i + 1..] == rest[i..];
    }
  }

  /** `[e] + $a`, with `a` holding `e`'s key at index `i`: `e`, then `a` without index `i`. */
  lemma UnionSingle(e: Entry, a: Assoc, i: int)
    requires UniqueKeys(a) && 0 <= i < |a| && a[i].key == e.key
    ensures Union([e], a) == [e] + a[..i] + a[i + 1..]
  {
    MissingSingle(e, a, i);
    assert [e] + a[..i] + a[i + 1..] == [e] + (a[..i] + a[i + 1..]);
  }

  /** When no entry of `b` has `e`'s key, `[e]` drops nothing of `b`. */
  lemma {:induction false} MissingOthers(e: Entry, b: Assoc)
    requires forall j :: 0 <= j < |b| ==> b[j].key != e.key
    ensures Missing([e], b) == b
  {
    if b != [] {
      assert HasKey([e], b[0].key) <==> b[0].key == e.key;
      assert forall j :: 0 <= j < |b[1..]| ==> b[1..][j] == b[j + 1];
      MissingOthers(e, b[1..]);
      assert b == [b[0]] + b[1..];
    }
  }
}
