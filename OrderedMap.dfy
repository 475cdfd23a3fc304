/**
 An insertion-ordered map from strings with the semantics of the ECMAScript
 `Map` object (ECMA-262, 2023 edition, section 24.1): a list of entries whose
 keys are compared by value, where `set` on a present key replaces the value in
 place and `set` on a new key appends, and `delete` removes one entry and keeps
 the order of the others. A value of this type is an immutable snapshot: every
 operation returns a new map and leaves its argument as it was, as
 `new Map(prev)` followed by a mutation of the copy does.
 */
module OrderedMap {

  datatype Option<+T> = None | Some(value: T)

  datatype Entry<V> = Entry(key: string, value: V)

  /** The keys in iteration order (`Map.prototype.keys`). */
  function Keys<V>(m: seq<Entry<V>>): seq<string>
  {
    seq(|m|, i requires 0 <= i < |m| => m[i].key)
  }

  /** The values in iteration order (`Map.prototype.values`). */
  function Values<V>(m: seq<Entry<V>>): seq<V>
  {
    seq(|m|, i requires 0 <= i < |m| => m[i].value)
  }

  /** The set of keys present. */
  function KeySet<V>(m: seq<Entry<V>>): set<string>
  {
    set i | 0 <= i < |m| :: m[i].key
  }

  /** No key occurs twice: the shape every ECMAScript map has. */
  ghost predicate DistinctKeys<V>(m: seq<Entry<V>>)
  {
    forall i, j :: 0 <= i < j < |m| ==> m[i].key != m[j].key
  }

  /** The position of the first entry whose key is `k`, if any. */
  function IndexOf<V>(m: seq<Entry<V>>, k: string): (r: Option<nat>)
    ensures r.Some? ==> r.value < |m| && m[r.value].key == k
    ensures r.Some? ==> forall j :: 0 <= j < r.value ==> m[j].key != k
    ensures r.None? ==> forall j :: 0 <= j < |m| ==> m[j].key != k
  {
    if |m| == 0 then None
    else if m[0].key == k then Some(0)
    else
      match IndexOf(m[1..], k)
      case Some(i) => Some(i + 1)
      case None => None
  }

  /** `Map.prototype.has` (section 24.1.3.7). */
  predicate Has<V>(m: seq<Entry<V>>, k: string)
    ensures Has(m, k) <==> exists i :: 0 <= i < |m| && m[i].key == k
  {
    IndexOf(m, k).Some?
  }

  /** `Map.prototype.get` (section 24.1.3.6); `None` stands for `undefined`. */
  function Get<V>(m: seq<Entry<V>>, k: string): (r: Option<V>)
    ensures r.Some? <==> Has(m, k)
    ensures r.Some? ==> Entry(k, r.value) in m
  {
    match IndexOf(m, k)
    case Some(i) => Some(m[i].value)
    case None => None
  }

  /** `has` and `get` agree with the key set, and `get` returns a stored entry. */
  lemma GetHas<V>(m: seq<Entry<V>>, k: string)
    ensures Has(m, k) <==> k in KeySet(m)
    ensures Has(m, k) <==> k in Keys(m)
    ensures Get(m, k).Some? <==> Has(m, k)
    ensures Get(m, k).Some? ==> Entry(k, Get(m, k).value) in m
  {
    if k in KeySet(m) {
      var i :| 0 <= i < |m| && m[i].key == k;
      assert Keys(m)[i] == k;
    }
    if k in Keys(m) {
      var i :| 0 <= i < |m| && Keys(m)[i] == k;
    }
  }

  /** Two maps with the same key sequence place every key at the same index. */
  lemma IndexOfDependsOnKeys<V>(m: seq<Entry<V>>, n: seq<Entry<V>>, k: string)
    requires Keys(m) == Keys(n)
    ensures IndexOf(m, k) == IndexOf(n, k)
  {
    assert |m| == |Keys(m)| == |Keys(n)| == |n|;
    assert forall i :: 0 <= i < |m| ==> m[i].key == Keys(m)[i] == Keys(n)[i] == n[i].key;
  }

  /**
   `Map.prototype.set` (section 24.1.3.9): a present key is updated in place,
   a new key is appended.
   */
  function Set<V>(m: seq<Entry<V>>, k: string, v: V): (r: seq<Entry<V>>)
    ensures Entry(k, v) in r
    ensures |r| == if Has(m, k) then |m| else |m| + 1
  {
    match IndexOf(m, k)
    case Some(i) =>
      assert m[i := Entry(k, v)][i] == Entry(k, v);
      m[i := Entry(k, v)]
    case None => m + [Entry(k, v)]
  }

  /**
   After `set(k, v)`, `k` maps to `v` and every other key keeps its value; a
   present key keeps its position ("last write wins, first-seen position
   wins") and a new key goes at the end; distinct keys stay distinct.
   */
  lemma SetSpec<V>(m: seq<Entry<V>>, k: string, v: V)
    ensures Get(Set(m, k, v), k) == Some(v)
    ensures forall k' :: k' != k ==> Get(Set(m, k, v), k') == Get(m, k')
    ensures Keys(Set(m, k, v)) == if Has(m, k) then Keys(m) else Keys(m) + [k]
    ensures KeySet(Set(m, k, v)) == KeySet(m) + {k}
    ensures DistinctKeys(m) ==> DistinctKeys(Set(m, k, v))
  {
    var r := Set(m, k, v);
    match IndexOf(m, k)
    case Some(i) =>
      assert Keys(r) == Keys(m);
      forall k' ensures IndexOf(r, k') == IndexOf(m, k') {
        IndexOfDependsOnKeys(r, m, k');
      }
      assert KeySet(r) == KeySet(m) by {
        forall x ensures x in KeySet(r) <==> x in KeySet(m) {
          GetHas(r, x);
          GetHas(m, x);
        }
      }
    case None =>
      assert Keys(r) == Keys(m) + [k];
      assert KeySet(r) == KeySet(m) + {k} by {
        forall x ensures x in KeySet(r) <==> x in KeySet(m) || x == k {
          if x in KeySet(r) {
            var i :| 0 <= i < |r| && r[i].key == x;
            if i < |m| {
              assert m[i].key == x;
            }
          }
          if x in KeySet(m) {
            var i :| 0 <= i < |m| && m[i].key == x;
            assert r[i].key == x;
          }
          assert r[|m|].key == k;
        }
      }
      forall k' | k' != k ensures Get(r, k') == Get(m, k') {
        match IndexOf(m, k')
        case Some(j) =>
          assert r[j] == m[j];
          assert IndexOf(r, k') == Some(j);
        case None =>
          assert IndexOf(r, k') == None;
      }
      assert IndexOf(r, k) == Some(|m|);
  }

  /** The entries of `m` whose key is not `k`, in order: a reference for delete. */
  function Without<V>(m: seq<Entry<V>>, k: string): seq<Entry<V>>
  {
    if |m| == 0 then []
    else (if m[0].key == k then [] else [m[0]]) + Without(m[1..], k)
  }

  /** `Without` leaves a map without `k` where `k` is absent. */
  lemma {:induction false} WithoutAbsent<V>(m: seq<Entry<V>>, k: string)
    requires forall j :: 0 <= j < |m| ==> m[j].key != k
    ensures Without(m, k) == m
  {
    if |m| > 0 {
      assert m[0].key != k;
      WithoutAbsent(m[1..], k);
      assert m == [m[0]] + m[1..];
    }
  }

  /** With distinct keys, dropping the entry at `k` is `Without(m, k)`. */
  lemma {:induction false} WithoutSplice<V>(m: seq<Entry<V>>, k: string, i: nat)
    requires DistinctKeys(m)
    requires i < |m| && m[i].key == k
    ensures Without(m, k) == m[..i] + m[i + 1..]
  {
    if i == 0 {
      assert forall j :: 0 <= j < |m[1..]| ==> m[1..][j].key == m[j + 1].key;
      WithoutAbsent(m[1..], k);
    } else {
      WithoutSplice(m[1..], k, i - 1);
      assert m[1..][..i - 1] == m[1..i];
      assert m[1..][i..] == m[i + 1..];
      assert m[..i] == [m[0]] + m[1..i];
    }
  }

  /** The entries `Without(m, k)` keeps are exactly those of `m` not at `k`. */
  lemma {:induction false} WithoutMember<V>(m: seq<Entry<V>>, k: string, e: Entry<V>)
    ensures e in Without(m, k) <==> e in m && e.key != k
  {
    if |m| > 0 {
      WithoutMember(m[1..], k, e);
      assert m == [m[0]] + m[1..];
    }
  }

  /** A key is in the key set exactly when some stored entry carries it. */
  lemma KeySetMembers<V>(m: seq<Entry<V>>, x: string)
    ensures x in KeySet(m) <==> exists e :: e in m && e.key == x
  {
    if exists e :: e in m && e.key == x {
      var e :| e in m && e.key == x;
      var i :| 0 <= i < |m| && m[i] == e;
    }
  }

  /** With distinct keys, `get` finds exactly the stored entries. */
  lemma GetIffMember<V>(m: seq<Entry<V>>, k: string, v: V)
    requires DistinctKeys(m)
    ensures Get(m, k) == Some(v) <==> Entry(k, v) in m
  {
    if Entry(k, v) in m {
      var i :| 0 <= i < |m| && m[i] == Entry(k, v);
      assert IndexOf(m, k) == Some(i);
    }
  }

  /** `Without` keeps keys distinct. */
  lemma {:induction false} WithoutDistinct<V>(m: seq<Entry<V>>, k: string)
    requires DistinctKeys(m)
    ensures DistinctKeys(Without(m, k))
  {
    if |m| > 0 {
      var tail := m[1..];
      var rest := Without(tail, k);
      assert DistinctKeys(tail) by {
        forall i, j | 0 <= i < j < |tail| ensures tail[i].key != tail[j].key {
          assert tail[i] == m[i + 1] && tail[j] == m[j + 1];
        }
      }
      WithoutDistinct(tail, k);
      if m[0].key != k {
        var w := [m[0]] + rest;
        assert Without(m, k) == w;
        forall i, j | 0 <= i < j < |w| ensures w[i].key != w[j].key {
          if i == 0 {
            assert w[j] == rest[j - 1];
            assert rest[j - 1] in rest;
            WithoutMember(tail, k, rest[j - 1]);
            var t :| 0 <= t < |tail| && tail[t] == rest[j - 1];
            assert m[t + 1] == tail[t];
          } else {
            assert w[i] == rest[i - 1] && w[j] == rest[j - 1];
          }
        }
      }
    }
  }

  /** What `Without` keeps: distinctness, every other key with its value, and no `k`. */
  lemma WithoutFacts<V>(m: seq<Entry<V>>, k: string)
    requires DistinctKeys(m)
    ensures DistinctKeys(Without(m, k))
    ensures KeySet(Without(m, k)) == KeySet(m) - {k}
    ensures forall k' :: k' != k ==> Get(Without(m, k), k') == Get(m, k')
  {
    var w := Without(m, k);
    WithoutDistinct(m, k);
    forall x ensures x in KeySet(w) <==> x in KeySet(m) && x != k {
      KeySetMembers(w, x);
      KeySetMembers(m, x);
      if x in KeySet(w) {
        var e :| e in w && e.key == x;
        WithoutMember(m, k, e);
      }
      if x in KeySet(m) && x != k {
        var e :| e in m && e.key == x;
        WithoutMember(m, k, e);
      }
    }
    forall k' | k' != k ensures Get(w, k') == Get(m, k') {
      match Get(m, k')
      case Some(v) =>
        GetIffMember(m, k', v);
        GetIffMember(w, k', v);
        WithoutMember(m, k, Entry(k', v));
      case None =>
        GetHas(m, k');
        GetHas(w, k');
        KeySetMembers(w, k');
        KeySetMembers(m, k');
    }
  }

  /**
   `Map.prototype.delete` (section 24.1.3.3): removes the entry at `k` if there
   is one and says whether there was.
   */
  function Delete<V>(m: seq<Entry<V>>, k: string): (r: (seq<Entry<V>>, bool))
    ensures r.1 == Has(m, k)
    ensures !r.1 ==> r.0 == m
    ensures |r.0| == if r.1 then |m| - 1 else |m|
    ensures forall e :: e in r.0 ==> e in m
    ensures forall e :: e in m && e.key != k ==> e in r.0
  {
    match IndexOf(m, k)
    case Some(i) => (m[..i] + m[i + 1..], true)
    case None => (m, false)
  }

  /**
   `delete(k)` returns whether `k` was present; an absent key leaves the map as
   it was; otherwise exactly the entry at `k` goes, and every other entry keeps
   its value and its relative order.
   */
  lemma DeleteSpec<V>(m: seq<Entry<V>>, k: string)
    requires DistinctKeys(m)
    ensures Delete(m, k).1 == Has(m, k)
    ensures !Has(m, k) ==> Delete(m, k).0 == m
    ensures Delete(m, k).0 == Without(m, k)
    ensures DistinctKeys(Delete(m, k).0)
    ensures KeySet(Delete(m, k).0) == KeySet(m) - {k}
    ensures forall k' :: k' != k ==> Get(Delete(m, k).0, k') == Get(m, k')
  {
    match IndexOf(m, k)
    case Some(i) =>
      WithoutSplice(m, k, i);
      WithoutFacts(m, k);
    case None =>
      WithoutAbsent(m, k);
      WithoutFacts(m, k);
  }
}
