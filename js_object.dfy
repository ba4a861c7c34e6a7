/**
 * A JavaScript object used as a dictionary (`{ [key: string]: V }`), kept as the
 * sequence of its own entries in the order `Object.entries` lists them: keys that
 * are array indices first, in ascending numeric order, then every other key in the
 * order it was first assigned.
 */
module JsObject {
  import opened Wrappers
  import opened Text

  /** An array index: the canonical decimal text of an integer from 0 to 2^32 - 2. */
  predicate IsArrayIndex(k: string)
  {
    && |k| >= 1 && AllDigits(k) && (|k| == 1 || k[0] != '0')
    && DigitsValue(k) <= 0xFFFF_FFFE
  }

  function IndexValue(k: string): nat
    requires IsArrayIndex(k)
  {
    DigitsValue(k)
  }

  type Entries<V> = seq<(string, V)>

  function Keys<V>(e: Entries<V>): (ks: seq<string>)
    ensures |ks| == |e| && forall j :: 0 <= j < |e| ==> ks[j] == e[j].0
  {
    seq(|e|, j requires 0 <= j < |e| => e[j].0)
  }

  /** `o[k]`: the value stored under `k`, or `undefined` (`None`). */
  function Get<V>(e: Entries<V>, k: string): Option<V>
  {
    if |e| == 0 then None
    else if e[0].0 == k then Some(e[0].1)
    else Get(e[1..], k)
  }

  predicate DistinctKeys<V>(e: Entries<V>)
  {
    forall i, j :: 0 <= i < j < |e| ==> e[i].0 != e[j].0
  }

  /** The order `Object.entries` guarantees: distinct keys, and the array-index keys
      form a prefix sorted by increasing numeric value. */
  predicate OwnKeyOrder<V>(e: Entries<V>)
  {
    && DistinctKeys(e)
    && forall i, j :: 0 <= i < j < |e| && IsArrayIndex(e[j].0) ==>
         IsArrayIndex(e[i].0) && IndexValue(e[i].0) < IndexValue(e[j].0)
  }

  /** `o[k] = v` on a dictionary in `Object.entries` order: an existing key keeps
      its place, a new array-index key goes before the first entry that is not an
      array index or has a value at least as large, and any other new key goes at
      the end. */
  function Put<V>(e: Entries<V>, k: string, v: V): Entries<V>
  {
    if |e| == 0 then [(k, v)]
    else if e[0].0 == k then [(k, v)] + e[1..]
    else if IsArrayIndex(k) && (!IsArrayIndex(e[0].0) || IndexValue(e[0].0) >= IndexValue(k)) then [(k, v)] + e
    else [e[0]] + Put(e[1..], k, v)
  }

  lemma {:induction false} GetAt<V>(e: Entries<V>, j: nat)
    requires DistinctKeys(e) && j < |e|
    ensures Get(e, e[j].0) == Some(e[j].1)
  {
    if j > 0 {
      assert e[1..][j - 1] == e[j];
      GetAt(e[1..], j - 1);
    }
  }

  lemma {:induction false} GetAbsent<V>(e: Entries<V>, k: string)
    requires k !in Keys(e)
    ensures Get(e, k) == None
  {
    if |e| > 0 {
      assert Keys(e)[0] == e[0].0;
      assert forall j :: 0 <= j < |e| - 1 ==> Keys(e[1..])[j] == Keys(e)[j + 1];
      GetAbsent(e[1..], k);
    }
  }

  /** `o[k] === undefined` exactly when `k` is not one of the object's own keys. */
  lemma GetDefined<V>(e: Entries<V>, k: string)
    requires DistinctKeys(e)
    ensures Get(e, k).Some? <==> k in Keys(e)
  {
    if k in Keys(e) {
      var j :| 0 <= j < |e| && Keys(e)[j] == k;
      GetAt(e, j);
    } else {
      GetAbsent(e, k);
    }
  }

  /** The digits of a canonical number are those rendered from its value, so two
      array-index keys with one value are one key. */
  lemma {:induction false} CanonicalDigits(k: string)
    requires |k| >= 1 && AllDigits(k) && (|k| == 1 || k[0] != '0')
    ensures NatToString(DigitsValue(k)) == k
  {
    if |k| > 1 {
      var k' := k[..|k| - 1];
      assert k'[0] == k[0];
      CanonicalDigits(k');
      PositiveValue(k');
      var n := DigitsValue(k);
      assert n / 10 == DigitsValue(k') && n % 10 == DigitValue(k[|k| - 1]);
      assert k == k' + [k[|k| - 1]];
    }
  }

  lemma {:induction false} PositiveValue(k: string)
    requires |k| >= 1 && AllDigits(k) && k[0] != '0'
    ensures DigitsValue(k) >= 1
  {
    if |k| > 1 {
      var k' := k[..|k| - 1];
      assert k'[0] == k[0];
      PositiveValue(k');
    }
  }

  lemma IndexValueInjective(k: string, k': string)
    requires IsArrayIndex(k) && IsArrayIndex(k') && IndexValue(k) == IndexValue(k')
    ensures k == k'
  {
    CanonicalDigits(k);
    CanonicalDigits(k');
  }

  lemma OrderOfTail<V>(e: Entries<V>)
    requires OwnKeyOrder(e) && |e| > 0
    ensures OwnKeyOrder(e[1..])
  {
    assert forall j :: 0 <= j < |e| - 1 ==> e[1..][j] == e[j + 1];
  }

  /** Assigning a key that is present overwrites its entry in place. */
  lemma {:induction false} PutPresentShape<V>(e: Entries<V>, k: string, v: V, j: nat)
    requires OwnKeyOrder(e) && j < |e| && e[j].0 == k
    ensures Put(e, k, v) == e[j := (k, v)]
  {
    if e[0].0 != k {
      assert j > 0;
      OrderOfTail(e);
      assert e[1..][j - 1] == e[j];
      PutPresentShape(e[1..], k, v, j - 1);
      assert [e[0]] + e[1..][j - 1 := (k, v)] == e[j := (k, v)];
    }
  }

  /** Where a new key may stand: at the end unless it is an array index, and then
      after the array-index keys of smaller value and before those of larger value. */
  predicate NewKeyPlace<V>(e: Entries<V>, k: string, p: nat)
    requires p <= |e|
  {
    && (!IsArrayIndex(k) ==> p == |e|)
    && (IsArrayIndex(k) ==>
          && (forall j :: 0 <= j < p ==> IsArrayIndex(e[j].0) && IndexValue(e[j].0) < IndexValue(k))
          && (forall j :: p <= j < |e| && IsArrayIndex(e[j].0) ==> IndexValue(e[j].0) > IndexValue(k)))
  }

  /** A key not yet present is inserted in its `NewKeyPlace`, the existing entries
      keeping their order. */
  lemma {:induction false} PutNewKey<V>(e: Entries<V>, k: string, v: V) returns (p: nat)
    requires OwnKeyOrder(e) && forall j :: 0 <= j < |e| ==> e[j].0 != k
    ensures p <= |e| && Put(e, k, v) == e[..p] + [(k, v)] + e[p..] && NewKeyPlace(e, k, p)
  {
    if |e| == 0 {
      p := 0;
      PlaceEmpty(e, k, v);
    } else if IsArrayIndex(k) && (!IsArrayIndex(e[0].0) || IndexValue(e[0].0) >= IndexValue(k)) {
      p := 0;
      PlaceFirst(e, k, v);
    } else {
      OrderOfTail(e);
      var t := e[1..];
      assert forall j :: 0 <= j < |t| ==> t[j].0 != k by {
        forall j | 0 <= j < |t| ensures t[j].0 != k { assert t[j] == e[j + 1]; }
      }
      var q := PutNewKey(t, k, v);
      p := q + 1;
      PlaceLater(e, k, v, q);
    }
  }

  lemma PlaceEmpty<V>(e: Entries<V>, k: string, v: V)
    requires |e| == 0
    ensures Put(e, k, v) == e[..0] + [(k, v)] + e[0..] && NewKeyPlace(e, k, 0)
  {
  }

  lemma PlaceLater<V>(e: Entries<V>, k: string, v: V, q: nat)
    requires |e| > 0 && q <= |e| - 1 && e[0].0 != k
    requires !(IsArrayIndex(k) && (!IsArrayIndex(e[0].0) || IndexValue(e[0].0) >= IndexValue(k)))
    requires Put(e[1..], k, v) == e[1..][..q] + [(k, v)] + e[1..][q..] && NewKeyPlace(e[1..], k, q)
    ensures Put(e, k, v) == e[..q + 1] + [(k, v)] + e[q + 1..] && NewKeyPlace(e, k, q + 1)
  {
    assert Put(e, k, v) == [e[0]] + Put(e[1..], k, v);
    ConsSplice(e, k, v, q);
    assert forall j :: 0 <= j < |e| - 1 ==> e[1..][j] == e[j + 1];
  }

  lemma ConsSplice<V>(e: Entries<V>, k: string, v: V, q: nat)
    requires |e| > 0 && q <= |e| - 1
    ensures [e[0]] + (e[1..][..q] + [(k, v)] + e[1..][q..]) == e[..q + 1] + [(k, v)] + e[q + 1..]
  {
  }

  lemma PlaceFirst<V>(e: Entries<V>, k: string, v: V)
    requires OwnKeyOrder(e) && |e| > 0 && forall j :: 0 <= j < |e| ==> e[j].0 != k
    requires IsArrayIndex(k) && (!IsArrayIndex(e[0].0) || IndexValue(e[0].0) >= IndexValue(k))
    ensures Put(e, k, v) == e[..0] + [(k, v)] + e[0..] && NewKeyPlace(e, k, 0)
  {
    assert e[..0] + [(k, v)] + e[0..] == [(k, v)] + e;
    forall j | 0 <= j < |e| && IsArrayIndex(e[j].0) ensures IndexValue(e[j].0) > IndexValue(k) {
      if IndexValue(e[j].0) == IndexValue(k) { IndexValueInjective(e[j].0, k); }
      if j > 0 { assert IsArrayIndex(e[0].0) && IndexValue(e[0].0) < IndexValue(e[j].0); }
    }
  }

  /** The entries around an insertion point. */
  lemma SplicePointwise<V>(e: Entries<V>, k: string, v: V, p: nat)
    requires p <= |e|
    ensures var r := e[..p] + [(k, v)] + e[p..];
      && |r| == |e| + 1 && r[p] == (k, v)
      && (forall j {:trigger r[j]} :: 0 <= j < p ==> r[j] == e[j])
      && (forall j {:trigger r[j]} :: p < j < |r| ==> r[j] == e[j - 1])
  {
  }

  /** Assigning a key keeps every other key's value, gives the key its new value,
      adds it to the key set, and keeps the order `Object.entries` promises. */
  lemma PutSpec<V>(e: Entries<V>, k: string, v: V)
    requires OwnKeyOrder(e)
    ensures OwnKeyOrder(Put(e, k, v))
    ensures Get(Put(e, k, v), k) == Some(v)
    ensures forall k' :: k' != k ==> Get(Put(e, k, v), k') == Get(e, k')
    ensures forall k' :: k' in Keys(Put(e, k, v)) <==> k' in Keys(e) || k' == k
  {
    if j :| 0 <= j < |e| && e[j].0 == k {
      PutPresentShape(e, k, v, j);
      PutPresent(e, Put(e, k, v), k, v, j);
    } else {
      var p := PutNewKey(e, k, v);
      var r := e[..p] + [(k, v)] + e[p..];
      SplicePointwise(e, k, v, p);
      SpliceOrder(e, r, k, v, p);
      SpliceLookup(e, r, k, v, p);
      SpliceKeys(e, r, k, v, p);
    }
  }

  lemma PutPresent<V>(e: Entries<V>, r: Entries<V>, k: string, v: V, j: nat)
    requires OwnKeyOrder(e) && j < |e| && e[j].0 == k && r == e[j := (k, v)]
    ensures OwnKeyOrder(r)
    ensures Get(r, k) == Some(v)
    ensures forall k' :: k' != k ==> Get(r, k') == Get(e, k')
    ensures forall k' :: k' in Keys(r) <==> k' in Keys(e) || k' == k
  {
    assert forall i :: 0 <= i < |e| ==> Keys(r)[i] == Keys(e)[i];
    assert Keys(r) == Keys(e);
    GetAt(r, j);
    forall k' | k' != k ensures Get(r, k') == Get(e, k') {
      if i :| 0 <= i < |e| && e[i].0 == k' {
        GetAt(r, i);
        GetAt(e, i);
      } else {
        assert k' !in Keys(e);
        GetAbsent(r, k');
        GetAbsent(e, k');
      }
    }
  }

  lemma SpliceOrder<V>(e: Entries<V>, r: Entries<V>, k: string, v: V, p: nat)
    requires OwnKeyOrder(e) && p <= |e| && |r| == |e| + 1
    requires forall j {:trigger r[j]} :: 0 <= j < p ==> r[j] == e[j]
    requires r[p] == (k, v)
    requires forall j {:trigger r[j]} :: p < j < |r| ==> r[j] == e[j - 1]
    requires forall j :: 0 <= j < |e| ==> e[j].0 != k
    requires !IsArrayIndex(k) ==> p == |e|
    requires IsArrayIndex(k) ==> forall j :: 0 <= j < p ==> IsArrayIndex(e[j].0) && IndexValue(e[j].0) < IndexValue(k)
    requires IsArrayIndex(k) ==> forall j :: p <= j < |e| && IsArrayIndex(e[j].0) ==> IndexValue(e[j].0) > IndexValue(k)
    ensures OwnKeyOrder(r)
  {
    forall i, j | 0 <= i < j < |r| ensures r[i].0 != r[j].0 {
      if j < p || i > p { } else if i == p { assert r[j] == e[j - 1]; } else { }
    }
    forall i, j | 0 <= i < j < |r| && IsArrayIndex(r[j].0)
      ensures IsArrayIndex(r[i].0) && IndexValue(r[i].0) < IndexValue(r[j].0)
    {
      if j < p || i > p { } else if i == p { assert r[j] == e[j - 1]; } else { }
    }
  }

  lemma SpliceLookup<V>(e: Entries<V>, r: Entries<V>, k: string, v: V, p: nat)
    requires DistinctKeys(e) && DistinctKeys(r) && p <= |e| && |r| == |e| + 1
    requires forall j {:trigger r[j]} :: 0 <= j < p ==> r[j] == e[j]
    requires r[p] == (k, v)
    requires forall j {:trigger r[j]} :: p < j < |r| ==> r[j] == e[j - 1]
    ensures Get(r, k) == Some(v)
    ensures forall k' :: k' != k ==> Get(r, k') == Get(e, k')
  {
    GetAt(r, p);
    forall k' | k' != k ensures Get(r, k') == Get(e, k') {
      SpliceLookupOther(e, r, k, v, p, k');
    }
  }

  lemma SpliceLookupOther<V>(e: Entries<V>, r: Entries<V>, k: string, v: V, p: nat, k': string)
    requires DistinctKeys(e) && DistinctKeys(r) && p <= |e| && |r| == |e| + 1
    requires forall j {:trigger r[j]} :: 0 <= j < p ==> r[j] == e[j]
    requires r[p] == (k, v)
    requires forall j {:trigger r[j]} :: p < j < |r| ==> r[j] == e[j - 1]
    requires k' != k
    ensures Get(r, k') == Get(e, k')
  {
    if i :| 0 <= i < |e| && e[i].0 == k' {
      SplicePresent(e, r, k, v, p, i);
    } else {
      SpliceAbsent(e, r, k, v, p, k');
    }
  }

  lemma SplicePresent<V>(e: Entries<V>, r: Entries<V>, k: string, v: V, p: nat, i: nat)
    requires DistinctKeys(e) && DistinctKeys(r) && p <= |e| && |r| == |e| + 1
    requires forall j {:trigger r[j]} :: 0 <= j < p ==> r[j] == e[j]
    requires forall j {:trigger r[j]} :: p < j < |r| ==> r[j] == e[j - 1]
    requires i < |e|
    ensures Get(r, e[i].0) == Get(e, e[i].0)
  {
    GetAt(e, i);
    if i < p {
      assert r[i] == e[i];
      GetAt(r, i);
    } else {
      assert r[i + 1] == e[i];
      GetAt(r, i + 1);
    }
  }

  lemma SpliceAbsent<V>(e: Entries<V>, r: Entries<V>, k: string, v: V, p: nat, k': string)
    requires p <= |e| && |r| == |e| + 1
    requires forall j {:trigger r[j]} :: 0 <= j < p ==> r[j] == e[j]
    requires r[p] == (k, v)
    requires forall j {:trigger r[j]} :: p < j < |r| ==> r[j] == e[j - 1]
    requires k' != k
    requires forall i :: 0 <= i < |e| ==> e[i].0 != k'
    ensures Get(r, k') == None && Get(e, k') == None
  {
    assert forall i :: 0 <= i < |r| ==> r[i].0 != k' by {
      forall i | 0 <= i < |r| ensures r[i].0 != k' {
        if i < p { assert r[i] == e[i]; } else if i > p { assert r[i] == e[i - 1]; }
      }
    }
    AbsentKeys(r, k');
    AbsentKeys(e, k');
    GetAbsent(r, k');
    GetAbsent(e, k');
  }

  lemma AbsentKeys<V>(e: Entries<V>, k: string)
    requires forall i :: 0 <= i < |e| ==> e[i].0 != k
    ensures k !in Keys(e)
  {
  }

  lemma SpliceKeys<V>(e: Entries<V>, r: Entries<V>, k: string, v: V, p: nat)
    requires p <= |e| && |r| == |e| + 1
    requires forall j {:trigger r[j]} :: 0 <= j < p ==> r[j] == e[j]
    requires r[p] == (k, v)
    requires forall j {:trigger r[j]} :: p < j < |r| ==> r[j] == e[j - 1]
    ensures forall k' :: k' in Keys(r) <==> k' in Keys(e) || k' == k
  {
    forall k' ensures k' in Keys(r) <==> k' in Keys(e) || k' == k {
      if k' in Keys(e) {
        var i :| 0 <= i < |e| && Keys(e)[i] == k';
        if i < p { assert Keys(r)[i] == k'; } else { assert Keys(r)[i + 1] == k'; }
      }
      if k' in Keys(r) && k' != k {
        var i :| 0 <= i < |r| && Keys(r)[i] == k';
        if i < p { assert Keys(e)[i] == k'; } else { assert Keys(e)[i - 1] == k'; }
      }
      if k' == k { assert Keys(r)[p] == k; }
    }
  }

  /** Every entry after an assignment is the new one or was there before. */
  lemma {:induction false} PutEntries<V>(e: Entries<V>, k: string, v: V)
    ensures forall j :: 0 <= j < |Put(e, k, v)| ==> Put(e, k, v)[j] == (k, v) || Put(e, k, v)[j] in e
  {
    var r := Put(e, k, v);
    if |e| == 0 {
    } else if e[0].0 == k {
      forall j | 0 <= j < |r| ensures r[j] == (k, v) || r[j] in e {
        if j > 0 { assert r[j] == e[j]; }
      }
    } else if IsArrayIndex(k) && (!IsArrayIndex(e[0].0) || IndexValue(e[0].0) >= IndexValue(k)) {
      forall j | 0 <= j < |r| ensures r[j] == (k, v) || r[j] in e {
        if j > 0 { assert r[j] == e[j - 1]; }
      }
    } else {
      PutEntries(e[1..], k, v);
      forall j | 0 <= j < |r| ensures r[j] == (k, v) || r[j] in e {
        if j > 0 {
          assert r[j] == Put(e[1..], k, v)[j - 1];
          if r[j] != (k, v) {
            var i :| 0 <= i < |e[1..]| && e[1..][i] == r[j];
            assert e[i + 1] == r[j];
          }
        }
      }
    }
  }
}
