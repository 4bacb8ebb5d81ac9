/**
 * The attribute extractor, `find_attributes`: scan a flat array of
 * alternating key/value string references and keep the requested keys.
 */
module Attributes {
  import opened Wrappers
  import opened PyText

  /** A Python `dict` from str to str, as its entries in insertion order. */
  type Dict = seq<(string, string)>

  predicate IsDict(d: Dict) {
    forall i, j :: 0 <= i < j < |d| ==> d[i].0 != d[j].0
  }

  predicate Distinct(keys: seq<string>) {
    forall i, j :: 0 <= i < j < |keys| ==> keys[i] != keys[j]
  }

  function Keys(d: Dict): (r: seq<string>)
    ensures |r| == |d| && forall i :: 0 <= i < |d| ==> r[i] == d[i].0
  {
    seq(|d|, i requires 0 <= i < |d| => d[i].0)
  }

  /** The values in iteration order, as `for key in d: out.append(d[key])` collects them. */
  function Values(d: Dict): (r: seq<string>)
    ensures |r| == |d| && forall i :: 0 <= i < |d| ==> r[i] == d[i].1
  {
    seq(|d|, i requires 0 <= i < |d| => d[i].1)
  }

  /** `d.get(k)`. */
  function Get(d: Dict, k: string): (r: Option<string>)
    ensures r.None? <==> k !in Keys(d)
    ensures r.Some? ==> (k, r.value) in d
  {
    match IndexOf(Keys(d), k)
    case None => None
    case Some(j) => Some(d[j].1)
  }

  /** In a dict, the entry at position `j` is what a lookup of its key finds. */
  lemma GetAt(d: Dict, j: nat)
    requires IsDict(d) && j < |d|
    ensures Get(d, d[j].0) == Some(d[j].1)
  {
    var ks := Keys(d);
    assert ks[j] == d[j].0;
    assert d[j].0 !in ks[..j] by {
      forall m | 0 <= m < j ensures ks[..j][m] != d[j].0 {
        assert ks[..j][m] == d[m].0;
      }
    }
    IndexOfUnique(ks, d[j].0, j);
  }

  /** `d[k] = v`: an existing key keeps its position, a new key goes last. */
  function Put(d: Dict, k: string, v: string): (r: Dict)
    ensures k !in Keys(d) ==> r == d + [(k, v)]
    ensures k in Keys(d) ==> |r| == |d|
    ensures forall p :: p in r ==> p in d || p == (k, v)
  {
    match IndexOf(Keys(d), k)
    case None => d + [(k, v)]
    case Some(j) => d[j := (k, v)]
  }

  /** After `d[k] = v`, `k` maps to `v`, every other key is untouched, and keys stay unique. */
  lemma PutGet(d: Dict, k: string, v: string)
    requires IsDict(d)
    ensures IsDict(Put(d, k, v))
    ensures Get(Put(d, k, v), k) == Some(v)
    ensures forall k' :: k' != k ==> Get(Put(d, k, v), k') == Get(d, k')
  {
    var r := Put(d, k, v);
    match IndexOf(Keys(d), k)
    case None =>
      assert forall i :: 0 <= i < |d| ==> d[i].0 != k by {
        forall i | 0 <= i < |d| ensures d[i].0 != k { assert Keys(d)[i] == d[i].0; }
      }
      assert IsDict(r);
      GetAt(r, |d|);
      forall k' | k' != k ensures Get(r, k') == Get(d, k') {
        if k' in Keys(d) {
          var j :| 0 <= j < |d| && Keys(d)[j] == k';
          GetAt(d, j);
          GetAt(r, j);
        } else {
          assert k' !in Keys(r) by {
            forall i | 0 <= i < |r| ensures Keys(r)[i] != k' {
              if i < |d| { assert Keys(r)[i] == Keys(d)[i]; }
            }
          }
        }
      }
    case Some(j) =>
      assert Keys(r) == Keys(d);
      GetAt(r, j);
      forall k' | k' != k ensures Get(r, k') == Get(d, k') {
        if k' in Keys(d) {
          var i :| 0 <= i < |d| && Keys(d)[i] == k';
          GetAt(d, i);
          GetAt(r, i);
        }
      }
  }

  /** `d.pop(k, None)`: the entry for `k`, if any, is removed. */
  function Pop(d: Dict, k: string): (r: Dict)
    ensures k !in Keys(d) ==> r == d
    ensures forall p :: p in r ==> p in d
  {
    match IndexOf(Keys(d), k)
    case None => d
    case Some(j) =>
      assert forall p :: p in d[..j] + d[j + 1..] ==> p in d by {
        forall p | p in d[..j] + d[j + 1..] ensures p in d {
          var m :| 0 <= m < |d[..j] + d[j + 1..]| && (d[..j] + d[j + 1..])[m] == p;
          if m < j { assert d[m] == p; } else { assert d[m + 1] == p; }
        }
      }
      d[..j] + d[j + 1..]
  }

  /** Removing entry `j` shifts every later entry down by one. */
  lemma RemoveAtShape(d: Dict, j: nat)
    requires j < |d|
    ensures var r := d[..j] + d[j + 1..];
            && |r| == |d| - 1
            && (forall i :: 0 <= i < j ==> r[i] == d[i])
            && (forall i :: j <= i < |r| ==> r[i] == d[i + 1])
  {
  }

  /** After `d.pop(k, None)` on a dict, `k` is gone and every other entry is still there. */
  lemma PopRemoves(d: Dict, k: string)
    requires IsDict(d)
    ensures IsDict(Pop(d, k))
    ensures k !in Keys(Pop(d, k))
    ensures forall p :: p in d && p.0 != k ==> p in Pop(d, k)
  {
    var r := Pop(d, k);
    match IndexOf(Keys(d), k)
    case None =>
    case Some(j) =>
      assert r == d[..j] + d[j + 1..];
      RemoveAtShape(d, j);
      assert d[j].0 == k by { assert Keys(d)[j] == d[j].0; }
      assert IsDict(r) by {
        forall a, b | 0 <= a < b < |r| ensures r[a].0 != r[b].0 {
          var a', b' := if a < j then a else a + 1, if b < j then b else b + 1;
          assert r[a] == d[a'] && r[b] == d[b'] && a' < b';
        }
      }
      assert k !in Keys(r) by {
        forall i | 0 <= i < |r| ensures Keys(r)[i] != k {
          var i' := if i < j then i else i + 1;
          assert r[i] == d[i'] && i' != j;
        }
      }
      forall p | p in d && p.0 != k ensures p in r {
        var m :| 0 <= m < |d| && d[m] == p;
        assert m != j;
        assert r[if m < j then m else m - 1] == p;
      }
  }


  /** `keys.remove(key)`: the first occurrence goes. */
  function RemoveFirst(keys: seq<string>, key: string): (r: seq<string>)
    requires key in keys
    ensures |r| == |keys| - 1
    ensures forall x :: x in r ==> x in keys
    ensures Distinct(keys) ==> Distinct(r) && forall x :: x in r <==> x in keys && x != key
  {
    if keys[0] == key then
      assert forall x :: x in keys[1..] && Distinct(keys) ==> x != key by {
        forall x | x in keys[1..] && Distinct(keys) ensures x != key {
          var j :| 0 <= j < |keys[1..]| && keys[1..][j] == x;
          assert keys[j + 1] == x;
        }
      }
      keys[1..]
    else
      var r := [keys[0]] + RemoveFirst(keys[1..], key);
      assert Distinct(keys) ==> keys[0] !in keys[1..] by {
        if Distinct(keys) {
          forall j | 0 <= j < |keys[1..]| ensures keys[1..][j] != keys[0] {
            assert keys[1..][j] == keys[j + 1];
          }
        }
      }
      r
  }

  /**
   * Every string reference the scan dereferences is in range. Pairs with a
   * negative value reference are skipped unread, and once every requested
   * key has been matched the rest of the array is never read.
   */
  predicate ScanDefined(attrs: seq<int>, keys: seq<string>, strings: seq<string>)
    decreases |attrs|
  {
    if |attrs| < 2 then true
    else if attrs[1] < 0 then ScanDefined(attrs[2..], keys, strings)
    else
      && ValidIndex(strings, attrs[0]) && attrs[1] < |strings|
      && var key := PyAt(strings, attrs[0]);
         if key in keys then
           var rest := RemoveFirst(keys, key);
           rest == [] || ScanDefined(attrs[2..], rest, strings)
         else ScanDefined(attrs[2..], keys, strings)
  }

  /**
   * What `find_attributes` returns, continuing from the entries `acc`
   * already found with `keys` still wanted. A trailing unpaired element is
   * ignored, as `zip` drops it.
   */
  function Scan(attrs: seq<int>, keys: seq<string>, strings: seq<string>, acc: Dict): Dict
    requires ScanDefined(attrs, keys, strings)
    decreases |attrs|
  {
    if |attrs| < 2 then acc
    else if attrs[1] < 0 then Scan(attrs[2..], keys, strings, acc)
    else
      var key := PyAt(strings, attrs[0]);
      var value := strings[attrs[1]];
      if key in keys then
        var rest := RemoveFirst(keys, key);
        var acc' := Put(acc, key, value);
        if rest == [] then acc' else Scan(attrs[2..], rest, strings, acc')
      else Scan(attrs[2..], keys, strings, acc)
  }

  /** `find_attributes(attributes, keys, strings)`, with `keys` a list the call may consume. */
  method FindAttributes(attributes: seq<int>, keys: seq<string>, strings: seq<string>) returns (values: Dict)
    requires ScanDefined(attributes, keys, strings)
    ensures values == Scan(attributes, keys, strings, [])
  {
    values := [];
    var remaining := keys;
    var i := 0;
    while i + 1 < |attributes|
      invariant 0 <= i <= |attributes|
      invariant ScanDefined(attributes[i..], remaining, strings)
      invariant Scan(attributes[i..], remaining, strings, values) == Scan(attributes, keys, strings, [])
    {
      assert attributes[i..][2..] == attributes[i + 2..];
      var keyIndex, valueIndex := attributes[i], attributes[i + 1];
      if valueIndex < 0 {
        i := i + 2;
        continue;
      }
      var key := PyAt(strings, keyIndex);
      var value := strings[valueIndex];
      if key in remaining {
        values := Put(values, key, value);
        remaining := RemoveFirst(remaining, key);
        if remaining == [] {
          return;
        }
      }
      i := i + 2;
    }
  }

  /** Every non-skipped pair has its references in range (the snapshot's own guarantee). */
  predicate RefsValid(attrs: seq<int>, strings: seq<string>)
    decreases |attrs|
  {
    |attrs| < 2 ||
    ((attrs[1] >= 0 ==> ValidIndex(strings, attrs[0]) && attrs[1] < |strings|) && RefsValid(attrs[2..], strings))
  }

  lemma {:induction false} RefsValidScanDefined(attrs: seq<int>, keys: seq<string>, strings: seq<string>)
    requires RefsValid(attrs, strings)
    ensures ScanDefined(attrs, keys, strings)
    decreases |attrs|
  {
    if |attrs| >= 2 {
      if attrs[1] < 0 {
        RefsValidScanDefined(attrs[2..], keys, strings);
      } else {
        var key := PyAt(strings, attrs[0]);
        if key in keys {
          RefsValidScanDefined(attrs[2..], RemoveFirst(keys, key), strings);
        } else {
          RefsValidScanDefined(attrs[2..], keys, strings);
        }
      }
    }
  }

  /** Reference meaning of a lookup: the value of the first pair with key `k` and a non-negative value. */
  function FirstValue(attrs: seq<int>, k: string, strings: seq<string>): Option<string>
    requires RefsValid(attrs, strings)
    decreases |attrs|
  {
    if |attrs| < 2 then None
    else if attrs[1] >= 0 && PyAt(strings, attrs[0]) == k then Some(strings[attrs[1]])
    else FirstValue(attrs[2..], k, strings)
  }

  /** Every entry found is a requested key (or was already there), and the result is a dict. */
  lemma {:induction false} ScanKeys(attrs: seq<int>, keys: seq<string>, strings: seq<string>, acc: Dict)
    requires ScanDefined(attrs, keys, strings) && IsDict(acc)
    ensures IsDict(Scan(attrs, keys, strings, acc))
    ensures forall p :: p in Scan(attrs, keys, strings, acc) ==> p in acc || p.0 in keys
    decreases |attrs|
  {
    if |attrs| >= 2 {
      if attrs[1] < 0 {
        ScanKeys(attrs[2..], keys, strings, acc);
      } else {
        var key := PyAt(strings, attrs[0]);
        var value := strings[attrs[1]];
        if key in keys {
          var rest := RemoveFirst(keys, key);
          PutGet(acc, key, value);
          if rest != [] {
            ScanKeys(attrs[2..], rest, strings, Put(acc, key, value));
          }
        } else {
          ScanKeys(attrs[2..], keys, strings, acc);
        }
      }
    }
  }

  /**
   * With distinct requested keys, each requested key ends up with the value
   * of its first usable occurrence, or is absent when it has none; other
   * keys keep what `acc` had.
   */
  lemma {:induction false} ScanFirstOccurrence(attrs: seq<int>, keys: seq<string>, strings: seq<string>, acc: Dict, k: string)
    requires RefsValid(attrs, strings) && Distinct(keys) && IsDict(acc)
    requires forall x :: x in keys ==> Get(acc, x) == None
    ensures ScanDefined(attrs, keys, strings)
    ensures Get(Scan(attrs, keys, strings, acc), k) == if k in keys then FirstValue(attrs, k, strings) else Get(acc, k)
    decreases |attrs|
  {
    RefsValidScanDefined(attrs, keys, strings);
    if |attrs| >= 2 {
      if attrs[1] < 0 {
        ScanFirstOccurrence(attrs[2..], keys, strings, acc, k);
      } else {
        var key := PyAt(strings, attrs[0]);
        var value := strings[attrs[1]];
        if key in keys {
          var rest := RemoveFirst(keys, key);
          var acc' := Put(acc, key, value);
          PutGet(acc, key, value);
          if rest != [] {
            ScanFirstOccurrence(attrs[2..], rest, strings, acc', k);
          }
        } else {
          ScanFirstOccurrence(attrs[2..], keys, strings, acc, k);
        }
      }
    }
  }

  /**
   * The meaning of `find_attributes` for distinct requested keys: the result
   * is a dict over requested keys only, a key is present exactly when some
   * pair with a non-negative value carries it, and its value is that of the
   * first such pair.
   */
  lemma FindAttributesMeaning(attrs: seq<int>, keys: seq<string>, strings: seq<string>)
    requires RefsValid(attrs, strings) && Distinct(keys)
    ensures ScanDefined(attrs, keys, strings)
    ensures IsDict(Scan(attrs, keys, strings, []))
    ensures forall p :: p in Scan(attrs, keys, strings, []) ==> p.0 in keys
    ensures forall k :: k in keys ==> Get(Scan(attrs, keys, strings, []), k) == FirstValue(attrs, k, strings)
  {
    RefsValidScanDefined(attrs, keys, strings);
    ScanKeys(attrs, keys, strings, []);
    forall k | k in keys
      ensures Get(Scan(attrs, keys, strings, []), k) == FirstValue(attrs, k, strings)
    {
      ScanFirstOccurrence(attrs, keys, strings, [], k);
    }
  }

  /**
   * The early return changes nothing observable: the result holds every
   * requested key exactly when each of them occurs, and then nothing else.
   */
  lemma AllKeysFound(attrs: seq<int>, keys: seq<string>, strings: seq<string>)
    requires RefsValid(attrs, strings) && Distinct(keys)
    ensures ScanDefined(attrs, keys, strings)
    ensures (set p | p in Scan(attrs, keys, strings, []) :: p.0) == (set k | k in keys) <==>
            forall k :: k in keys ==> FirstValue(attrs, k, strings).Some?
  {
    FindAttributesMeaning(attrs, keys, strings);
    var r := Scan(attrs, keys, strings, []);
    if forall k :: k in keys ==> FirstValue(attrs, k, strings).Some? {
      forall k | k in keys ensures k in (set p | p in r :: p.0) {
        var v := Get(r, k).value;
        assert (k, v) in r;
      }
    } else {
      var k :| k in keys && FirstValue(attrs, k, strings).None?;
      forall p | p in r ensures p.0 != k {
        var j :| 0 <= j < |r| && r[j] == p;
        assert Keys(r)[j] == p.0;
      }
      var found := set p | p in r :: p.0;
      var wanted := set x | x in keys;
      assert k in wanted && k !in found;
      assert found != wanted;
    }
  }
}
