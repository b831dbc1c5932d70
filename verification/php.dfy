/** The few PHP semantics the library leans on: truthiness of strings,
    string-keyed arrays (ordered maps whose keys are unique, where writing an
    existing key keeps its position), and the decimal rendering of integers. */
module Php {
  import opened Wrappers

  /** `if ($s)` on a string: both "" and "0" are false. */
  predicate Truthy(s: string) {
    s != "" && s != "0"
  }

  /** One key/value pair of a PHP array with string keys. */
  datatype Entry<V> = Entry(key: string, val: V)

  /** The keys of an array, in order. */
  function Keys<V>(a: seq<Entry<V>>): seq<string> {
    seq(|a|, i requires 0 <= i < |a| => a[i].key)
  }

  /** PHP's invariant on arrays: no key occurs twice. */
  predicate UniqueKeys<V>(a: seq<Entry<V>>) {
    forall i, j :: 0 <= i < j < |a| ==> a[i].key != a[j].key
  }

  /** `array_key_exists($k, $a)` */
  predicate HasKey<V>(a: seq<Entry<V>>, k: string) {
    k in Keys(a)
  }

  /** `$a[$k]`, or None when the key is absent. */
  function Get<V>(a: seq<Entry<V>>, k: string): Option<V> {
    if a == [] then None
    else if a[0].key == k then Some(a[0].val)
    else Get(a[1..], k)
  }

  /** Reading a key finds a value exactly when the key exists. */
  lemma {:induction false} GetFound<V>(a: seq<Entry<V>>, k: string)
    ensures Get(a, k).Some? <==> HasKey(a, k)
  {
    if a != [] {
      GetFound(a[1..], k);
      assert Keys(a) == [a[0].key] + Keys(a[1..]);
    }
  }

  /** `$a[$k] = $v`: an existing key keeps its position and takes the new
      value (last write wins); a new key is appended. */
  function Put<V>(a: seq<Entry<V>>, k: string, v: V): seq<Entry<V>> {
    if a == [] then [Entry(k, v)]
    else if a[0].key == k then [Entry(k, v)] + a[1..]
    else [a[0]] + Put(a[1..], k, v)
  }

  /** Writing a key keeps the keys, or appends the new one. */
  lemma {:induction false} PutKeys<V>(a: seq<Entry<V>>, k: string, v: V)
    ensures Keys(Put(a, k, v)) == if HasKey(a, k) then Keys(a) else Keys(a) + [k]
  {
    var r := Put(a, k, v);
    if a != [] {
      assert Keys(a) == [a[0].key] + Keys(a[1..]);
      if a[0].key == k {
        assert Keys(r) == [k] + Keys(a[1..]);
      } else {
        PutKeys(a[1..], k, v);
        assert Keys(r) == [a[0].key] + Keys(Put(a[1..], k, v));
      }
    }
  }

  /** After `$a[$k] = $v`, reading `$a[$k]` gives `$v` and every other key
      reads as before. */
  lemma {:induction false} PutGet<V>(a: seq<Entry<V>>, k: string, v: V, j: string)
    ensures Get(Put(a, k, v), j) == if j == k then Some(v) else Get(a, j)
  {
    if a != [] && a[0].key != k {
      PutGet(a[1..], k, v, j);
      assert Put(a, k, v)[1..] == Put(a[1..], k, v);
    }
  }

  /** Writing the same key twice leaves only the second write. */
  lemma {:induction false} PutTwice<V>(a: seq<Entry<V>>, k: string, v: V, w: V)
    ensures Put(Put(a, k, v), k, w) == Put(a, k, w)
  {
    if a != [] && a[0].key != k {
      PutTwice(a[1..], k, v, w);
      assert Put(a, k, v)[1..] == Put(a[1..], k, v);
    }
  }

  /** Writing back the value a key already holds changes nothing. */
  lemma {:induction false} PutBack<V>(a: seq<Entry<V>>, k: string)
    requires Get(a, k).Some?
    ensures Put(a, k, Get(a, k).value) == a
  {
    if a[0].key != k {
      PutBack(a[1..], k);
      assert a == [a[0]] + a[1..];
    } else {
      assert a == [a[0]] + a[1..];
    }
  }

  /** Appending a pair for a new key: the old keys read as before and the
      new key reads its value. */
  lemma {:induction false} GetSnoc<V>(a: seq<Entry<V>>, k: string, v: V, j: string)
    requires Get(a, k).None?
    ensures Get(a + [Entry(k, v)], j) == if j == k then Some(v) else Get(a, j)
  {
    if a != [] {
      assert (a + [Entry(k, v)])[1..] == a[1..] + [Entry(k, v)];
      GetSnoc(a[1..], k, v, j);
    }
  }

  /** A key that reads as absent is the key of no pair. */
  lemma {:induction false} GetNone<V>(a: seq<Entry<V>>, k: string)
    requires Get(a, k).None?
    ensures forall i :: 0 <= i < |a| ==> a[i].key != k
  {
    if a != [] {
      GetNone(a[1..], k);
      assert forall i :: 1 <= i < |a| ==> a[i] == a[1..][i - 1];
    }
  }

  /** A key found in a prefix reads the same in the whole array. */
  lemma {:induction false} GetPrefix<V>(a: seq<Entry<V>>, b: seq<Entry<V>>, k: string)
    requires a <= b && Get(a, k).Some?
    ensures Get(b, k) == Get(a, k)
  {
    if a[0].key != k {
      assert a[1..] <= b[1..];
      GetPrefix(a[1..], b[1..], k);
    }
  }

  /** Writing a key never creates a duplicate. */
  lemma PutUnique<V>(a: seq<Entry<V>>, k: string, v: V)
    requires UniqueKeys(a)
    ensures UniqueKeys(Put(a, k, v))
  {
    var r := Put(a, k, v);
    PutKeys(a, k, v);
    var ks := Keys(r);
    assert forall i :: 0 <= i < |r| ==> r[i].key == ks[i];
    if HasKey(a, k) {
      assert ks == Keys(a);
    } else {
      assert ks == Keys(a) + [k];
    }
  }

  /** The character of one decimal digit. */
  function DigitChar(d: nat): char
    requires d < 10
  {
    ('0' as int + d) as char
  }

  /** PHP's conversion of a non-negative integer to a string. */
  function NatToString(n: nat): (s: string)
    ensures 1 <= |s|
    ensures (n < 10) == (|s| == 1)
    ensures forall i :: 0 <= i < |s| ==> '0' <= s[i] <= '9'
  {
    if n < 10 then [DigitChar(n)] else NatToString(n / 10) + [DigitChar(n % 10)]
  }

  /** Distinct numbers are rendered as distinct strings. */
  lemma {:induction false} NatToStringInjective(a: nat, b: nat)
    requires NatToString(a) == NatToString(b)
    ensures a == b
  {
    var sa, sb := NatToString(a), NatToString(b);
    if a < 10 && b < 10 {
      assert sa[0] == DigitChar(a) && sb[0] == DigitChar(b);
    } else if a >= 10 && b >= 10 {
      assert sa[|sa| - 1] == DigitChar(a % 10);
      assert sb[|sb| - 1] == DigitChar(b % 10);
      assert sa[..|sa| - 1] == NatToString(a / 10);
      assert sb[..|sb| - 1] == NatToString(b / 10);
      NatToStringInjective(a / 10, b / 10);
    }
  }

  /** PHP's conversion of any integer (an integer array key) to a string. */
  function IntToString(i: int): (s: string)
    ensures 1 <= |s|
  {
    if i < 0 then "-" + NatToString(-i) else NatToString(i)
  }
}
