/** Insertion-ordered dictionaries, as Python's `dict` and `defaultdict` behave.

    A dictionary is a sequence of (key, value) entries in insertion order. Lookups
    take the first entry with the key; a well-formed dictionary (`IsDict`) has no
    repeated key, which is what every Python dict is.
 */
module Dicts {

  datatype Option<+T> = None | Some(value: T)

  type Dict<K, V> = seq<(K, V)>

  /** The keys in insertion order (`list(d.keys())`). */
  function Keys<K, V>(d: Dict<K, V>): (ks: seq<K>)
    ensures |ks| == |d|
    ensures forall i :: 0 <= i < |d| ==> ks[i] == d[i].0
  {
    seq(|d|, i requires 0 <= i < |d| => d[i].0)
  }

  predicate Distinct<T(==)>(s: seq<T>)
  {
    forall i, j :: 0 <= i < j < |s| ==> s[i] != s[j]
  }

  predicate IsDict<K(==), V>(d: Dict<K, V>)
  {
    Distinct(Keys(d))
  }

  /** The position of the first occurrence of `k`. */
  function IndexOf<K(==)>(ks: seq<K>, k: K): (i: nat)
    requires k in ks
    ensures i < |ks| && ks[i] == k
    ensures forall j :: 0 <= j < i ==> ks[j] != k
  {
    if ks[0] == k then 0 else 1 + IndexOf(ks[1..], k)
  }

  lemma IndexOfIsFirst<K>(ks: seq<K>, k: K, i: nat)
    requires i < |ks| && ks[i] == k
    requires forall j :: 0 <= j < i ==> ks[j] != k
    ensures IndexOf(ks, k) == i
  {
  }

  /** `d.get(k)`: the value of the first entry with key `k`, if any. */
  function Get<K(==), V>(d: Dict<K, V>, k: K): (r: Option<V>)
    ensures r.None? <==> k !in Keys(d)
  {
    if k in Keys(d) then Some(d[IndexOf(Keys(d), k)].1) else None
  }

  /** `d.get(k, dflt)`: the reading of a `defaultdict` whose default is `dflt`. */
  function GetOr<K(==), V>(d: Dict<K, V>, k: K, dflt: V): (r: V)
    ensures k !in Keys(d) ==> r == dflt
    ensures k in Keys(d) ==> Get(d, k) == Some(r)
  {
    match Get(d, k)
    case Some(v) => v
    case None => dflt
  }

  /** In a dictionary without repeated keys every entry is what a lookup of its key finds. */
  lemma GetEntry<K, V>(d: Dict<K, V>, i: nat)
    requires IsDict(d) && i < |d|
    ensures Get(d, d[i].0) == Some(d[i].1)
  {
    assert Keys(d)[i] == d[i].0;
  }

  /** Two dictionaries with the same keys in the same order and the same lookups are equal. */
  lemma DictExtensionality<K, V>(a: Dict<K, V>, b: Dict<K, V>)
    requires IsDict(a) && IsDict(b) && Keys(a) == Keys(b)
    requires forall k :: Get(a, k) == Get(b, k)
    ensures a == b
  {
    forall i | 0 <= i < |a| ensures a[i] == b[i] {
      GetEntry(a, i);
      GetEntry(b, i);
    }
  }

  /** `d[k] = v`: an existing key keeps its place and takes the new value, a new key goes last. */
  function Put<K(==,!new), V>(d: Dict<K, V>, k: K, v: V): (r: Dict<K, V>)
    ensures Keys(r) == if k in Keys(d) then Keys(d) else Keys(d) + [k]
    ensures Get(r, k) == Some(v)
    ensures forall k' :: k' != k ==> Get(r, k') == Get(d, k')
  {
    if k in Keys(d) then
      var r := d[IndexOf(Keys(d), k) := (k, v)];
      assert Keys(r) == Keys(d);
      r
    else
      var r := d + [(k, v)];
      assert Keys(r) == Keys(d) + [k];
      assert forall k' :: k' in Keys(d) ==> Get(r, k') == Get(d, k') by {
        forall k' | k' in Keys(d) ensures Get(r, k') == Get(d, k') {
          IndexOfIsFirst(Keys(r), k', IndexOf(Keys(d), k'));
        }
      }
      r
  }

  /** `d[k] += v` on a `defaultdict(int)`: a missing key is first inserted, last, with 0. */
  function Increment<K(==,!new)>(d: Dict<K, int>, k: K, v: int): (r: Dict<K, int>)
    ensures Keys(r) == if k in Keys(d) then Keys(d) else Keys(d) + [k]
    ensures GetOr(r, k, 0) == GetOr(d, k, 0) + v
    ensures forall k' :: k' != k ==> GetOr(r, k', 0) == GetOr(d, k', 0)
  {
    Put(d, k, GetOr(d, k, 0) + v)
  }

  /** The elements of `s` in order of first occurrence: the key order of a dictionary
      into which the elements of `s` are inserted one after another. */
  function Dedup<T(==,!new)>(s: seq<T>): (r: seq<T>)
    ensures Distinct(r)
    ensures forall x {:trigger x in r} :: x in r <==> x in s
  {
    if s == [] then []
    else
      var d := Dedup(s[..|s| - 1]);
      if s[|s| - 1] in d then d else d + [s[|s| - 1]]
  }

  lemma DedupSnoc<T(!new)>(s: seq<T>, x: T)
    ensures Dedup(s + [x]) == if x in s then Dedup(s) else Dedup(s) + [x]
  {
    assert (s + [x])[..|s|] == s;
  }

  /** A position found in a prefix is the position found in the whole sequence. */
  lemma IndexOfPrefix<K>(p: seq<K>, s: seq<K>, k: K)
    requires p <= s && k in p
    ensures IndexOf(s, k) == IndexOf(p, k)
  {
    IndexOfIsFirst(s, k, IndexOf(p, k));
  }

  /** `a` occurs in `s`, and its first occurrence comes before the first occurrence of `b`. */
  predicate FirstBefore<T(==)>(s: seq<T>, a: T, b: T)
  {
    a in s && b in s && IndexOf(s, a) < IndexOf(s, b)
  }

  /** Two positions of `Dedup(s)` are in the order of the first occurrences in `s`. */
  lemma {:induction false} DedupOrderAt<T(!new)>(s: seq<T>, i: nat, j: nat)
    requires i < j < |Dedup(s)|
    ensures FirstBefore(s, Dedup(s)[i], Dedup(s)[j])
  {
    var p, x := s[..|s| - 1], s[|s| - 1];
    var d := Dedup(p);
    assert Dedup(s) == if x in d then d else d + [x];
    assert Dedup(s)[i] == d[i] && d[i] in d && d[i] in p;
    IndexOfPrefix(p, s, d[i]);
    if j < |d| {
      assert Dedup(s)[j] == d[j] && d[j] in d && d[j] in p;
      IndexOfPrefix(p, s, d[j]);
      DedupOrderAt(p, i, j);
    } else {
      assert Dedup(s)[j] == x && x !in p;
      IndexOfIsFirst(s, x, |p|);
    }
  }

  /** `Dedup(s)` lists the elements of `s` in order of first occurrence: the key order
      of an insertion-ordered dictionary. */
  lemma DedupFirstOccurrenceOrder<T(!new)>(s: seq<T>)
    ensures forall i, j :: 0 <= i < j < |Dedup(s)| ==> FirstBefore(s, Dedup(s)[i], Dedup(s)[j])
  {
    forall i, j | 0 <= i < j < |Dedup(s)|
      ensures FirstBefore(s, Dedup(s)[i], Dedup(s)[j])
    {
      DedupOrderAt(s, i, j);
    }
  }
}
