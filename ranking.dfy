/**
 * The ordering the repository sorts by, and Python's `list.sort(key=..., reverse=True)` followed by
 * a slice `[:k]`: a stable sort into non-increasing key order, then the first `k` records.
 */
module Ranking {

  /** A sort key: a number (citation count, citations per day) or a string (an ISO date, a topic). */
  datatype Key = Num(value: real) | Text(text: string)

  /** Python's `<` on strings: lexicographic by code point, a proper prefix coming first. */
  predicate StrLess(a: string, b: string)
    decreases |a|
  {
    if a == [] then b != []
    else if b == [] then false
    else if a[0] != b[0] then a[0] < b[0]
    else StrLess(a[1..], b[1..])
  }

  /** `a < b` on keys; numbers are ordered before strings (the code never mixes the two). */
  predicate KeyLess(a: Key, b: Key)
  {
    match (a, b)
    case (Num(x), Num(y)) => x < y
    case (Text(x), Text(y)) => StrLess(x, y)
    case (Num(_), Text(_)) => true
    case (Text(_), Num(_)) => false
  }

  lemma {:induction false} StrLessIrreflexive(a: string)
    ensures !StrLess(a, a)
    decreases |a|
  {
    if a != [] {
      StrLessIrreflexive(a[1..]);
    }
  }

  lemma {:induction false} StrLessTransitive(a: string, b: string, c: string)
    requires StrLess(a, b) && StrLess(b, c)
    ensures StrLess(a, c)
    decreases |a|
  {
    if a != [] && b != [] && c != [] && a[0] == b[0] && b[0] == c[0] {
      StrLessTransitive(a[1..], b[1..], c[1..]);
    }
  }

  lemma {:induction false} StrLessTotal(a: string, b: string)
    requires a != b
    ensures StrLess(a, b) || StrLess(b, a)
    decreases |a|
  {
    if a != [] && b != [] && a[0] == b[0] {
      assert a == [a[0]] + a[1..] && b == [b[0]] + b[1..];
      StrLessTotal(a[1..], b[1..]);
    }
  }

  lemma StrLessAsymmetric(a: string, b: string)
    requires StrLess(a, b)
    ensures !StrLess(b, a)
  {
    if StrLess(b, a) {
      StrLessTransitive(a, b, a);
      StrLessIrreflexive(a);
    }
  }

  /** `KeyLess` is a strict total order. */
  lemma KeyLessIrreflexive(a: Key)
    ensures !KeyLess(a, a)
  {
    if a.Text? {
      StrLessIrreflexive(a.text);
    }
  }

  lemma KeyLessTransitive(a: Key, b: Key, c: Key)
    requires KeyLess(a, b) && KeyLess(b, c)
    ensures KeyLess(a, c)
  {
    if a.Text? && b.Text? && c.Text? {
      StrLessTransitive(a.text, b.text, c.text);
    }
  }

  lemma KeyLessTotal(a: Key, b: Key)
    requires a != b
    ensures KeyLess(a, b) || KeyLess(b, a)
  {
    if a.Text? && b.Text? {
      StrLessTotal(a.text, b.text);
    }
  }

  lemma KeyLessAsymmetric(a: Key, b: Key)
    requires KeyLess(a, b)
    ensures !KeyLess(b, a)
  {
    if a.Text? && b.Text? {
      StrLessAsymmetric(a.text, b.text);
    }
  }

  /** "Not less" (that is, `>=`) is transitive too. */
  lemma NotLessTransitive(a: Key, b: Key, c: Key)
    requires !KeyLess(a, b) && !KeyLess(b, c)
    ensures !KeyLess(a, c)
  {
    if KeyLess(a, c) {
      if a == b {
      } else if b == c {
      } else {
        KeyLessTotal(a, b);
        KeyLessTotal(b, c);
        KeyLessTransitive(b, a, c);
        KeyLessTransitive(c, b, a);
        KeyLessAsymmetric(a, c);
      }
    }
  }

  /** Non-increasing in the key: no record is smaller than one after it. */
  predicate SortedDesc<T>(s: seq<T>, key: T -> Key)
  {
    forall i, j :: 0 <= i < j < |s| ==> !KeyLess(key(s[i]), key(s[j]))
  }

  /** Inserts `x` in front of the first record whose key is not larger than its own. */
  function Insert<T>(x: T, s: seq<T>, key: T -> Key): (r: seq<T>)
    ensures |r| == |s| + 1 && multiset(r) == multiset(s) + multiset{x}
    ensures SortedDesc(s, key) ==> SortedDesc(r, key)
  {
    if s == [] || !KeyLess(key(x), key(s[0])) then
      assert SortedDesc(s, key) ==> SortedDesc([x] + s, key) by {
        if SortedDesc(s, key) {
          InsertedInFront(x, s, key);
        }
      }
      [x] + s
    else
      var rest := Insert(x, s[1..], key);
      assert s == [s[0]] + s[1..];
      assert SortedDesc(s, key) ==> SortedDesc([s[0]] + rest, key) by {
        if SortedDesc(s, key) {
          InsertedBehind(s[0], x, s[1..], rest, key);
        }
      }
      [s[0]] + rest
  }

  /** A record not smaller than the head of a sorted list can go in front of it. */
  lemma InsertedInFront<T>(x: T, s: seq<T>, key: T -> Key)
    requires SortedDesc(s, key) && (s == [] || !KeyLess(key(x), key(s[0])))
    ensures SortedDesc([x] + s, key)
  {
    var r := [x] + s;
    forall i, j | 0 <= i < j < |r| ensures !KeyLess(key(r[i]), key(r[j])) {
      if i > 0 {
        assert r[i] == s[i - 1] && r[j] == s[j - 1];
      } else if j > 1 {
        assert r[j] == s[j - 1];
        NotLessTransitive(key(x), key(s[0]), key(s[j - 1]));
      }
    }
  }

  /** The head of a sorted list stays in front when a smaller record is inserted behind it. */
  lemma InsertedBehind<T>(y: T, x: T, tail: seq<T>, rest: seq<T>, key: T -> Key)
    requires SortedDesc([y] + tail, key) && SortedDesc(rest, key) && KeyLess(key(x), key(y))
    requires multiset(rest) == multiset(tail) + multiset{x}
    ensures SortedDesc([y] + rest, key)
  {
    var r := [y] + rest;
    forall j | 0 <= j < |rest| ensures !KeyLess(key(y), key(rest[j])) {
      assert rest[j] in multiset(rest);
      if rest[j] == x {
        KeyLessAsymmetric(key(x), key(y));
      } else {
        assert rest[j] in multiset(tail);
        var m :| 0 <= m < |tail| && tail[m] == rest[j];
        assert ([y] + tail)[0] == y && ([y] + tail)[m + 1] == rest[j];
      }
    }
    forall i, j | 0 <= i < j < |r| ensures !KeyLess(key(r[i]), key(r[j])) {
      assert r[j] == rest[j - 1];
      if i > 0 {
        assert r[i] == rest[i - 1];
      } else {
        assert r[i] == y;
      }
    }
  }

  /**
   * `s.sort(key=key, reverse=True)`: the records in non-increasing key order, a permutation of
   * the input. Insertion from the back keeps equal keys in their input order (see `SortDescStable`).
   */
  function SortDesc<T>(s: seq<T>, key: T -> Key): (r: seq<T>)
    ensures |r| == |s| && multiset(r) == multiset(s)
    ensures SortedDesc(r, key)
  {
    if s == [] then []
    else
      assert s == [s[0]] + s[1..];
      Insert(s[0], SortDesc(s[1..], key), key)
  }

  /** The records whose key equals `v`, in their order. */
  function Matching<T>(s: seq<T>, key: T -> Key, v: Key): (r: seq<T>)
    ensures |r| <= |s|
  {
    if s == [] then []
    else (if key(s[0]) == v then [s[0]] else []) + Matching(s[1..], key, v)
  }

  lemma {:induction false} InsertMatching<T>(x: T, s: seq<T>, key: T -> Key, v: Key)
    ensures Matching(Insert(x, s, key), key, v)
      == (if key(x) == v then [x] else []) + Matching(s, key, v)
    decreases |s|
  {
    if s == [] || !KeyLess(key(x), key(s[0])) {
      assert Insert(x, s, key) == [x] + s;
      MatchingCons(x, s, key, v);
    } else {
      var rest := Insert(x, s[1..], key);
      InsertMatching(x, s[1..], key, v);
      assert Insert(x, s, key) == [s[0]] + rest;
      MatchingCons(s[0], rest, key, v);
      MatchingCons(s[0], s[1..], key, v);
      assert s == [s[0]] + s[1..];
      KeyLessIrreflexive(key(x));
      MatchingSwap(x, s[0], Matching(s[1..], key, v), key, v);
    }
  }

  /** `Matching` of a list with a record in front. */
  lemma MatchingCons<T>(y: T, s: seq<T>, key: T -> Key, v: Key)
    ensures Matching([y] + s, key, v) == (if key(y) == v then [y] else []) + Matching(s, key, v)
  {
    assert ([y] + s)[0] == y && ([y] + s)[1..] == s;
  }

  /** Two records whose keys differ can be matched in either order. */
  lemma MatchingSwap<T>(x: T, y: T, m: seq<T>, key: T -> Key, v: Key)
    requires key(x) != key(y)
    ensures (if key(y) == v then [y] else []) + ((if key(x) == v then [x] else []) + m)
      == (if key(x) == v then [x] else []) + ((if key(y) == v then [y] else []) + m)
  {
  }

  /** Stability: among records with equal keys, the sort keeps the input order. */
  lemma {:induction false} SortDescStable<T>(s: seq<T>, key: T -> Key, v: Key)
    ensures Matching(SortDesc(s, key), key, v) == Matching(s, key, v)
    decreases |s|
  {
    if s != [] {
      SortDescStable(s[1..], key, v);
      InsertMatching(s[0], SortDesc(s[1..], key), key, v);
    }
  }

  /** A list already in non-increasing order is left as it is. */
  lemma {:induction false} SortDescOfSorted<T>(s: seq<T>, key: T -> Key)
    requires SortedDesc(s, key)
    ensures SortDesc(s, key) == s
    decreases |s|
  {
    if s != [] {
      SortDescOfSorted(s[1..], key);
      assert SortDesc(s[1..], key) == s[1..];
      if |s| > 1 {
        assert !KeyLess(key(s[0]), key(s[1]));
      }
    }
  }

  lemma {:induction false} MatchingPrefix<T>(s: seq<T>, n: nat, key: T -> Key, v: Key)
    requires n <= |s|
    ensures Matching(s[..n], key, v) <= Matching(s, key, v)
    decreases n
  {
    if n > 0 {
      assert s[..n][1..] == s[1..][..n - 1];
      MatchingPrefix(s[1..], n - 1, key, v);
    }
  }

  /** `sorted(s, key=key, reverse=True)[:k]` for a literal `k >= 0`: `min(k, |s|)` records from the input, in non-increasing order. */
  function TopK<T>(s: seq<T>, k: nat, key: T -> Key): (r: seq<T>)
    ensures |r| == if k <= |s| then k else |s|
    ensures SortedDesc(r, key)
    ensures multiset(r) <= multiset(s)
  {
    var t := SortDesc(s, key);
    var n := if k <= |t| then k else |t|;
    assert t == t[..n] + t[n..];
    assert multiset(t) == multiset(t[..n]) + multiset(t[n..]);
    t[..n]
  }

  /** No record left out of the selection is larger than a selected one. */
  lemma TopKLeftOutNotLarger<T>(s: seq<T>, k: nat, key: T -> Key, x: T)
    requires x in multiset(s) - multiset(TopK(s, k, key))
    ensures forall i :: 0 <= i < |TopK(s, k, key)| ==> !KeyLess(key(TopK(s, k, key)[i]), key(x))
  {
    var t := SortDesc(s, key);
    var n := if k <= |t| then k else |t|;
    assert TopK(s, k, key) == t[..n];
    SortedPrefixNotSmaller(t, n, key, x);
  }

  /** In a sorted list, no record after the first `n` is larger than one of them. */
  lemma SortedPrefixNotSmaller<T>(t: seq<T>, n: nat, key: T -> Key, x: T)
    requires SortedDesc(t, key) && n <= |t|
    requires x in multiset(t) - multiset(t[..n])
    ensures forall i :: 0 <= i < n ==> !KeyLess(key(t[i]), key(x))
  {
    var r := t[..n];
    assert t == r + t[n..];
    assert multiset(t) == multiset(r) + multiset(t[n..]);
    assert x in multiset(t[n..]);
    var m :| 0 <= m < |t[n..]| && t[n..][m] == x;
    assert t[n + m] == x;
  }

  /** Ties are taken in input order: the selected records with key `v` are the first ones in the input. */
  lemma TopKStable<T>(s: seq<T>, k: nat, key: T -> Key, v: Key)
    ensures Matching(TopK(s, k, key), key, v) <= Matching(s, key, v)
  {
    var t := SortDesc(s, key);
    MatchingPrefix(t, if k <= |t| then k else |t|, key, v);
    SortDescStable(s, key, v);
  }
}
