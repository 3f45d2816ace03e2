/** Python's `sorted`: a stable sort by a key, with
    strings compared code point by code point. */
module Ordering {

  /** Python's `a <= b` on `str`: lexicographic by code point. */
  predicate StrLe(a: string, b: string)
    decreases |a|
  {
    if a == [] then true
    else if b == [] then false
    else if a[0] != b[0] then a[0] < b[0]
    else StrLe(a[1..], b[1..])
  }

  lemma {:induction false} StrLeTotal(a: string, b: string)
    ensures StrLe(a, b) || StrLe(b, a)
    decreases |a|
  {
    if a != [] && b != [] && a[0] == b[0] {
      StrLeTotal(a[1..], b[1..]);
    }
  }

  lemma {:induction false} StrLeTransitive(a: string, b: string, c: string)
    requires StrLe(a, b) && StrLe(b, c)
    ensures StrLe(a, c)
    decreases |a|
  {
    if a != [] && b != [] && c != [] && a[0] == b[0] && b[0] == c[0] {
      StrLeTransitive(a[1..], b[1..], c[1..]);
    }
  }

  lemma {:induction false} StrLeAntisymmetric(a: string, b: string)
    requires StrLe(a, b) && StrLe(b, a)
    ensures a == b
    decreases |a|
  {
    if a != [] && b != [] {
      StrLeAntisymmetric(a[1..], b[1..]);
    }
  }

  /** One component of a sort key: a number or a text. */
  datatype Atom = Num(n: int) | Txt(t: string)

  /** A sort key compared like a Python tuple of numbers and strings. */
  type SortKey = seq<Atom>

  predicate AtomLe(x: Atom, y: Atom) {
    match (x, y)
    case (Num(a), Num(b)) => a <= b
    case (Txt(a), Txt(b)) => StrLe(a, b)
    case (Num(_), Txt(_)) => true
    case (Txt(_), Num(_)) => false
  }

  lemma AtomLeTotal(x: Atom, y: Atom)
    ensures AtomLe(x, y) || AtomLe(y, x)
  {
    if x.Txt? && y.Txt? {
      StrLeTotal(x.t, y.t);
    }
  }

  lemma AtomLeTransitive(x: Atom, y: Atom, z: Atom)
    requires AtomLe(x, y) && AtomLe(y, z)
    ensures AtomLe(x, z)
  {
    if x.Txt? && y.Txt? && z.Txt? {
      StrLeTransitive(x.t, y.t, z.t);
    }
  }

  lemma AtomLeAntisymmetric(x: Atom, y: Atom)
    requires AtomLe(x, y) && AtomLe(y, x)
    ensures x == y
  {
    if x.Txt? && y.Txt? {
      StrLeAntisymmetric(x.t, y.t);
    }
  }

  /** Lexicographic order on keys, as Python orders tuples. */
  predicate KeyLe(a: SortKey, b: SortKey)
    decreases |a|
  {
    if a == [] then true
    else if b == [] then false
    else if a[0] != b[0] then AtomLe(a[0], b[0])
    else KeyLe(a[1..], b[1..])
  }

  lemma {:induction false} KeyLeTotal(a: SortKey, b: SortKey)
    ensures KeyLe(a, b) || KeyLe(b, a)
    decreases |a|
  {
    if a != [] && b != [] {
      if a[0] == b[0] {
        KeyLeTotal(a[1..], b[1..]);
      } else {
        AtomLeTotal(a[0], b[0]);
      }
    }
  }

  lemma {:induction false} KeyLeTransitive(a: SortKey, b: SortKey, c: SortKey)
    requires KeyLe(a, b) && KeyLe(b, c)
    ensures KeyLe(a, c)
    decreases |a|
  {
    if a != [] && b != [] && c != [] {
      if a[0] == b[0] && b[0] == c[0] {
        KeyLeTransitive(a[1..], b[1..], c[1..]);
      } else if a[0] == b[0] {
        assert AtomLe(b[0], c[0]);
      } else if b[0] == c[0] {
        assert AtomLe(a[0], b[0]);
      } else {
        AtomLeTransitive(a[0], b[0], c[0]);
        if a[0] == c[0] {
          AtomLeAntisymmetric(a[0], b[0]);
        }
      }
    }
  }

  /** Place `x` after every element whose key is not greater than its own,
      which keeps the sort stable. */
  function Insert<T>(r: seq<T>, x: T, key: T -> SortKey): (out: seq<T>)
    ensures multiset(out) == multiset(r) + multiset{x}
    ensures |out| == |r| + 1
  {
    if r == [] then [x]
    else if !KeyLe(key(r[0]), key(x)) then [x] + r
    else
      assert r == [r[0]] + r[1..];
      [r[0]] + Insert(r[1..], x, key)
  }

  /** `sorted(s, key=key)`: a stable insertion sort. */
  function SortBy<T>(s: seq<T>, key: T -> SortKey): (out: seq<T>)
    ensures multiset(out) == multiset(s)
    ensures |out| == |s|
  {
    if s == [] then []
    else
      assert s == s[..|s| - 1] + [s[|s| - 1]];
      Insert(SortBy(s[..|s| - 1], key), s[|s| - 1], key)
  }

  ghost predicate SortedBy<T>(s: seq<T>, key: T -> SortKey) {
    forall i, j :: 0 <= i < j < |s| ==> KeyLe(key(s[i]), key(s[j]))
  }

  lemma {:induction false} InsertSorted<T>(r: seq<T>, x: T, key: T -> SortKey)
    requires SortedBy(r, key)
    ensures SortedBy(Insert(r, x, key), key)
  {
    if r == [] {
    } else if !KeyLe(key(r[0]), key(x)) {
      KeyLeTotal(key(r[0]), key(x));
      var out := [x] + r;
      forall i, j | 0 <= i < j < |out| ensures KeyLe(key(out[i]), key(out[j])) {
        if i == 0 && j > 1 {
          KeyLeTransitive(key(x), key(r[0]), key(r[j - 1]));
        }
      }
    } else {
      InsertSorted(r[1..], x, key);
      InsertAboveHead(r, x, key);
      ConsSorted(r[0], Insert(r[1..], x, key), key);
    }
  }

  /** Past a first element not above `x`, the insertion holds only elements
      not below that first one. */
  lemma InsertAboveHead<T>(r: seq<T>, x: T, key: T -> SortKey)
    requires r != [] && SortedBy(r, key) && KeyLe(key(r[0]), key(x))
    ensures forall k :: 0 <= k < |Insert(r[1..], x, key)| ==> KeyLe(key(r[0]), key(Insert(r[1..], x, key)[k]))
  {
    var tail := Insert(r[1..], x, key);
    forall k | 0 <= k < |tail| ensures KeyLe(key(r[0]), key(tail[k])) {
      assert tail[k] in multiset(tail);
      assert tail[k] in multiset(r[1..]) + multiset{x};
      if tail[k] != x {
        assert tail[k] in multiset(r[1..]);
        var m :| 0 <= m < |r[1..]| && r[1..][m] == tail[k];
        assert r[m + 1] == tail[k];
      }
    }
  }

  /** A sorted list stays sorted behind a head not above any of its elements. */
  lemma ConsSorted<T>(h: T, tail: seq<T>, key: T -> SortKey)
    requires SortedBy(tail, key)
    requires forall k :: 0 <= k < |tail| ==> KeyLe(key(h), key(tail[k]))
    ensures SortedBy([h] + tail, key)
  {
    var out := [h] + tail;
    forall i, j | 0 <= i < j < |out| ensures KeyLe(key(out[i]), key(out[j])) {
      if i == 0 {
        assert out[j] == tail[j - 1];
      } else {
        assert out[i] == tail[i - 1] && out[j] == tail[j - 1];
      }
    }
  }

  /** `sorted` returns its input in non-decreasing key order. */
  lemma {:induction false} SortBySorted<T>(s: seq<T>, key: T -> SortKey)
    ensures SortedBy(SortBy(s, key), key)
  {
    if s != [] {
      SortBySorted(s[..|s| - 1], key);
      InsertSorted(SortBy(s[..|s| - 1], key), s[|s| - 1], key);
    }
  }

  /** Elements with equal keys keep their relative order, elements being
      positions in the input. */
  ghost predicate StableBy(r: seq<nat>, key: nat -> SortKey) {
    forall a, b :: 0 <= a < b < |r| && key(r[a]) == key(r[b]) ==> r[a] < r[b]
  }

  /** Inserting a position above all others into a sorted, stable list keeps
      it stable: it lands after every element with its key. */
  lemma {:induction false} InsertStable(r: seq<nat>, x: nat, key: nat -> SortKey)
    requires SortedBy(r, key) && StableBy(r, key)
    requires forall k :: 0 <= k < |r| ==> r[k] < x
    ensures StableBy(Insert(r, x, key), key)
  {
    if r == [] {
    } else if !KeyLe(key(r[0]), key(x)) {
      FrontStable(r, x, key);
    } else {
      InsertStable(r[1..], x, key);
      ConsStable(r, Insert(r[1..], x, key), x, key);
    }
  }

  /** `x` in front of a sorted list whose head is above it shares its key with
      no element. */
  lemma FrontStable(r: seq<nat>, x: nat, key: nat -> SortKey)
    requires r != [] && SortedBy(r, key) && StableBy(r, key) && !KeyLe(key(r[0]), key(x))
    ensures StableBy([x] + r, key)
  {
    var out := [x] + r;
    forall a, b | 0 <= a < b < |out| && key(out[a]) == key(out[b]) ensures out[a] < out[b] {
      assert out[b] == r[b - 1];
      if a == 0 {
        if b == 1 {
          KeyLeTotal(key(x), key(x));
        }
        assert false;
      } else {
        assert out[a] == r[a - 1];
      }
    }
  }

  /** A head below every element keeps a stable tail stable. */
  lemma ConsStable(r: seq<nat>, tail: seq<nat>, x: nat, key: nat -> SortKey)
    requires r != [] && StableBy(r, key) && StableBy(tail, key)
    requires r[0] < x && multiset(tail) == multiset(r[1..]) + multiset{x}
    ensures StableBy([r[0]] + tail, key)
  {
    var out := [r[0]] + tail;
    forall a, b | 0 <= a < b < |out| && key(out[a]) == key(out[b]) ensures out[a] < out[b] {
      assert out[b] == tail[b - 1];
      if a == 0 {
        assert tail[b - 1] in multiset(r[1..]) + multiset{x};
        if tail[b - 1] != x {
          assert tail[b - 1] in multiset(r[1..]);
          var m :| 0 <= m < |r[1..]| && r[1..][m] == tail[b - 1];
          assert r[m + 1] == tail[b - 1];
        }
      } else {
        assert out[a] == tail[a - 1];
      }
    }
  }

  /** `sorted` is stable: sorting increasing positions, those with equal keys
      come out in increasing order. */
  lemma {:induction false} SortByStable(s: seq<nat>, key: nat -> SortKey)
    requires forall i, j :: 0 <= i < j < |s| ==> s[i] < s[j]
    ensures StableBy(SortBy(s, key), key)
  {
    if s != [] {
      var init := s[..|s| - 1];
      var r := SortBy(init, key);
      SortByStable(init, key);
      SortBySorted(init, key);
      forall k | 0 <= k < |r| ensures r[k] < s[|s| - 1] {
        assert r[k] in multiset(init);
        var m :| 0 <= m < |init| && init[m] == r[k];
      }
      InsertStable(r, s[|s| - 1], key);
    }
  }

  /** Membership is unchanged by sorting. */
  lemma SortByMembers<T>(s: seq<T>, key: T -> SortKey, x: T)
    ensures x in SortBy(s, key) <==> x in s
  {
    var out := SortBy(s, key);
    assert multiset(out) == multiset(s);
    assert x in out <==> x in multiset(out);
    assert x in s <==> x in multiset(s);
  }
}
