/** Python dicts as lists of entries in insertion order. */
module Dicts {
  import opened Outcomes

  predicate HasKey<K(==), V>(m: seq<(K, V)>, k: K) {
    exists i :: 0 <= i < |m| && m[i].0 == k
  }

  predicate DistinctKeys<K(==), V>(m: seq<(K, V)>) {
    forall i, j :: 0 <= i < j < |m| ==> m[i].0 != m[j].0
  }

  /** The position of the entry under `k`, if any. */
  function Find<K(==), V>(m: seq<(K, V)>, k: K): (r: Option<nat>)
    ensures r.Some? <==> HasKey(m, k)
    ensures r.Some? ==> r.value < |m| && m[r.value].0 == k
  {
    if m == [] then None
    else if m[|m| - 1].0 == k then Some(|m| - 1)
    else
      var init := m[..|m| - 1];
      assert HasKey(m, k) <==> HasKey(init, k) by {
        if HasKey(m, k) {
          var i :| 0 <= i < |m| && m[i].0 == k;
          assert init[i].0 == k;
        }
        if HasKey(init, k) {
          var i :| 0 <= i < |init| && init[i].0 == k;
          assert m[i].0 == k;
        }
      }
      Find(init, k)
  }

  /** `m[k] = v`: an existing key keeps its position and takes the new
      value; a new key is appended. */
  function Assign<K(==), V>(m: seq<(K, V)>, k: K, v: V): (r: seq<(K, V)>)
    requires DistinctKeys(m)
    ensures HasKey(m, k) ==> |r| == |m|
    ensures !HasKey(m, k) ==> r == m + [(k, v)]
    ensures (k, v) in r
    ensures DistinctKeys(r)
  {
    var f := Find(m, k);
    if f.Some? then
      var r := m[f.value := (k, v)];
      assert forall i :: 0 <= i < |m| ==> r[i].0 == m[i].0;
      assert r[f.value] == (k, v);
      r
    else
      var r := m + [(k, v)];
      assert forall i :: 0 <= i < |m| ==> r[i] == m[i];
      assert r[|m|] == (k, v);
      r
  }

  /** After `m[k] = v` every old key is still present, and every entry is
      the new one or an old entry under another key. */
  lemma AssignEntries<K, V>(m: seq<(K, V)>, k: K, v: V)
    requires DistinctKeys(m)
    ensures forall i :: 0 <= i < |m| ==> HasKey(Assign(m, k, v), m[i].0)
    ensures forall i :: 0 <= i < |Assign(m, k, v)| ==>
      Assign(m, k, v)[i] == (k, v) || (Assign(m, k, v)[i] in m && Assign(m, k, v)[i].0 != k)
  {
    var r := Assign(m, k, v);
    var f := Find(m, k);
    if f.Some? {
      assert forall i :: 0 <= i < |m| ==> r[i].0 == m[i].0;
      assert forall i :: 0 <= i < |m| && i != f.value ==> r[i] == m[i] && m[i].0 != k;
    } else {
      assert forall i :: 0 <= i < |m| ==> r[i] == m[i];
    }
  }

  /** The value stored under `k`, if any. */
  function Get<K(==), V>(m: seq<(K, V)>, k: K): (r: Option<V>)
    ensures r.Some? <==> HasKey(m, k)
    ensures r.Some? ==> (k, r.value) in m
  {
    if m == [] then None
    else if m[0].0 == k then Some(m[0].1)
    else
      var r := Get(m[1..], k);
      assert HasKey(m, k) <==> m[0].0 == k || HasKey(m[1..], k) by {
        if HasKey(m[1..], k) {
          var i :| 0 <= i < |m[1..]| && m[1..][i].0 == k;
          assert m[i + 1].0 == k;
        }
        if HasKey(m, k) && m[0].0 != k {
          var i :| 0 <= i < |m| && m[i].0 == k;
          assert m[1..][i - 1].0 == k;
        }
      }
      r
  }

  /** `m.pop(k)` without its value: the entry under `k` disappears and the
      others keep their order. */
  function Remove<K(==), V>(m: seq<(K, V)>, k: K): (r: seq<(K, V)>)
    requires DistinctKeys(m)
    ensures !HasKey(r, k)
    ensures forall i :: 0 <= i < |r| ==> r[i] in m && r[i].0 != k
    ensures forall i :: 0 <= i < |m| && m[i].0 != k ==> m[i] in r
    ensures DistinctKeys(r)
    ensures |r| == if HasKey(m, k) then |m| - 1 else |m|
  {
    var f := Find(m, k);
    if f.None? then m
    else
      DropAt(m, f.value);
      m[..f.value] + m[f.value + 1..]
  }

  /** `m.pop(k)` takes exactly the entry under `k` out of the dict. */
  lemma RemoveMultiset<K, V>(m: seq<(K, V)>, k: K)
    requires DistinctKeys(m) && HasKey(m, k)
    ensures multiset(Remove(m, k)) + multiset{(k, Get(m, k).value)} == multiset(m)
  {
    var p := Find(m, k).value;
    assert Remove(m, k) == m[..p] + m[p + 1..];
    DropAtMultiset(m, p);
    GetFound(m, k, m[p].1);
  }

  lemma DropAtMultiset<T>(s: seq<T>, p: nat)
    requires p < |s|
    ensures multiset(s[..p] + s[p + 1..]) + multiset{s[p]} == multiset(s)
  {
    assert s == s[..p] + [s[p]] + s[p + 1..];
  }

  /** In a dict with distinct keys, the value stored with a key is the one `Get` finds. */
  lemma GetFound<K, V>(m: seq<(K, V)>, k: K, v: V)
    requires DistinctKeys(m) && (k, v) in m
    ensures Get(m, k) == Some(v)
  {
    var i :| 0 <= i < |m| && m[i] == (k, v);
    var j :| 0 <= j < |m| && m[j] == (k, Get(m, k).value);
  }

  /** Popping `key` leaves the value under every other key as it was. */
  lemma GetRemove<K, V>(m: seq<(K, V)>, key: K, x: K)
    requires DistinctKeys(m) && x != key
    ensures Get(Remove(m, key), x) == Get(m, x)
  {
    var r := Remove(m, key);
    if HasKey(m, x) {
      var w := Get(m, x).value;
      var i :| 0 <= i < |m| && m[i] == (x, w);
      assert (x, w) in r;
      GetFound(r, x, w);
    } else {
      forall i | 0 <= i < |r| ensures r[i].0 != x {
        var j :| 0 <= j < |m| && m[j] == r[i];
      }
    }
  }

  /** Appending an entry under a new key adds that key and changes no other. */
  lemma GetSnoc<K, V>(m: seq<(K, V)>, k: K, v: V, x: K)
    requires DistinctKeys(m) && !HasKey(m, k)
    ensures Get(m + [(k, v)], x) == if x == k then Some(v) else Get(m, x)
  {
    var r := m + [(k, v)];
    assert r == Assign(m, k, v);
    if x == k {
      assert r[|m|] == (k, v);
      GetFound(r, k, v);
    } else if HasKey(m, x) {
      var w := Get(m, x).value;
      var i :| 0 <= i < |m| && m[i] == (x, w);
      assert r[i] == (x, w);
      GetFound(r, x, w);
    } else {
      forall i | 0 <= i < |r| ensures r[i].0 != x {
        if i < |m| {
          assert r[i] == m[i];
        }
      }
    }
  }

  /** Popping a key and storing its value again under the same key moves the
      entry to the end and leaves the value under every key as it was. */
  lemma Reinsert<K, V>(m: seq<(K, V)>, key: K)
    requires DistinctKeys(m) && HasKey(m, key)
    ensures forall x :: Get(Remove(m, key) + [(key, Get(m, key).value)], x) == Get(m, x)
  {
    forall x ensures Get(Remove(m, key) + [(key, Get(m, key).value)], x) == Get(m, x) {
      GetSnoc(Remove(m, key), key, Get(m, key).value, x);
      if x != key {
        GetRemove(m, key, x);
      }
    }
  }

  /** Two dicts with distinct keys that agree on the value under every key
      hold the same entries, whatever their order. */
  lemma {:induction false} SameGetMultiset<K, V>(a: seq<(K, V)>, b: seq<(K, V)>)
    requires DistinctKeys(a) && DistinctKeys(b)
    requires forall x :: Get(a, x) == Get(b, x)
    ensures multiset(a) == multiset(b)
    decreases |a|
  {
    if a == [] {
      if b != [] {
        assert Get(b, b[0].0).Some?;
        assert false;
      }
    } else {
      var (k, v) := a[|a| - 1];
      var init := a[..|a| - 1];
      assert a == init + [(k, v)];
      assert !HasKey(init, k) by {
        forall i | 0 <= i < |init| ensures init[i].0 != k {
          assert a[i] == init[i];
        }
      }
      assert DistinctKeys(init) by {
        forall i, j | 0 <= i < j < |init| ensures init[i].0 != init[j].0 {
          assert a[i] == init[i] && a[j] == init[j];
        }
      }
      GetSnoc(init, k, v, k);
      assert Get(b, k) == Some(v);
      var rest := Remove(b, k);
      forall x ensures Get(init, x) == Get(rest, x) {
        GetSnoc(init, k, v, x);
        if x != k {
          GetRemove(b, k, x);
        }
      }
      SameGetMultiset(init, rest);
      RemoveMultiset(b, k);
    }
  }

  /** Dropping the entry at position `p` keeps every other entry, in order. */
  lemma DropAt<K, V>(m: seq<(K, V)>, p: nat)
    requires DistinctKeys(m) && p < |m|
    ensures var r := m[..p] + m[p + 1..];
      && !HasKey(r, m[p].0)
      && (forall i :: 0 <= i < |r| ==> r[i] in m && r[i].0 != m[p].0)
      && (forall i :: 0 <= i < |m| && i != p ==> m[i] in r)
      && DistinctKeys(r)
      && |r| == |m| - 1
  {
    var r := m[..p] + m[p + 1..];
    DropAtShift(m, p);
    assert forall i :: 0 <= i < |m| && i < p ==> m[i] == r[i];
    assert forall i :: 0 <= i < |m| && i > p ==> m[i] == r[i - 1];
  }

  lemma DropAtShift<K, V>(m: seq<(K, V)>, p: nat)
    requires p < |m|
    ensures |m[..p] + m[p + 1..]| == |m| - 1
    ensures forall i :: 0 <= i < p ==> (m[..p] + m[p + 1..])[i] == m[i]
    ensures forall i :: p < i < |m| ==> m[i] == (m[..p] + m[p + 1..])[i - 1]
  {
  }

  /** Assigning to a key that is present replaces its value in place. */
  lemma AssignInPlace<K, V>(m: seq<(K, V)>, k: K, v: V)
    requires DistinctKeys(m) && HasKey(m, k)
    ensures |Assign(m, k, v)| == |m|
    ensures forall i :: 0 <= i < |m| ==> Assign(m, k, v)[i] == if m[i].0 == k then (k, v) else m[i]
  {
    var p := Find(m, k).value;
    assert forall i :: 0 <= i < |m| && m[i].0 == k ==> i == p;
  }

  /** `for k, v in ps: m[k] = v`, starting from an empty dict. */
  function AssignAll<K(==), V>(ps: seq<(K, V)>): (r: seq<(K, V)>)
    ensures DistinctKeys(r)
  {
    if ps == [] then []
    else Assign(AssignAll(ps[..|ps| - 1]), ps[|ps| - 1].0, ps[|ps| - 1].1)
  }

  /** `for k, v in ps: m[k] = v`. */
  function AssignFrom<K(==), V>(m: seq<(K, V)>, ps: seq<(K, V)>): (r: seq<(K, V)>)
    requires DistinctKeys(m)
    ensures DistinctKeys(r)
  {
    if ps == [] then m
    else Assign(AssignFrom(m, ps[..|ps| - 1]), ps[|ps| - 1].0, ps[|ps| - 1].1)
  }

  /** Two runs of assignments are one run over both. */
  lemma {:induction false} AssignFromAppend<K, V>(m: seq<(K, V)>, ps: seq<(K, V)>, qs: seq<(K, V)>)
    requires DistinctKeys(m)
    ensures AssignFrom(AssignFrom(m, ps), qs) == AssignFrom(m, ps + qs)
    decreases |qs|
  {
    if qs == [] {
      assert ps + qs == ps;
    } else {
      var init := qs[..|qs| - 1];
      AssignFromAppend(m, ps, init);
      assert (ps + qs)[..|ps + qs| - 1] == ps + init;
    }
  }

  /** From an empty dict, the run of assignments is `AssignAll`. */
  lemma {:induction false} AssignFromEmpty<K, V>(ps: seq<(K, V)>)
    ensures AssignFrom([], ps) == AssignAll(ps)
  {
    if ps != [] {
      AssignFromEmpty(ps[..|ps| - 1]);
    }
  }

  /** Every entry of the result is one of the assigned pairs, and no later
      pair assigns to its key: every key holds the value last assigned to it. */
  lemma {:induction false} AssignAllOrigin<K, V>(ps: seq<(K, V)>, i: nat) returns (j: nat)
    requires i < |AssignAll(ps)|
    ensures j < |ps| && AssignAll(ps)[i] == ps[j]
    ensures forall t :: j < t < |ps| ==> ps[t].0 != ps[j].0
  {
    var init := ps[..|ps| - 1];
    var last := ps[|ps| - 1];
    var m := AssignAll(init);
    AssignEntries(m, last.0, last.1);
    if AssignAll(ps)[i] == last {
      j := |ps| - 1;
    } else {
      var i' :| 0 <= i' < |m| && m[i'] == AssignAll(ps)[i];
      j := AssignAllOrigin(init, i');
      assert init[j] == ps[j];
      forall t | j < t < |ps| ensures ps[t].0 != ps[j].0 {
        if t < |ps| - 1 {
          assert init[t] == ps[t];
        }
      }
    }
  }

  /** One more assignment after the others. */
  lemma AssignAllSnoc<K, V>(ps: seq<(K, V)>, x: (K, V))
    ensures AssignAll(ps + [x]) == Assign(AssignAll(ps), x.0, x.1)
  {
    assert (ps + [x])[..|ps|] == ps;
  }

  /** Assigning to another key leaves an entry in place. */
  lemma AssignKeeps<K, V>(m: seq<(K, V)>, k: K, v: V, e: (K, V))
    requires DistinctKeys(m) && e in m && e.0 != k
    ensures e in Assign(m, k, v)
  {
    var i :| 0 <= i < |m| && m[i] == e;
    var r := Assign(m, k, v);
    var f := Find(m, k);
    if f.Some? {
      assert r[i] == e;
    } else {
      assert r[i] == e;
    }
  }

  /** An entry survives the assignments of `qs` when none of them is to its key. */
  lemma {:induction false} AssignAllKeeps<K, V>(ps: seq<(K, V)>, qs: seq<(K, V)>, e: (K, V))
    requires e in AssignAll(ps)
    requires forall i :: 0 <= i < |qs| ==> qs[i].0 != e.0
    ensures e in AssignAll(ps + qs)
    decreases |qs|
  {
    if qs == [] {
      assert ps + qs == ps;
    } else {
      var init := qs[..|qs| - 1];
      var last := qs[|qs| - 1];
      var m := AssignAll(ps + init);
      assert e in m by {
        assert forall i :: 0 <= i < |init| ==> init[i] == qs[i];
        AssignAllKeeps(ps, init, e);
      }
      assert AssignAll(ps + qs) == Assign(m, last.0, last.1) by {
        assert ps + qs == (ps + init) + [last];
        AssignAllSnoc(ps + init, last);
      }
      AssignKeeps(m, last.0, last.1, e);
    }
  }

  /** Every assigned key is present in the result. */
  lemma {:induction false} AssignAllPresent<K, V>(ps: seq<(K, V)>, j: nat)
    requires j < |ps|
    ensures HasKey(AssignAll(ps), ps[j].0)
  {
    var init := ps[..|ps| - 1];
    var last := ps[|ps| - 1];
    var m := AssignAll(init);
    var r := AssignAll(ps);
    if j == |ps| - 1 {
      var i :| 0 <= i < |r| && r[i] == last;
      assert r[i].0 == last.0;
    } else {
      assert init[j] == ps[j];
      AssignAllPresent(init, j);
      var i :| 0 <= i < |m| && m[i].0 == ps[j].0;
      AssignEntries(m, last.0, last.1);
      assert HasKey(r, m[i].0);
    }
  }

  /** With distinct keys nothing is overwritten: the result is `ps` itself. */
  lemma {:induction false} AssignAllDistinct<K, V>(ps: seq<(K, V)>)
    requires DistinctKeys(ps)
    ensures AssignAll(ps) == ps
  {
    if ps != [] {
      var init := ps[..|ps| - 1];
      var last := ps[|ps| - 1];
      assert DistinctKeys(init) by {
        forall i, j | 0 <= i < j < |init| ensures init[i].0 != init[j].0 {
          assert init[i] == ps[i] && init[j] == ps[j];
        }
      }
      AssignAllDistinct(init);
      assert !HasKey(init, last.0) by {
        forall i | 0 <= i < |init| ensures init[i].0 != last.0 {
          assert init[i] == ps[i];
        }
      }
      assert init + [last] == ps;
    }
  }
}
