/** Properties of the key-collision resolution of `move_unknown_keys_to_extra`. */
module ExtraProperties {
  import opened Outcomes
  import opened Values
  import opened Decimal
  import opened Ordering
  import opened Dicts
  import opened Extra

  function ValuesOf<K, V>(m: seq<(K, V)>): (r: seq<V>)
    ensures |r| == |m| && forall i :: 0 <= i < |m| ==> r[i] == m[i].1
  {
    seq(|m|, i requires 0 <= i < |m| => m[i].1)
  }

  lemma ConcatAssoc<T>(a: seq<T>, b: seq<T>, c: seq<T>)
    ensures (a + b) + c == a + (b + c)
  {
  }

  lemma ConsIndex<T>(x: T, s: seq<T>)
    ensures ([x] + s)[0] == x && forall i :: 1 <= i < |s| + 1 ==> ([x] + s)[i] == s[i - 1]
  {
  }

  // ---------------------------------------------------------------------
  // Sorting keeps the multiset of values
  // ---------------------------------------------------------------------

  lemma {:induction false} InsertValues<K, V>(r: seq<(K, V)>, x: (K, V), key: ((K, V)) -> SortKey)
    ensures multiset(ValuesOf(Insert(r, x, key))) == multiset(ValuesOf(r)) + multiset{x.1}
  {
    if r == [] {
    } else if !KeyLe(key(r[0]), key(x)) {
      ValuesCons(x, r);
    } else {
      var rest := Insert(r[1..], x, key);
      InsertValues(r[1..], x, key);
      assert Insert(r, x, key) == [r[0]] + rest;
      assert r == [r[0]] + r[1..];
      ValuesCons(r[0], rest);
      ValuesCons(r[0], r[1..]);
      ConsMultiset(r[0].1, ValuesOf(rest), ValuesOf(r[1..]), x.1);
    }
  }

  lemma ValuesCons<K, V>(x: (K, V), m: seq<(K, V)>)
    ensures ValuesOf([x] + m) == [x.1] + ValuesOf(m)
  {
  }

  lemma ConsMultiset<T>(a: T, p: seq<T>, q: seq<T>, y: T)
    requires multiset(p) == multiset(q) + multiset{y}
    ensures multiset([a] + p) == multiset([a] + q) + multiset{y}
  {
  }

  lemma {:induction false} SortValues<K, V>(s: seq<(K, V)>, key: ((K, V)) -> SortKey)
    ensures multiset(ValuesOf(SortBy(s, key))) == multiset(ValuesOf(s))
  {
    if s != [] {
      var init := s[..|s| - 1];
      SortValues(init, key);
      InsertValues(SortBy(init, key), s[|s| - 1], key);
      assert ValuesOf(s) == ValuesOf(init) + [s[|s| - 1].1];
    }
  }

  // ---------------------------------------------------------------------
  // The grouping loop
  // ---------------------------------------------------------------------

  /** All values held by a list of groups. */
  function GroupValues(g: Groups): multiset<Value> {
    if g == [] then multiset{} else multiset(ValuesOf(g[0].1)) + GroupValues(g[1..])
  }

  lemma {:induction false} GroupValuesConcat(a: Groups, b: Groups)
    ensures GroupValues(a + b) == GroupValues(a) + GroupValues(b)
  {
    if a == [] {
      assert a + b == b;
    } else {
      assert (a + b)[0] == a[0] && (a + b)[1..] == a[1..] + b;
      GroupValuesConcat(a[1..], b);
    }
  }

  lemma GroupValuesStep(g: Groups, n: nat)
    requires n < |g|
    ensures GroupValues(g[..n + 1]) == GroupValues(g[..n]) + multiset(ValuesOf(g[n].1))
  {
    assert g[..n + 1] == g[..n] + [g[n]];
    GroupValuesConcat(g[..n], [g[n]]);
  }

  /** `AddToGroup` keeps the earlier groups and their names, and a new group
      holds `kv` alone. */
  lemma {:induction false} AddToGroupKeeps(g: Groups, name: string, kv: (Value, Value))
    ensures |g| <= |AddToGroup(g, name, kv)|
    ensures forall i :: 0 <= i < |g| ==> AddToGroup(g, name, kv)[i].0 == g[i].0
    ensures forall i, p :: 0 <= i < |g| && p in g[i].1 ==> p in AddToGroup(g, name, kv)[i].1
    ensures forall i :: |g| <= i < |AddToGroup(g, name, kv)| ==> AddToGroup(g, name, kv)[i] == (name, [kv])
  {
    if g != [] && g[0].0 != name {
      var rest := AddToGroup(g[1..], name, kv);
      AddToGroupKeeps(g[1..], name, kv);
      var r := [g[0]] + rest;
      assert forall i :: 1 <= i < |r| ==> r[i] == rest[i - 1];
    }
  }

  /** `AddToGroup` puts `kv` in the group named `name`. */
  lemma {:induction false} AddToGroupHolds(g: Groups, name: string, kv: (Value, Value)) returns (i: nat)
    ensures i < |AddToGroup(g, name, kv)|
    ensures AddToGroup(g, name, kv)[i].0 == name && kv in AddToGroup(g, name, kv)[i].1
  {
    if g == [] || g[0].0 == name {
      i := 0;
    } else {
      var j := AddToGroupHolds(g[1..], name, kv);
      i := j + 1;
    }
  }

  /** Every pair of the new groups is `kv` or was there before. */
  lemma {:induction false} AddToGroupSources(g: Groups, name: string, kv: (Value, Value))
    ensures forall i, p :: 0 <= i < |AddToGroup(g, name, kv)| && p in AddToGroup(g, name, kv)[i].1 ==>
      (p == kv && AddToGroup(g, name, kv)[i].0 == name) || (i < |g| && p in g[i].1)
  {
    if g != [] && g[0].0 != name {
      var rest := AddToGroup(g[1..], name, kv);
      AddToGroupSources(g[1..], name, kv);
      var r := [g[0]] + rest;
      assert forall i :: 1 <= i < |r| ==> r[i] == rest[i - 1];
      assert forall i :: 1 <= i < |g| ==> g[i] == g[1..][i - 1];
    }
  }

  lemma {:induction false} AddToGroupValues(g: Groups, name: string, kv: (Value, Value))
    ensures GroupValues(AddToGroup(g, name, kv)) == GroupValues(g) + multiset{kv.1}
  {
    if g == [] {
      assert ValuesOf([kv]) == [kv.1];
      assert [(name, [kv])][1..] == [];
    } else if g[0].0 == name {
      var r := AddToGroup(g, name, kv);
      assert r[0] == (name, g[0].1 + [kv]) && r[1..] == g[1..];
      assert ValuesOf(g[0].1 + [kv]) == ValuesOf(g[0].1) + [kv.1];
    } else {
      AddToGroupValues(g[1..], name, kv);
      var r := AddToGroup(g, name, kv);
      assert r[0] == g[0] && r[1..] == AddToGroup(g[1..], name, kv);
    }
  }

  lemma AddToGroupDistinct(g: Groups, name: string, kv: (Value, Value))
    requires DistinctKeys(g)
    ensures DistinctKeys(AddToGroup(g, name, kv))
  {
    var r := AddToGroup(g, name, kv);
    if HasKey(g, name) {
      AddToGroupKeeps(g, name, kv);
      assert forall i :: 0 <= i < |r| ==> r[i].0 == g[i].0;
    } else {
      assert r == g + [(name, [kv])];
      forall i | 0 <= i < |g| ensures g[i].0 != name {
      }
    }
  }

  /** Every group is named from `names`, and every pair in it comes from `s`
      and has that name as its `str()`. */
  predicate NamedGroups(g: Groups, names: seq<string>, s: Pairs) {
    && (forall i :: 0 <= i < |g| ==> g[i].0 in names)
    && (forall i, p :: 0 <= i < |g| && p in g[i].1 ==> p in s && PyStr(p.0) == g[i].0)
  }

  lemma {:induction false} GroupsOfNamed(s: Pairs, n: nat)
    requires n <= |s|
    ensures NamedGroups(GroupsOf(s, n), StrNames(s), s)
  {
    if n > 0 {
      GroupsOfNamed(s, n - 1);
      assert StrNames(s)[n - 1] == PyStr(s[n - 1].0);
      AddToGroupNamed(GroupsOf(s, n), GroupsOf(s, n - 1), PyStr(s[n - 1].0), s[n - 1], StrNames(s), s);
    }
  }

  /** One grouping step keeps every group named from `names` and every pair
      from `s` in the group of its `str()`. */
  lemma AddToGroupNamed(g': Groups, g: Groups, name: string, kv: (Value, Value), names: seq<string>, s: Pairs)
    requires g' == AddToGroup(g, name, kv)
    requires name in names && kv in s && PyStr(kv.0) == name
    requires NamedGroups(g, names, s)
    ensures NamedGroups(g', names, s)
  {
    AddToGroupKeeps(g, name, kv);
    AddToGroupSources(g, name, kv);
  }

  lemma {:induction false} GroupsOfValues(s: Pairs, n: nat)
    requires n <= |s|
    ensures GroupValues(GroupsOf(s, n)) == multiset(ValuesOf(s[..n]))
  {
    if n > 0 {
      GroupsOfValues(s, n - 1);
      var vs := ValuesOf(s[..n - 1]);
      assert ValuesOf(s[..n]) == vs + [s[n - 1].1];
      AddToGroupSnoc(GroupsOf(s, n), GroupsOf(s, n - 1), PyStr(s[n - 1].0), s[n - 1], vs);
    }
  }

  /** One grouping step adds the pair's value to the values held so far. */
  lemma AddToGroupSnoc(g': Groups, g: Groups, name: string, kv: (Value, Value), vs: seq<Value>)
    requires g' == AddToGroup(g, name, kv) && GroupValues(g) == multiset(vs)
    ensures GroupValues(g') == multiset(vs + [kv.1])
  {
    AddToGroupValues(g, name, kv);
  }

  lemma {:induction false} GroupsOfDistinct(s: Pairs, n: nat)
    requires n <= |s|
    ensures DistinctKeys(GroupsOf(s, n))
  {
    if n > 0 {
      GroupsOfDistinct(s, n - 1);
      AddToGroupDistinct(GroupsOf(s, n - 1), PyStr(s[n - 1].0), s[n - 1]);
    }
  }

  /** Every pair ends in the group named by the `str()` of its key. */
  lemma {:induction false} GroupOfPair(s: Pairs, n: nat, k: nat) returns (i: nat)
    requires k < n <= |s|
    ensures i < |GroupsOf(s, n)|
    ensures GroupsOf(s, n)[i].0 == PyStr(s[k].0) && s[k] in GroupsOf(s, n)[i].1
  {
    var g, g' := GroupsOf(s, n - 1), GroupsOf(s, n);
    var name, kv := PyStr(s[n - 1].0), s[n - 1];
    assert g' == AddToGroup(g, name, kv);
    if k == n - 1 {
      i := AddToGroupHoldsStep(g', g, name, kv);
    } else {
      var p, groupName := s[k], PyStr(s[k].0);
      i := GroupOfPair(s, n - 1, k);
      AddToGroupKeepsStep(g', g, name, kv, i, p, groupName);
    }
  }

  lemma AddToGroupHoldsStep(g': Groups, g: Groups, name: string, kv: (Value, Value)) returns (i: nat)
    requires g' == AddToGroup(g, name, kv)
    ensures i < |g'| && g'[i].0 == name && kv in g'[i].1
  {
    i := AddToGroupHolds(g, name, kv);
  }

  lemma AddToGroupKeepsStep(g': Groups, g: Groups, name: string, kv: (Value, Value), i: nat, p: (Value, Value), groupName: string)
    requires g' == AddToGroup(g, name, kv) && i < |g| && p in g[i].1 && g[i].0 == groupName
    ensures i < |g'| && g'[i].0 == groupName && p in g'[i].1
  {
    AddToGroupKeeps(g, name, kv);
  }

  // ---------------------------------------------------------------------
  // The corrected resolution only ever appends
  // ---------------------------------------------------------------------

  /** One step of the suffix loop appends under a name outside `taken`. */
  lemma StoredAppended(prev: Entries, taken: seq<string>, name: string, kv: (Value, Value))
    requires DistinctKeys(prev)
    ensures var key := SuffixName(prev, taken, true, name, kv.0);
      && Assign(prev, key, kv.1) == prev + [(key, kv.1)]
      && key !in taken && Suffixed(name, kv.0) <= key
  {
    var key := SuffixName(prev, taken, true, name, kv.0);
    assert key !in Keys(prev) + taken;
    KeysHasKey(prev, key);
  }

  /** One step of the suffix loop, from the stored prefix `resolved + e0`. */
  lemma SuffixStep(resolved: Entries, name: string, pairs: Pairs, n: nat, taken: seq<string>, e0: Entries)
    requires DistinctKeys(resolved) && 0 < n <= |pairs|
    requires AssignSuffixed(resolved, name, pairs, n - 1, taken, true) == resolved + e0
    ensures var key := SuffixName(resolved + e0, taken, true, name, pairs[n - 1].0);
      && AssignSuffixed(resolved, name, pairs, n, taken, true) == resolved + (e0 + [(key, pairs[n - 1].1)])
      && key !in taken && Suffixed(name, pairs[n - 1].0) <= key
  {
    var prev := resolved + e0;
    var key := SuffixName(prev, taken, true, name, pairs[n - 1].0);
    StoredAppended(prev, taken, name, pairs[n - 1]);
    assert prev + [(key, pairs[n - 1].1)] == resolved + (e0 + [(key, pairs[n - 1].1)]);
  }
  /** The suffix loop: each value is appended under a new name, outside `taken`,
      that starts with its key's suffixed name. */
  lemma {:induction false} SuffixedAppends(resolved: Entries, name: string, pairs: Pairs, n: nat, taken: seq<string>)
    returns (e: Entries)
    requires DistinctKeys(resolved) && n <= |pairs|
    ensures AssignSuffixed(resolved, name, pairs, n, taken, true) == resolved + e
    ensures |e| == n
    ensures forall i :: 0 <= i < n ==> e[i].1 == pairs[i].1 && e[i].0 !in taken && Suffixed(name, pairs[i].0) <= e[i].0
  {
    if n == 0 {
      e := [];
      assert resolved + e == resolved;
    } else {
      var e0 := SuffixedAppends(resolved, name, pairs, n - 1, taken);
      SuffixStep(resolved, name, pairs, n, taken, e0);
      var key := SuffixName(resolved + e0, taken, true, name, pairs[n - 1].0);
      e := e0 + [(key, pairs[n - 1].1)];
      forall i | 0 <= i < n
        ensures e[i].1 == pairs[i].1 && e[i].0 !in taken && Suffixed(name, pairs[i].0) <= e[i].0
      {
        if i < n - 1 {
          assert e[i] == e0[i];
        } else {
          assert e[i] == (key, pairs[n - 1].1);
        }
      }
    }
  }

  /** What the separation loop returns. */
  lemma {:induction false} SplitShape(pairs: Pairs, n: nat)
    requires n <= |pairs|
    ensures var split := SplitString(pairs, n);
      && (split.0.None? ==> split.1 == pairs[..n] && forall k :: 0 <= k < n ==> !pairs[k].0.Str?)
      && (split.0.Some? ==> (split.0.value in pairs && split.0.value.0.Str?
                             && multiset(ValuesOf(split.1)) + multiset{split.0.value.1} == multiset(ValuesOf(pairs[..n]))))
  {
    if n > 0 {
      SplitShape(pairs, n - 1);
      var x := pairs[n - 1];
      assert pairs[..n] == pairs[..n - 1] + [x];
      ValuesOfAppend(pairs[..n - 1], x);
      var prev := SplitString(pairs, n - 1);
      if x.0.Str? && prev.0.None? {
        assert SplitString(pairs, n) == (Some(x), prev.1);
      } else if prev.0.None? {
        assert SplitString(pairs, n) == (None, prev.1 + [x]);
        assert forall k :: 0 <= k < n - 1 ==> !pairs[k].0.Str?;
      } else {
        assert SplitString(pairs, n) == (prev.0, prev.1 + [x]);
        ValuesOfAppend(prev.1, x);
      }
    }
  }

  lemma ValuesOfAppend<K, V>(m: seq<(K, V)>, x: (K, V))
    ensures ValuesOf(m + [x]) == ValuesOf(m) + [x.1]
  {
    assert forall i :: 0 <= i < |m| ==> (m + [x])[i] == m[i];
  }

  /** The suffix loop after the string key took the bare name. */
  lemma OwnedTail(resolved: Entries, name: string, v: Value, rest: Pairs, taken: seq<string>) returns (e: Entries)
    requires DistinctKeys(resolved + [(name, v)])
    ensures AssignSuffixed(resolved + [(name, v)], name, rest, |rest|, taken, true) == resolved + e
    ensures ValuesOf(e) == [v] + ValuesOf(rest)
    ensures e[0] == (name, v) && forall i :: 1 <= i < |e| ==> e[i].0 !in taken
  {
    var e2 := SuffixedAppends(resolved + [(name, v)], name, rest, |rest|, taken);
    e := [(name, v)] + e2;
    ConcatAssoc(resolved, [(name, v)], e2);
    ConsEntries((name, v), e2, rest, taken);
  }

  /** `x` followed by entries carrying the values of `rest` under names outside `taken`. */
  lemma ConsEntries(x: (string, Value), e2: Entries, rest: Pairs, taken: seq<string>)
    requires |e2| == |rest|
    requires forall i :: 0 <= i < |rest| ==> e2[i].1 == rest[i].1 && e2[i].0 !in taken
    ensures ValuesOf([x] + e2) == [x.1] + ValuesOf(rest)
    ensures ([x] + e2)[0] == x && forall i :: 1 <= i < |[x] + e2| ==> ([x] + e2)[i].0 !in taken
  {
    ConsIndex(x, e2);
    assert ValuesOf(e2) == ValuesOf(rest);
  }

  /** A colliding group with a string key: the bare name first, then the
      suffixed names of the other keys. */
  lemma OwnedGroupAppends(resolved: Entries, name: string, pairs: Pairs, taken: seq<string>) returns (e: Entries)
    requires DistinctKeys(resolved) && !HasKey(resolved, name)
    requires |pairs| != 1 && SplitString(pairs, |pairs|).0.Some?
    ensures ResolveGroup(resolved, name, pairs, taken, true) == resolved + e
    ensures ValuesOf(e) == [SplitString(pairs, |pairs|).0.value.1] + ValuesOf(SplitString(pairs, |pairs|).1)
    ensures forall i :: 0 <= i < |e| ==> e[i].0 == name || e[i].0 !in taken
    ensures (name, SplitString(pairs, |pairs|).0.value.1) in e
  {
    var split := SplitString(pairs, |pairs|);
    var v := split.0.value.1;
    assert Assign(resolved, name, v) == resolved + [(name, v)];
    e := OwnedTail(resolved, name, v, split.1, taken);
  }

  /** A colliding group without a string key: every key is suffixed. */
  lemma UnownedGroupAppends(resolved: Entries, name: string, pairs: Pairs, taken: seq<string>) returns (e: Entries)
    requires DistinctKeys(resolved)
    requires |pairs| != 1 && SplitString(pairs, |pairs|).0.None?
    ensures ResolveGroup(resolved, name, pairs, taken, true) == resolved + e
    ensures ValuesOf(e) == ValuesOf(pairs)
    ensures forall i :: 0 <= i < |e| ==> e[i].0 !in taken
  {
    e := SuffixedAppends(resolved, name, pairs, |pairs|, taken);
  }

  /** One group, when its name is not stored yet: all its values are appended,
      under its name or names outside `taken`. */
  lemma GroupAppends(resolved: Entries, name: string, pairs: Pairs, taken: seq<string>) returns (e: Entries)
    requires DistinctKeys(resolved) && !HasKey(resolved, name)
    ensures ResolveGroup(resolved, name, pairs, taken, true) == resolved + e
    ensures multiset(ValuesOf(e)) == multiset(ValuesOf(pairs))
    ensures forall i :: 0 <= i < |e| ==> e[i].0 == name || e[i].0 !in taken
  {
    if |pairs| == 1 {
      e := SingleGroupAppends(resolved, name, pairs, taken);
    } else {
      SplitShape(pairs, |pairs|);
      assert pairs[..|pairs|] == pairs;
      if SplitString(pairs, |pairs|).0.Some? {
        e := OwnedGroupAppends(resolved, name, pairs, taken);
      } else {
        e := UnownedGroupAppends(resolved, name, pairs, taken);
      }
    }
  }

  /** A group of one pair stores its value under the group's name. */
  lemma SingleGroupAppends(resolved: Entries, name: string, pairs: Pairs, taken: seq<string>) returns (e: Entries)
    requires DistinctKeys(resolved) && !HasKey(resolved, name) && |pairs| == 1
    ensures ResolveGroup(resolved, name, pairs, taken, true) == resolved + e
    ensures multiset(ValuesOf(e)) == multiset(ValuesOf(pairs))
    ensures forall i :: 0 <= i < |e| ==> e[i].0 == name
  {
    e := [(name, pairs[0].1)];
    assert ResolveGroup(resolved, name, pairs, taken, true) == Assign(resolved, name, pairs[0].1);
    assert ValuesOf(pairs) == [pairs[0].1];
    assert ValuesOf(e) == [pairs[0].1];
  }

  /** A group holding a string key stores one such key's value under the bare name. */
  lemma GroupStoresString(resolved: Entries, name: string, pairs: Pairs, taken: seq<string>, k: nat)
    requires DistinctKeys(resolved) && !HasKey(resolved, name)
    requires k < |pairs| && pairs[k].0.Str?
    ensures exists p :: p in pairs && p.0.Str? && (name, p.1) in ResolveGroup(resolved, name, pairs, taken, true)
  {
    if |pairs| == 1 {
      assert (name, pairs[0].1) in Assign(resolved, name, pairs[0].1);
    } else {
      SplitShape(pairs, |pairs|);
      var split := SplitString(pairs, |pairs|);
      assert split.0.Some?;
      var e := OwnedGroupAppends(resolved, name, pairs, taken);
      assert (name, split.0.value.1) in resolved + e;
    }
  }

  /** The names of the groups. */
  function Names(g: Groups): (r: seq<string>)
    ensures |r| == |g| && forall i :: 0 <= i < |g| ==> r[i] == g[i].0
  {
    seq(|g|, i requires 0 <= i < |g| => g[i].0)
  }

  /** Names stored after the first `n` groups: a group's name, or a name
      outside `taken`. */
  ghost predicate NamesAfter(r: Entries, g: Groups, n: nat, taken: seq<string>)
    requires n <= |g|
  {
    forall j :: 0 <= j < |r| ==> r[j].0 in Names(g)[..n] || r[j].0 !in taken
  }

  lemma AppendNames(prev: Entries, e: Entries, g: Groups, n: nat, taken: seq<string>)
    requires n < |g| && NamesAfter(prev, g, n, taken)
    requires forall i :: 0 <= i < |e| ==> e[i].0 == g[n].0 || e[i].0 !in taken
    ensures NamesAfter(prev + e, g, n + 1, taken)
  {
    var names := Names(g);
    assert names[..n + 1] == names[..n] + [g[n].0];
    forall j | 0 <= j < |prev + e| ensures (prev + e)[j].0 in names[..n + 1] || (prev + e)[j].0 !in taken {
      if j < |prev| {
        assert (prev + e)[j] == prev[j];
      } else {
        assert (prev + e)[j] == e[j - |prev|];
      }
    }
  }

  lemma AppendValues(prev: Entries, e: Entries, g: Groups, n: nat)
    requires n < |g| && multiset(ValuesOf(prev)) == GroupValues(g[..n])
    requires multiset(ValuesOf(e)) == multiset(ValuesOf(g[n].1))
    ensures multiset(ValuesOf(prev + e)) == GroupValues(g[..n + 1])
  {
    GroupValuesStep(g, n);
    assert ValuesOf(prev + e) == ValuesOf(prev) + ValuesOf(e);
  }

  lemma {:induction false} GroupsAppend(g: Groups, n: nat, taken: seq<string>)
    requires n <= |g| && DistinctKeys(g) && forall i :: 0 <= i < |g| ==> g[i].0 in taken
    ensures NamesAfter(ResolveGroups(g, n, taken, true), g, n, taken)
    ensures multiset(ValuesOf(ResolveGroups(g, n, taken, true))) == GroupValues(g[..n])
  {
    if n > 0 {
      var prev := ResolveGroups(g, n - 1, taken, true);
      GroupsAppend(g, n - 1, taken);
      NextNameFree(g, n - 1, taken);
      var e := GroupAppends(prev, g[n - 1].0, g[n - 1].1, taken);
      AppendNames(prev, e, g, n - 1, taken);
      AppendValues(prev, e, g, n - 1);
    }
  }

  /** The name of the next group is not stored yet. */
  lemma NextNameFree(g: Groups, n: nat, taken: seq<string>)
    requires n < |g| && DistinctKeys(g) && forall i :: 0 <= i < |g| ==> g[i].0 in taken
    requires NamesAfter(ResolveGroups(g, n, taken, true), g, n, taken)
    ensures !HasKey(ResolveGroups(g, n, taken, true), g[n].0)
  {
    var prev := ResolveGroups(g, n, taken, true);
    var names := Names(g);
    forall j | 0 <= j < |prev| ensures prev[j].0 != g[n].0 {
      if prev[j].0 in names[..n] {
        var i :| 0 <= i < n && names[..n][i] == prev[j].0;
        assert g[i].0 == prev[j].0;
      } else {
        assert g[n].0 in taken;
      }
    }
  }

  /** Resolving more groups only appends. */
  lemma {:induction false} GroupsPrefix(g: Groups, n: nat, m: nat, taken: seq<string>)
    requires n <= m <= |g| && DistinctKeys(g) && forall i :: 0 <= i < |g| ==> g[i].0 in taken
    ensures ResolveGroups(g, n, taken, true) <= ResolveGroups(g, m, taken, true)
    decreases m
  {
    if n < m {
      GroupsPrefix(g, n, m - 1, taken);
      GroupsAppend(g, m - 1, taken);
      NextNameFree(g, m - 1, taken);
      var prev := ResolveGroups(g, m - 1, taken, true);
      var e := GroupAppends(prev, g[m - 1].0, g[m - 1].1, taken);
      PrefixExtend(ResolveGroups(g, n, taken, true), prev, e);
    }
  }

  lemma PrefixExtend<T>(a: seq<T>, b: seq<T>, c: seq<T>)
    requires a <= b
    ensures a <= b + c
  {
    assert (b + c)[..|a|] == a;
  }

  // ---------------------------------------------------------------------
  // Properties of the corrected `_resolve_key_collisions`
  // ---------------------------------------------------------------------

  /** A group holding a string key keeps one such value under its name to the end. */
  lemma StringGroupKept(g: Groups, gi: nat, taken: seq<string>, idx: nat)
    requires DistinctKeys(g) && forall i :: 0 <= i < |g| ==> g[i].0 in taken
    requires gi < |g| && idx < |g[gi].1| && g[gi].1[idx].0.Str?
    ensures exists p :: p in g[gi].1 && p.0.Str? && (g[gi].0, p.1) in ResolveGroups(g, |g|, taken, true)
  {
    GroupsAppend(g, gi, taken);
    NextNameFree(g, gi, taken);
    var prev := ResolveGroups(g, gi, taken, true);
    GroupStoresString(prev, g[gi].0, g[gi].1, taken, idx);
    var p :| p in g[gi].1 && p.0.Str? && (g[gi].0, p.1) in ResolveGroups(g, gi + 1, taken, true);
    GroupsPrefix(g, gi + 1, |g|, taken);
  }

  /** In the sorted pairs `s`, the group of a string key stores some pair
      with that key under the bare name. */
  lemma StoredSortedPair(s: Pairs, ks: nat) returns (p: (Value, Value))
    requires ks < |s| && s[ks].0.Str?
    ensures p in s && p.0 == s[ks].0
    ensures (s[ks].0.s, p.1) in ResolveGroups(GroupsOf(s, |s|), |GroupsOf(s, |s|)|, StrNames(s), true)
  {
    var g := GroupsOf(s, |s|);
    GroupsOfNamed(s, |s|);
    GroupsOfDistinct(s, |s|);
    var gi := GroupOfPair(s, |s|, ks);
    var idx :| 0 <= idx < |g[gi].1| && g[gi].1[idx] == s[ks];
    StringGroupKept(g, gi, StrNames(s), idx);
    p :| p in g[gi].1 && p.0.Str? && (g[gi].0, p.1) in ResolveGroups(g, |g|, StrNames(s), true);
    assert p in s && PyStr(p.0) == g[gi].0;
    StrOfString(p.0);
    StrOfString(s[ks].0);
  }

  /** `str()` of a string is the string itself. */
  lemma StrOfString(k: Value)
    requires k.Str?
    ensures PyStr(k) == k.s
  {
  }

  /** The pair whose value the group of a string key stores under the bare name. */
  lemma StoredStringPair(items: Pairs, k: nat) returns (p: (Value, Value))
    requires k < |items| && items[k].0.Str?
    ensures p in SortBy(items, ItemKey) && p.0 == items[k].0 && (items[k].0.s, p.1) in Resolved(items)
  {
    var s := SortBy(items, ItemKey);
    SortByMembers(items, ItemKey, items[k]);
    var ks :| 0 <= ks < |s| && s[ks] == items[k];
    p := StoredSortedPair(s, ks);
  }

  /** No value is lost: the resolved dict holds exactly the values of the
      input, one entry per key. */
  lemma ResolvedKeepsValues(items: Pairs)
    ensures multiset(ValuesOf(Resolved(items))) == multiset(ValuesOf(items))
    ensures |Resolved(items)| == |items|
  {
    var s := SortBy(items, ItemKey);
    var g := GroupsOf(s, |s|);
    GroupsOfNamed(s, |s|);
    GroupsOfValues(s, |s|);
    GroupsOfDistinct(s, |s|);
    GroupsAppend(g, |g|, StrNames(s));
    assert g[..|g|] == g;
    assert s[..|s|] == s;
    SortValues(items, ItemKey);
  }

  /** A string key keeps its bare name: some pair with that key has its value
      stored under the string itself, and with distinct keys (every real dict)
      it is the key's own value. */
  lemma ResolvedStringKeys(items: Pairs, k: nat)
    requires k < |items| && items[k].0.Str?
    ensures exists v :: (items[k].0, v) in items && (items[k].0.s, v) in Resolved(items)
    ensures DistinctKeys(items) ==> (items[k].0.s, items[k].1) in Resolved(items)
  {
    var t := items[k].0.s;
    var s := SortBy(items, ItemKey);
    var g := GroupsOf(s, |s|);
    var taken := StrNames(s);
    var p := StoredStringPair(items, k);
    SortByMembers(items, ItemKey, p);
    if DistinctKeys(items) {
      var j :| 0 <= j < |items| && items[j] == p;
      assert j == k;
    }
  }

  // ---------------------------------------------------------------------
  // Concrete collisions
  // ---------------------------------------------------------------------

  /** The keys `"1"`, `1` and `"1__int"`, in the order `items.sort` leaves them. */
  function CollidingItems(a: Value, b: Value, c: Value): Pairs {
    [(Str("1"), a), (Int(1), b), (Str("1__int"), c)]
  }

  lemma IntOneText()
    ensures PyStr(Int(1)) == "1"
  {
    assert NatToString(1) == [DigitChar(1)];
  }

  lemma CollidingKeysOrdered(a: Value, b: Value, c: Value)
    ensures KeyLe(ItemKey((Str("1"), a)), ItemKey((Int(1), b)))
    ensures KeyLe(ItemKey((Str("1"), a)), ItemKey((Str("1__int"), c)))
    ensures KeyLe(ItemKey((Int(1), b)), ItemKey((Str("1__int"), c)))
  {
    IntOneText();
    assert ItemKey((Str("1"), a)) == [Txt("1"), Num(0), Txt("str")];
    assert ItemKey((Int(1), b)) == [Txt("1"), Num(1), Txt("int")];
    assert ItemKey((Str("1__int"), c)) == [Txt("1__int"), Num(0), Txt("str")];
    assert StrLe("1", "1__int");
  }

  lemma SortOne(x: (Value, Value))
    ensures SortBy([x], ItemKey) == [x]
  {
    assert [x][..0] == [];
  }

  /** Inserting after an element whose key is not greater. */
  lemma InsertAfter(x: (Value, Value), rest: Pairs, y: (Value, Value))
    requires KeyLe(ItemKey(x), ItemKey(y))
    ensures Insert([x] + rest, y, ItemKey) == [x] + Insert(rest, y, ItemKey)
  {
    assert ([x] + rest)[0] == x && ([x] + rest)[1..] == rest;
  }

  lemma SortTwo(x1: (Value, Value), x2: (Value, Value))
    requires KeyLe(ItemKey(x1), ItemKey(x2))
    ensures SortBy([x1, x2], ItemKey) == [x1, x2]
  {
    assert [x1, x2][..1] == [x1];
    SortOne(x1);
    InsertAfter(x1, [], x2);
  }

  lemma InsertThird(x1: (Value, Value), x2: (Value, Value), x3: (Value, Value))
    requires KeyLe(ItemKey(x1), ItemKey(x3)) && KeyLe(ItemKey(x2), ItemKey(x3))
    ensures Insert([x1, x2], x3, ItemKey) == [x1, x2, x3]
  {
    InsertAfter(x1, [x2], x3);
    InsertAfter(x2, [], x3);
  }

  lemma SortThree(x1: (Value, Value), x2: (Value, Value), x3: (Value, Value))
    requires SortBy([x1, x2], ItemKey) == [x1, x2]
    ensures SortBy([x1, x2, x3], ItemKey) == Insert([x1, x2], x3, ItemKey)
  {
    assert [x1, x2, x3][..2] == [x1, x2];
  }

  lemma CollidingItemsSorted(a: Value, b: Value, c: Value)
    ensures SortBy(CollidingItems(a, b, c), ItemKey) == CollidingItems(a, b, c)
  {
    var x1, x2, x3 := (Str("1"), a), (Int(1), b), (Str("1__int"), c);
    CollidingKeysOrdered(a, b, c);
    SortTwo(x1, x2);
    SortThree(x1, x2, x3);
    InsertThird(x1, x2, x3);
  }

  /** The first pair opens the first group. */
  lemma GroupsOfFirst(s: Pairs)
    requires |s| >= 1
    ensures GroupsOf(s, 1) == [(PyStr(s[0].0), [s[0]])]
  {
    assert GroupsOf(s, 1) == AddToGroup([], PyStr(s[0].0), s[0]);
  }

  lemma CollidingItemsGrouped(a: Value, b: Value, c: Value)
    ensures GroupsOf(CollidingItems(a, b, c), 3)
      == [("1", [(Str("1"), a), (Int(1), b)]), ("1__int", [(Str("1__int"), c)])]
  {
    var x1, x2, x3 := (Str("1"), a), (Int(1), b), (Str("1__int"), c);
    var items := CollidingItems(a, b, c);
    IntOneText();
    assert items[0] == x1;
    var g1 := GroupsOf(items, 1);
    GroupsOfFirst(items);
    StrOfString(x1.0);
    var g2 := GroupsOf(items, 2);
    assert g2 == AddToGroup(g1, "1", x2);
    assert g1[0].0 == "1" && g1[1..] == [];
    assert g2 == [("1", g1[0].1 + [x2])] + g1[1..];
    assert g1[0].1 + [x2] == [x1, x2];
    assert [("1", [x1, x2])] + g1[1..] == [("1", [x1, x2])];
    assert GroupsOf(items, 3) == AddToGroup(g2, "1__int", x3);
    assert !HasKey(g2, "1__int");
  }

  lemma SplitCollidingGroup(a: Value, b: Value)
    ensures SplitString([(Str("1"), a), (Int(1), b)], 2) == (Some((Str("1"), a)), [(Int(1), b)])
  {
    assert SplitString([(Str("1"), a), (Int(1), b)], 1) == (Some((Str("1"), a)), []);
    assert [] + [(Int(1), b)] == [(Int(1), b)];
  }

  /** The group `"1"` as written: `"1"` keeps its name and `1` goes to `"1__int"`. */
  lemma FirstGroupAsWritten(a: Value, b: Value, taken: seq<string>)
    ensures ResolveGroup([], "1", [(Str("1"), a), (Int(1), b)], taken, false) == [("1", a), ("1__int", b)]
  {
    SplitCollidingGroup(a, b);
    assert Lower("int") == "int";
    assert Suffixed("1", Int(1)) == "1__int";
    var r0 := Assign([], "1", a);
    assert r0 == [("1", a)];
    assert !HasKey(r0, "1__int");
    assert AssignSuffixed(r0, "1", [(Int(1), b)], 1, taken, false) == Assign(r0, "1__int", b);
  }

  /** The group `"1__int"` as written: stored over the value already there. */
  lemma SecondGroupAsWritten(a: Value, b: Value, c: Value, taken: seq<string>)
    ensures ResolveGroup([("1", a), ("1__int", b)], "1__int", [(Str("1__int"), c)], taken, false)
      == [("1", a), ("1__int", c)]
  {
    var m := [("1", a), ("1__int", b)];
    assert m[1..][0].0 == "1__int";
    assert m[1..][1..] == [];
  }

  /** As written, a suffixed name can land on another key of the dict:
      with the keys `"1"`, `1` and `"1__int"`, the value of `1` is first
      stored as `"1__int"` and then overwritten by the value of `"1__int"`. */
  lemma AsWrittenLosesValue(a: Value, b: Value, c: Value)
    ensures ResolvedAsWritten(CollidingItems(a, b, c)) == [("1", a), ("1__int", c)]
  {
    var items := CollidingItems(a, b, c);
    CollidingItemsSorted(a, b, c);
    CollidingItemsGrouped(a, b, c);
    var g := GroupsOf(items, 3);
    FirstGroupAsWritten(a, b, []);
    SecondGroupAsWritten(a, b, c, []);
    assert ResolveGroups(g, 1, [], false) == [("1", a), ("1__int", b)];
  }

  lemma CollidingNames()
    ensures "1__int" in ["1", "1", "1__int"]
    ensures "1__int_original" !in ["1"] + ["1", "1", "1__int"]
  {
    assert "1__int_original" != "1" && "1__int_original" != "1__int";
  }

  lemma FreeIntName()
    ensures FreeName(["1"] + ["1", "1", "1__int"], "1__int") == "1__int_original"
  {
    CollidingNames();
    assert Candidate("1__int", 1) == "1__int_original";
  }

  lemma CollidingTaken(a: Value, b: Value, c: Value)
    ensures StrNames(CollidingItems(a, b, c)) == ["1", "1", "1__int"]
  {
    IntOneText();
  }

  lemma FirstGroupCorrected(a: Value, b: Value, taken: seq<string>)
    requires taken == ["1", "1", "1__int"]
    ensures ResolveGroup([], "1", [(Str("1"), a), (Int(1), b)], taken, true) == [("1", a), ("1__int_original", b)]
  {
    SplitCollidingGroup(a, b);
    assert Lower("int") == "int";
    assert Suffixed("1", Int(1)) == "1__int";
    var r0 := [("1", a)];
    assert Assign([], "1", a) == r0;
    assert Keys(r0) + taken == ["1"] + ["1", "1", "1__int"];
    FreeIntName();
    assert SuffixName(r0, taken, true, "1", Int(1)) == "1__int_original";
    assert AssignSuffixed(r0, "1", [(Int(1), b)], 1, taken, true) == Assign(r0, "1__int_original", b);
  }

  lemma SecondGroupCorrected(a: Value, b: Value, c: Value, taken: seq<string>)
    ensures ResolveGroup([("1", a), ("1__int_original", b)], "1__int", [(Str("1__int"), c)], taken, true)
      == [("1", a), ("1__int_original", b), ("1__int", c)]
  {
    var r1 := [("1", a), ("1__int_original", b)];
    assert r1[0].0 != "1__int" && r1[1].0 != "1__int";
    assert !HasKey(r1, "1__int");
  }

  /** Corrected, the same keys keep all three values: `1` is stored under
      `"1__int_original"`, leaving `"1__int"` to the string key. */
  lemma CorrectedKeepsValue(a: Value, b: Value, c: Value)
    ensures Resolved(CollidingItems(a, b, c)) == [("1", a), ("1__int_original", b), ("1__int", c)]
  {
    var items := CollidingItems(a, b, c);
    CollidingItemsSorted(a, b, c);
    CollidingItemsGrouped(a, b, c);
    var g := GroupsOf(items, 3);
    var taken := StrNames(items);
    CollidingTaken(a, b, c);
    FirstGroupCorrected(a, b, taken);
    SecondGroupCorrected(a, b, c, taken);
    assert ResolveGroups(g, 1, taken, true) == [("1", a), ("1__int_original", b)];
  }
}
