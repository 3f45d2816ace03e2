/** The naming rule of `_resolve_key_collisions`, read key by key: a key keeps
    its `str()` when it is a string or no other key shares that `str()`, and
    is suffixed with its type otherwise. As written, the resolution makes the
    assignments of a plan that follows this rule, group after group. */
module ExtraNames {
  import opened Outcomes
  import opened Values
  import opened Ordering
  import opened Dicts
  import opened Extra
  import opened ExtraProperties

  /** Another key of `items` has the same `str()` as `k`. */
  predicate SharesStr(items: Pairs, k: Value) {
    exists p :: p in items && p.0 != k && PyStr(p.0) == PyStr(k)
  }

  /** `k` keeps its bare `str()`: it is a string, or alone in its collision group. */
  predicate Bare(items: Pairs, k: Value) {
    k.Str? || !SharesStr(items, k)
  }

  /** The name the docstring's rule gives the key `k` of `items`. */
  function IntendedName(items: Pairs, k: Value): string {
    if Bare(items, k) then PyStr(k) else Suffixed(PyStr(k), k)
  }

  // ---------------------------------------------------------------------
  // The sort key
  // ---------------------------------------------------------------------

  lemma ItemKeyStrLe(a: (Value, Value), b: (Value, Value))
    requires KeyLe(ItemKey(a), ItemKey(b))
    ensures StrLe(PyStr(a.0), PyStr(b.0))
  {
    if PyStr(a.0) == PyStr(b.0) {
      StrLeTotal(PyStr(a.0), PyStr(b.0));
    } else {
      assert ItemKey(a)[0] != ItemKey(b)[0];
    }
  }

  /** A text never sorts at or below a proper prefix of itself. */
  lemma {:induction false} StrLeProperPrefix(a: string, b: string)
    requires b < a
    ensures !StrLe(a, b)
    decreases |b|
  {
    if b != [] {
      assert a[0] == b[0] && b[1..] < a[1..];
      StrLeProperPrefix(a[1..], b[1..]);
    }
  }

  /** A suffixed name extends the name it is made from. */
  lemma SuffixedExtends(name: string, k: Value)
    ensures name < Suffixed(name, k)
  {
    assert Suffixed(name, k)[..|name|] == name;
  }

  // ---------------------------------------------------------------------
  // Collision groups
  // ---------------------------------------------------------------------

  /** `pairs` is the collision group of `name` among `items`: pairs of
      distinct keys, exactly those of `items` whose key has `name` as `str()`. */
  ghost predicate GroupOf(items: Pairs, name: string, pairs: Pairs) {
    && DistinctKeys(pairs)
    && (forall p :: p in pairs ==> p in items && PyStr(p.0) == name)
    && (forall q :: q in items && PyStr(q.0) == name ==> q in pairs)
  }

  /** Two pairs of distinct keys with the same key are the same pair. */
  lemma SameKeySamePair(pairs: Pairs, a: (Value, Value), b: (Value, Value))
    requires DistinctKeys(pairs) && a in pairs && b in pairs && a.0 == b.0
    ensures a == b
  {
    var i :| 0 <= i < |pairs| && pairs[i] == a;
    var j :| 0 <= j < |pairs| && pairs[j] == b;
    assert i == j;
  }

  /** Two string keys with the same `str()` are the same key. */
  lemma StringKeysEqual(a: Value, b: Value)
    requires a.Str? && b.Str? && PyStr(a) == PyStr(b)
    ensures a == b
  {
    StrOfString(a);
    StrOfString(b);
  }

  /** In a group of two or more, every key shares its `str()`. */
  lemma SharedInGroup(items: Pairs, name: string, pairs: Pairs, p: (Value, Value))
    requires GroupOf(items, name, pairs) && |pairs| >= 2 && p in pairs
    ensures SharesStr(items, p.0)
  {
    assert pairs[0].0 != pairs[1].0;
    if pairs[0].0 != p.0 {
      assert pairs[0] in items && PyStr(pairs[0].0) == PyStr(p.0);
    } else {
      assert pairs[1] in items && PyStr(pairs[1].0) == PyStr(p.0);
    }
  }

  /** The key of a group of one shares its `str()` with no other key. */
  lemma LoneInGroup(items: Pairs, name: string, pairs: Pairs)
    requires GroupOf(items, name, pairs) && |pairs| == 1
    ensures !SharesStr(items, pairs[0].0)
  {
  }

  /** `AddToGroup` changes only the group named `name`, by appending `kv`. */
  lemma {:induction false} AddToGroupShape(g: Groups, name: string, kv: (Value, Value))
    requires DistinctKeys(g)
    ensures forall i :: 0 <= i < |AddToGroup(g, name, kv)| && AddToGroup(g, name, kv)[i].0 != name ==>
      i < |g| && AddToGroup(g, name, kv)[i] == g[i]
    ensures forall i :: 0 <= i < |AddToGroup(g, name, kv)| && AddToGroup(g, name, kv)[i].0 == name ==>
      (i < |g| && AddToGroup(g, name, kv)[i].1 == g[i].1 + [kv]) || (i == |g| && AddToGroup(g, name, kv)[i].1 == [kv])
  {
    if g != [] && g[0].0 != name {
      var rest := AddToGroup(g[1..], name, kv);
      assert DistinctKeys(g[1..]) by {
        forall i, j | 0 <= i < j < |g[1..]| ensures g[1..][i].0 != g[1..][j].0 {
          assert g[1..][i] == g[i + 1] && g[1..][j] == g[j + 1];
        }
      }
      AddToGroupShape(g[1..], name, kv);
      var r := [g[0]] + rest;
      assert forall i :: 1 <= i < |r| ==> r[i] == rest[i - 1];
      assert forall i :: 1 <= i < |g| ==> g[i] == g[1..][i - 1];
    } else if g != [] {
      var r := AddToGroup(g, name, kv);
      assert forall i :: 1 <= i < |g| ==> r[i] == g[i] && g[i].0 != name;
    }
  }

  /** Appending the pair `s[n]` to pairs taken from `s[..n]` keeps keys distinct. */
  lemma AppendFresh(prior: Pairs, s: Pairs, n: nat)
    requires DistinctKeys(s) && n < |s| && DistinctKeys(prior)
    requires forall q :: q in prior ==> q in s[..n]
    ensures DistinctKeys(prior + [s[n]])
    ensures forall q :: q in prior + [s[n]] ==> q in s[..n + 1]
  {
    var r := prior + [s[n]];
    forall i | 0 <= i < |prior| ensures prior[i].0 != s[n].0 {
      assert prior[i] in s[..n];
      var t :| 0 <= t < n && s[..n][t] == prior[i];
      assert s[t] == prior[i];
    }
    assert forall i :: 0 <= i < |prior| ==> r[i] == prior[i];
    assert s[..n + 1] == s[..n] + [s[n]];
  }

  /** Over pairs of distinct keys, every group is non-empty, has distinct
      keys and holds pairs of the first `n` only. */
  lemma GroupsOfParts(s: Pairs, n: nat)
    requires DistinctKeys(s) && n <= |s|
    ensures forall i :: 0 <= i < |GroupsOf(s, n)| ==> |GroupsOf(s, n)[i].1| > 0 && DistinctKeys(GroupsOf(s, n)[i].1)
    ensures forall i, q :: 0 <= i < |GroupsOf(s, n)| && q in GroupsOf(s, n)[i].1 ==> q in s[..n]
  {
    var j := 0;
    while j < n
      invariant j <= n
      invariant forall i :: 0 <= i < |GroupsOf(s, j)| ==> |GroupsOf(s, j)[i].1| > 0 && DistinctKeys(GroupsOf(s, j)[i].1)
      invariant forall i, q :: 0 <= i < |GroupsOf(s, j)| && q in GroupsOf(s, j)[i].1 ==> q in s[..j]
    {
      PartsStep(s, j);
      j := j + 1;
    }
  }

  /** The groups of the first `n` pairs are non-empty, have distinct keys
      and hold pairs of the first `n` only. */
  ghost predicate PartsHold(s: Pairs, n: nat)
    requires n <= |s|
  {
    var g := GroupsOf(s, n);
    (forall i :: 0 <= i < |g| ==> |g[i].1| > 0 && DistinctKeys(g[i].1)) &&
    (forall i, q :: 0 <= i < |g| && q in g[i].1 ==> q in s[..n])
  }

  /** Adding `s[n]` to the groups of the first `n` pairs keeps them so. */
  lemma PartsStep(s: Pairs, n: nat)
    requires DistinctKeys(s) && n < |s| && PartsHold(s, n)
    ensures PartsHold(s, n + 1)
  {
    var r := GroupsOf(s, n + 1);
    assert r == AddToGroup(GroupsOf(s, n), PyStr(s[n].0), s[n]);
    GroupsOfDistinct(s, n);
    PartsAdd(s, n, GroupsOf(s, n), r);
  }

  /** The groups `g0` with `s[n]` added. */
  lemma PartsAdd(s: Pairs, n: nat, g0: Groups, r: Groups)
    requires DistinctKeys(s) && n < |s| && DistinctKeys(g0) && r == AddToGroup(g0, PyStr(s[n].0), s[n])
    requires forall i :: 0 <= i < |g0| ==> |g0[i].1| > 0 && DistinctKeys(g0[i].1)
    requires forall i, q :: 0 <= i < |g0| && q in g0[i].1 ==> q in s[..n]
    ensures forall i :: 0 <= i < |r| ==> |r[i].1| > 0 && DistinctKeys(r[i].1)
    ensures forall i, q :: 0 <= i < |r| && q in r[i].1 ==> q in s[..n + 1]
  {
    AddToGroupShape(g0, PyStr(s[n].0), s[n]);
    assert s[..n + 1] == s[..n] + [s[n]];
    forall i | 0 <= i < |r|
      ensures |r[i].1| > 0 && DistinctKeys(r[i].1) && forall q :: q in r[i].1 ==> q in s[..n + 1]
    {
      PartsStepAt(s, n, g0, r, i);
    }
  }

  /** The `i`-th group after adding `s[n]` to the groups `g0`. */
  lemma PartsStepAt(s: Pairs, n: nat, g0: Groups, r: Groups, i: nat)
    requires DistinctKeys(s) && n < |s| && s[..n + 1] == s[..n] + [s[n]] && i < |r|
    requires forall i :: 0 <= i < |g0| ==> |g0[i].1| > 0 && DistinctKeys(g0[i].1)
    requires forall i, q :: 0 <= i < |g0| && q in g0[i].1 ==> q in s[..n]
    requires r[i].0 != PyStr(s[n].0) ==> i < |g0| && r[i] == g0[i]
    requires r[i].0 == PyStr(s[n].0) ==>
      (i < |g0| && r[i].1 == g0[i].1 + [s[n]]) || (i == |g0| && r[i].1 == [s[n]])
    ensures |r[i].1| > 0 && DistinctKeys(r[i].1) && forall q :: q in r[i].1 ==> q in s[..n + 1]
  {
    if r[i].0 != PyStr(s[n].0) {
    } else if i < |g0| && r[i].1 == g0[i].1 + [s[n]] {
      AppendFresh(g0[i].1, s, n);
    } else {
      assert s[..n + 1][n] == s[n];
    }
  }



  /** Group names in ascending order. */
  ghost predicate InNameOrder(g: Groups) {
    forall i, j :: 0 <= i < j < |g| ==> StrLe(g[i].0, g[j].0)
  }

  lemma OrderedSnoc(g: Groups, x: (string, Pairs))
    requires InNameOrder(g) && forall i :: 0 <= i < |g| ==> StrLe(g[i].0, x.0)
    ensures InNameOrder(g + [x])
  {
    var r := g + [x];
    assert forall i :: 0 <= i < |g| ==> r[i] == g[i];
  }

  /** A group opened by `s[n]` sorts after every group of the first `n` pairs. */
  lemma NewGroupAfter(s: Pairs, n: nat)
    requires DistinctKeys(s) && SortedBy(s, ItemKey) && n < |s|
    ensures forall i :: 0 <= i < |GroupsOf(s, n)| ==> StrLe(GroupsOf(s, n)[i].0, PyStr(s[n].0))
  {
    var g0 := GroupsOf(s, n);
    GroupsOfParts(s, n);
    GroupsOfNamed(s, n);
    forall i | 0 <= i < |g0| ensures StrLe(g0[i].0, PyStr(s[n].0)) {
      var q := g0[i].1[0];
      assert q in g0[i].1;
      assert q in s[..n];
      var t :| 0 <= t < n && s[..n][t] == q;
      assert s[t] == q;
      ItemKeyStrLe(s[t], s[n]);
    }
  }

  /** Over sorted pairs, the groups come in the order of their names. */
  lemma {:induction false} GroupsOfOrdered(s: Pairs, n: nat)
    requires DistinctKeys(s) && SortedBy(s, ItemKey) && n <= |s|
    ensures InNameOrder(GroupsOf(s, n))
  {
    if n > 0 {
      var j := n - 1;
      GroupsOfOrdered(s, j);
      OrderedStep(s, j);
    }
  }

  lemma OrderedStep(s: Pairs, n: nat)
    requires DistinctKeys(s) && SortedBy(s, ItemKey) && n < |s| && InNameOrder(GroupsOf(s, n))
    ensures InNameOrder(GroupsOf(s, n + 1))
  {
    if HasKey(GroupsOf(s, n), PyStr(s[n].0)) {
      OrderedJoin(GroupsOf(s, n), PyStr(s[n].0), s[n]);
    } else {
      OrderedOpen(s, n);
    }
  }


  /** Adding to an existing group keeps the names and their order. */
  lemma OrderedJoin(g: Groups, name: string, kv: (Value, Value))
    requires InNameOrder(g) && HasKey(g, name)
    ensures InNameOrder(AddToGroup(g, name, kv))
  {
    var r := AddToGroup(g, name, kv);
    AddToGroupKeeps(g, name, kv);
    assert forall i :: 0 <= i < |r| ==> r[i].0 == g[i].0;
  }

  /** Opening a group for `s[n]` keeps the names in order. */
  lemma OrderedOpen(s: Pairs, n: nat)
    requires DistinctKeys(s) && SortedBy(s, ItemKey) && n < |s|
    requires InNameOrder(GroupsOf(s, n)) && !HasKey(GroupsOf(s, n), PyStr(s[n].0))
    ensures InNameOrder(GroupsOf(s, n + 1))
  {
    NewGroupAfter(s, n);
    OrderedSnoc(GroupsOf(s, n), (PyStr(s[n].0), [s[n]]));
  }

  /** Each of `g` is the collision group of `items` for its name. */
  ghost predicate GroupsOfAll(items: Pairs, g: Groups) {
    forall i :: 0 <= i < |g| ==> GroupOf(items, g[i].0, g[i].1)
  }

  /** The members of a group of the sorted items are the pairs of its name. */
  lemma GroupMembers(items: Pairs, s: Pairs, g: Groups, i: nat)
    requires DistinctKeys(items) && s == SortBy(items, ItemKey) && g == GroupsOf(s, |s|) && i < |g|
    ensures forall p :: p in g[i].1 ==> p in items && PyStr(p.0) == g[i].0
  {
    SortDistinct(items, ItemKey);
    GroupInSorted(s, g, i);
    forall p | p in g[i].1 ensures p in items && PyStr(p.0) == g[i].0 {
      SortByMembers(items, ItemKey, p);
    }
  }

  lemma GroupInSorted(s: Pairs, g: Groups, i: nat)
    requires DistinctKeys(s) && g == GroupsOf(s, |s|) && i < |g|
    ensures forall p :: p in g[i].1 ==> p in s && PyStr(p.0) == g[i].0
  {
    GroupsOfParts(s, |s|);
    GroupsOfNamed(s, |s|);
    assert s[..|s|] == s;
  }

  /** Every pair of a group's name is in that group. */
  lemma GroupComplete(items: Pairs, s: Pairs, g: Groups, i: nat)
    requires DistinctKeys(items) && s == SortBy(items, ItemKey) && g == GroupsOf(s, |s|) && i < |g|
    ensures forall q :: q in items && PyStr(q.0) == g[i].0 ==> q in g[i].1
  {
    forall q | q in items && PyStr(q.0) == g[i].0 ensures q in g[i].1 {
      SortByMembers(items, ItemKey, q);
      var k :| 0 <= k < |s| && s[k] == q;
      PairInItsGroup(s, k, i);
    }
  }

  /** A pair is in the group of its name. */
  lemma PairInItsGroup(s: Pairs, k: nat, i: nat)
    requires k < |s| && i < |GroupsOf(s, |s|)| && GroupsOf(s, |s|)[i].0 == PyStr(s[k].0)
    ensures s[k] in GroupsOf(s, |s|)[i].1
  {
    GroupsOfDistinct(s, |s|);
    var i' := GroupOfPair(s, |s|, k);
  }

  /** The groups of the sorted items are the collision groups of `items`. */
  lemma GroupsOfItems(items: Pairs)
    requires DistinctKeys(items)
    ensures var s := SortBy(items, ItemKey); GroupsOfAll(items, GroupsOf(s, |s|))
  {
    var s := SortBy(items, ItemKey);
    var g := GroupsOf(s, |s|);
    SortDistinct(items, ItemKey);
    GroupsOfParts(s, |s|);
    forall i | 0 <= i < |g| ensures GroupOf(items, g[i].0, g[i].1) {
      GroupMembers(items, s, g, i);
      GroupComplete(items, s, g, i);
    }
  }


  // ---------------------------------------------------------------------
  // The assignments made as written
  // ---------------------------------------------------------------------

  /** `resolved[f"{str_name}__{type}"] = value` for the first `n` of `pairs`, as assignments. */
  function SuffixedPlan(name: string, pairs: Pairs, n: nat): Entries
    requires n <= |pairs|
  {
    if n == 0 then [] else SuffixedPlan(name, pairs, n - 1) + [(Suffixed(name, pairs[n - 1].0), pairs[n - 1].1)]
  }

  /** The `i`-th suffixed assignment is the `i`-th pair under its suffixed name. */
  lemma {:induction false} SuffixedPlanAt(name: string, pairs: Pairs, n: nat)
    requires n <= |pairs|
    ensures |SuffixedPlan(name, pairs, n)| == n
    ensures forall i :: 0 <= i < n ==> SuffixedPlan(name, pairs, n)[i] == (Suffixed(name, pairs[i].0), pairs[i].1)
  {
    if n > 0 {
      var j := n - 1;
      SuffixedPlanAt(name, pairs, j);
      SuffixedPlanStep(name, pairs, j);
    }
  }

  lemma SuffixedPlanStep(name: string, pairs: Pairs, j: nat)
    requires j < |pairs| && |SuffixedPlan(name, pairs, j)| == j
    requires forall i :: 0 <= i < j ==> SuffixedPlan(name, pairs, j)[i] == (Suffixed(name, pairs[i].0), pairs[i].1)
    ensures |SuffixedPlan(name, pairs, j + 1)| == j + 1
    ensures forall i :: 0 <= i < j + 1 ==> SuffixedPlan(name, pairs, j + 1)[i] == (Suffixed(name, pairs[i].0), pairs[i].1)
  {
  }

  /** The assignments one collision group makes, in order. */
  function GroupPlan(name: string, pairs: Pairs): Entries {
    if |pairs| == 1 then [(name, pairs[0].1)]
    else
      var split := SplitString(pairs, |pairs|);
      if split.0.Some? then [(name, split.0.value.1)] + SuffixedPlan(name, split.1, |split.1|)
      else SuffixedPlan(name, pairs, |pairs|)
  }

  /** The assignments of the first `n` groups, group after group. */
  function Plan(g: Groups, n: nat): Entries
    requires n <= |g|
  {
    if n == 0 then [] else Plan(g, n - 1) + GroupPlan(g[n - 1].0, g[n - 1].1)
  }

  /** The assignments of the first `n` groups, named apart from `Plan` so that
      lemmas equating them do not unfold it. */
  function PlanUpTo(g: Groups, n: nat): Entries
    requires n <= |g|
  {
    Plan(g, n)
  }

  /** Every assignment `_resolve_key_collisions(data)` makes, in the order it makes them. */
  function AsWrittenPlan(items: Pairs): Entries {
    var s := SortBy(items, ItemKey);
    var g := GroupsOf(s, |s|);
    Plan(g, |g|)
  }

  /** The suffix loop as written, from the dict `m`. */
  function SuffixedStored(m: Entries, name: string, pairs: Pairs, n: nat): Entries
    requires DistinctKeys(m) && n <= |pairs|
  {
    AssignSuffixed(m, name, pairs, n, [], false)
  }

  /** The first `n` suffixed assignments, from the dict `m`. */
  function SuffixedPlanned(m: Entries, name: string, pairs: Pairs, n: nat): Entries
    requires DistinctKeys(m) && n <= |pairs|
  {
    AssignFrom(m, SuffixedPlan(name, pairs, n))
  }

  lemma SuffixedFold(m: Entries, name: string, pairs: Pairs, n: nat)
    requires DistinctKeys(m) && n <= |pairs|
    ensures SuffixedStored(m, name, pairs, n) == SuffixedPlanned(m, name, pairs, n)
  {
    var j := 0;
    while j < n
      invariant j <= n
      invariant SuffixedStored(m, name, pairs, j) == SuffixedPlanned(m, name, pairs, j)
    {
      j := j + 1;
      StoredStep(m, name, pairs, j);
      PlannedStep(m, name, pairs, j);
    }
  }

  lemma StoredStep(m: Entries, name: string, pairs: Pairs, n: nat)
    requires DistinctKeys(m) && 0 < n <= |pairs|
    ensures SuffixedStored(m, name, pairs, n)
         == Assign(SuffixedStored(m, name, pairs, n - 1), Suffixed(name, pairs[n - 1].0), pairs[n - 1].1)
  {
  }

  lemma PlannedStep(m: Entries, name: string, pairs: Pairs, n: nat)
    requires DistinctKeys(m) && 0 < n <= |pairs|
    ensures SuffixedPlanned(m, name, pairs, n)
         == Assign(SuffixedPlanned(m, name, pairs, n - 1), Suffixed(name, pairs[n - 1].0), pairs[n - 1].1)
  {
    var sp := SuffixedPlan(name, pairs, n);
    assert sp[..|sp| - 1] == SuffixedPlan(name, pairs, n - 1);
  }

  lemma GroupFold(m: Entries, name: string, pairs: Pairs)
    requires DistinctKeys(m)
    ensures ResolveGroup(m, name, pairs, [], false) == AssignFrom(m, GroupPlan(name, pairs))
  {
    if |pairs| == 1 {
      assert [(name, pairs[0].1)][..0] == [];
    } else {
      var split := SplitString(pairs, |pairs|);
      if split.0.Some? {
        var x := (name, split.0.value.1);
        var sp := SuffixedPlan(name, split.1, |split.1|);
        assert AssignFrom(m, [x]) == Assign(m, x.0, x.1) by {
          assert [x][..0] == [];
        }
        SuffixedFold(Assign(m, x.0, x.1), name, split.1, |split.1|);
        AssignFromAppend(m, [x], sp);
      } else {
        SuffixedFold(m, name, pairs, |pairs|);
      }
    }
  }

  /** The dict after the first `n` groups, as written. */
  function StoredUpTo(g: Groups, n: nat): Entries
    requires n <= |g|
  {
    ResolveGroups(g, n, [], false)
  }

  /** The dict after the assignments planned for the first `n` groups. */
  function PlannedUpTo(g: Groups, n: nat): Entries
    requires n <= |g|
  {
    AssignFrom([], Plan(g, n))
  }

  lemma {:induction false} PlanFold(g: Groups, n: nat)
    requires n <= |g|
    ensures StoredUpTo(g, n) == PlannedUpTo(g, n)
    decreases n
  {
    if n > 0 {
      var j := n - 1;
      PlanFold(g, j);
      PlanFoldStep(g, j);
    }
  }

  lemma PlanFoldStep(g: Groups, j: nat)
    requires j < |g| && StoredUpTo(g, j) == PlannedUpTo(g, j)
    ensures StoredUpTo(g, j + 1) == PlannedUpTo(g, j + 1)
  {
    GroupFold(PlannedUpTo(g, j), g[j].0, g[j].1);
    AssignFromAppend([], Plan(g, j), GroupPlan(g[j].0, g[j].1));
  }

  /** As written, `_resolve_key_collisions` is the assignments of its plan,
      made one after another from an empty dict. */
  lemma AsWrittenFold(items: Pairs)
    ensures ResolvedAsWritten(items) == AssignAll(AsWrittenPlan(items))
  {
    var s := SortBy(items, ItemKey);
    var g := GroupsOf(s, |s|);
    PlanFold(g, |g|);
    AssignFromEmpty(Plan(g, |g|));
  }

  // ---------------------------------------------------------------------
  // The names the plan uses
  // ---------------------------------------------------------------------

  /** What the separation loop returns, pair by pair. */
  lemma {:induction false} SplitParts(pairs: Pairs, n: nat)
    requires DistinctKeys(pairs) && n <= |pairs|
    ensures forall q :: q in SplitString(pairs, n).1 ==> q in pairs[..n]
    ensures forall p :: p in pairs[..n] ==> p in SplitString(pairs, n).1 || SplitString(pairs, n).0 == Some(p)
    ensures SplitString(pairs, n).0.Some? ==>
      && SplitString(pairs, n).0.value in pairs[..n]
      && SplitString(pairs, n).0.value.0.Str?
      && forall q :: q in SplitString(pairs, n).1 ==> q.0 != SplitString(pairs, n).0.value.0
  {
    if n > 0 {
      SplitParts(pairs, n - 1);
      var x := pairs[n - 1];
      assert pairs[..n] == pairs[..n - 1] + [x];
      forall q | q in pairs[..n - 1] ensures q.0 != x.0 {
        var t :| 0 <= t < n - 1 && pairs[..n - 1][t] == q;
        assert pairs[t] == q;
      }
    }
  }

  /** The `i`-th assignment of `plan` stores the value of `src[i]` under the
      name the rule gives its key. */
  ghost predicate Labelled(plan: Entries, src: Pairs, items: Pairs) {
    |plan| == |src| && forall i :: 0 <= i < |plan| ==> plan[i] == (IntendedName(items, src[i].0), src[i].1)
  }

  lemma LabelledMembers(plan: Entries, src: Pairs, items: Pairs)
    requires Labelled(plan, src, items)
    ensures forall e :: e in plan ==> exists p :: p in src && e == (IntendedName(items, p.0), p.1)
    ensures forall p :: p in src ==> (IntendedName(items, p.0), p.1) in plan
  {
    forall e | e in plan ensures exists p :: p in src && e == (IntendedName(items, p.0), p.1) {
      var i :| 0 <= i < |plan| && plan[i] == e;
      assert src[i] in src;
    }
    forall p | p in src ensures (IntendedName(items, p.0), p.1) in plan {
      var i :| 0 <= i < |src| && src[i] == p;
      assert plan[i] == (IntendedName(items, p.0), p.1);
    }
  }

  lemma LoneLabels(items: Pairs, name: string, pairs: Pairs)
    requires GroupOf(items, name, pairs) && |pairs| == 1
    ensures Labelled(GroupPlan(name, pairs), pairs, items)
  {
    LoneInGroup(items, name, pairs);
    assert pairs[0] in pairs;
  }

  /** The suffixed assignments of keys that share their `str()` and are not strings. */
  lemma SuffixedLabels(items: Pairs, name: string, rest: Pairs)
    requires forall q :: q in rest ==> PyStr(q.0) == name && SharesStr(items, q.0) && !q.0.Str?
    ensures Labelled(SuffixedPlan(name, rest, |rest|), rest, items)
  {
    SuffixedPlanAt(name, rest, |rest|);
    assert forall i :: 0 <= i < |rest| ==> rest[i] in rest;
  }

  lemma LabelledCons(sp: (Value, Value), plan: Entries, rest: Pairs, items: Pairs)
    requires Labelled(plan, rest, items)
    ensures Labelled([(IntendedName(items, sp.0), sp.1)] + plan, [sp] + rest, items)
  {
    var plan', src := [(IntendedName(items, sp.0), sp.1)] + plan, [sp] + rest;
    assert forall i :: 1 <= i < |plan'| ==> plan'[i] == plan[i - 1] && src[i] == rest[i - 1];
  }

  /** In a colliding group with a string key, the string key is the one
      `SplitString` singles out, and every other key is suffixed. */
  lemma OwnedRest(items: Pairs, name: string, pairs: Pairs)
    requires GroupOf(items, name, pairs) && |pairs| >= 2 && SplitString(pairs, |pairs|).0.Some?
    ensures var split := SplitString(pairs, |pairs|);
      && split.0.value in pairs && IntendedName(items, split.0.value.0) == name
      && (forall q :: q in split.1 ==> PyStr(q.0) == name && SharesStr(items, q.0) && !q.0.Str?)
      && (forall p :: p in [split.0.value] + split.1 <==> p in pairs)
  {
    var split := SplitString(pairs, |pairs|);
    var sp, rest := split.0.value, split.1;
    SplitParts(pairs, |pairs|);
    assert pairs[..|pairs|] == pairs;
    forall q | q in rest ensures PyStr(q.0) == name && SharesStr(items, q.0) && !q.0.Str? {
      SharedInGroup(items, name, pairs, q);
      if q.0.Str? {
        StringKeysEqual(q.0, sp.0);
      }
    }
  }

  lemma OwnedLabels(items: Pairs, name: string, pairs: Pairs) returns (src: Pairs)
    requires GroupOf(items, name, pairs) && |pairs| >= 2 && SplitString(pairs, |pairs|).0.Some?
    ensures Labelled(GroupPlan(name, pairs), src, items)
    ensures forall p :: p in src <==> p in pairs
  {
    var split := SplitString(pairs, |pairs|);
    var sp, rest := split.0.value, split.1;
    OwnedRest(items, name, pairs);
    SuffixedLabels(items, name, rest);
    LabelledCons(sp, SuffixedPlan(name, rest, |rest|), rest, items);
    src := [sp] + rest;
  }

  lemma UnownedLabels(items: Pairs, name: string, pairs: Pairs)
    requires GroupOf(items, name, pairs) && |pairs| >= 2 && SplitString(pairs, |pairs|).0.None?
    ensures Labelled(GroupPlan(name, pairs), pairs, items)
  {
    UnownedRest(items, name, pairs);
    UnownedPlan(name, pairs);
    SuffixedLabels(items, name, pairs);
  }

  lemma UnownedPlan(name: string, pairs: Pairs)
    requires |pairs| >= 2 && SplitString(pairs, |pairs|).0.None?
    ensures GroupPlan(name, pairs) == SuffixedPlan(name, pairs, |pairs|)
  {
  }

  /** In a colliding group without a string key, every key is suffixed. */
  lemma UnownedRest(items: Pairs, name: string, pairs: Pairs)
    requires GroupOf(items, name, pairs) && |pairs| >= 2 && SplitString(pairs, |pairs|).0.None?
    ensures forall q :: q in pairs ==> PyStr(q.0) == name && SharesStr(items, q.0) && !q.0.Str?
  {
    SplitShape(pairs, |pairs|);
    forall q | q in pairs ensures PyStr(q.0) == name && SharesStr(items, q.0) && !q.0.Str? {
      SharedInGroup(items, name, pairs, q);
    }
  }

  /** Each assignment of a collision group stores a pair's value under the
      name the rule gives its key, and every pair of the group is assigned so. */
  lemma GroupPlanNames(items: Pairs, name: string, pairs: Pairs)
    requires GroupOf(items, name, pairs)
    ensures forall e :: e in GroupPlan(name, pairs) ==> exists p :: p in pairs && e == (IntendedName(items, p.0), p.1)
    ensures forall p :: p in pairs ==> (IntendedName(items, p.0), p.1) in GroupPlan(name, pairs)
  {
    var src := pairs;
    if |pairs| == 1 {
      LoneLabels(items, name, pairs);
    } else if |pairs| >= 2 && SplitString(pairs, |pairs|).0.Some? {
      src := OwnedLabels(items, name, pairs);
    } else if |pairs| >= 2 {
      UnownedLabels(items, name, pairs);
    }
    LabelledMembers(GroupPlan(name, pairs), src, items);
  }

  // ---------------------------------------------------------------------
  // Properties of `_resolve_key_collisions` as written
  // ---------------------------------------------------------------------

  /** An assignment of the plan comes from one of its groups. */
  lemma PlanFrom(g: Groups, n: nat, e: (string, Value)) returns (i: nat)
    requires n <= |g| && e in Plan(g, n)
    ensures i < n && e in GroupPlan(g[i].0, g[i].1)
  {
    i := n - 1;
    while e in Plan(g, i)
      invariant i < n && e in Plan(g, i + 1)
      decreases i
    {
      i := i - 1;
    }
  }


  /** Every assignment of a group is in the plan. */
  lemma {:induction false} PlanHas(g: Groups, n: nat, i: nat, e: (string, Value))
    requires i < n <= |g| && e in GroupPlan(g[i].0, g[i].1)
    ensures e in Plan(g, n)
  {
    if i < n - 1 {
      PlanHas(g, n - 1, i, e);
    }
  }

  /** Every assignment of the plan of a run of collision groups stores a
      pair's value under the name the rule gives its key. */
  lemma PlanSource(items: Pairs, g: Groups, e: (string, Value))
    requires GroupsOfAll(items, g)
    requires e in Plan(g, |g|)
    ensures exists p :: p in items && e == (IntendedName(items, p.0), p.1)
  {
    var i := PlanFrom(g, |g|, e);
    GroupPlanNames(items, g[i].0, g[i].1);
  }

  /** Every assignment made as written stores a pair's value under the name
      the rule gives its key. */
  lemma AsWrittenPlanSources(items: Pairs)
    requires DistinctKeys(items)
    ensures forall e :: e in AsWrittenPlan(items) ==> exists p :: p in items && e == (IntendedName(items, p.0), p.1)
  {
    var s := SortBy(items, ItemKey);
    var g := GroupsOf(s, |s|);
    GroupsOfItems(items);
    assert AsWrittenPlan(items) == Plan(g, |g|);
    forall e | e in AsWrittenPlan(items) ensures exists p :: p in items && e == (IntendedName(items, p.0), p.1) {
      PlanSource(items, g, e);
    }
  }

  /** Every pair is assigned, as written, under the name the rule gives its key. */
  lemma AsWrittenPlanCovers(items: Pairs)
    requires DistinctKeys(items)
    ensures forall p :: p in items ==> (IntendedName(items, p.0), p.1) in AsWrittenPlan(items)
  {
    var s := SortBy(items, ItemKey);
    var g := GroupsOf(s, |s|);
    GroupsOfItems(items);
    forall p | p in items ensures (IntendedName(items, p.0), p.1) in AsWrittenPlan(items) {
      SortByMembers(items, ItemKey, p);
      var k :| 0 <= k < |s| && s[k] == p;
      var i := GroupOfPair(s, |s|, k);
      GroupPlanNames(items, g[i].0, g[i].1);
      PlanHas(g, |g|, i, (IntendedName(items, p.0), p.1));
    }
  }

  /** As written, every key's intended name is stored, and every stored entry
      is some pair's value under the name the rule gives that pair's key. */
  lemma AsWrittenNames(items: Pairs)
    requires DistinctKeys(items)
    ensures forall p :: p in items ==> HasKey(ResolvedAsWritten(items), IntendedName(items, p.0))
    ensures forall e :: e in ResolvedAsWritten(items) ==> exists p :: p in items && e == (IntendedName(items, p.0), p.1)
  {
    var plan := AsWrittenPlan(items);
    var r := ResolvedAsWritten(items);
    AsWrittenFold(items);
    AsWrittenPlanSources(items);
    AsWrittenPlanCovers(items);
    forall p | p in items ensures HasKey(r, IntendedName(items, p.0)) {
      var j :| 0 <= j < |plan| && plan[j] == (IntendedName(items, p.0), p.1);
      AssignAllPresent(plan, j);
    }
    forall e | e in r ensures exists p :: p in items && e == (IntendedName(items, p.0), p.1) {
      var i :| 0 <= i < |r| && r[i] == e;
      var j := AssignAllOrigin(plan, i);
      assert plan[j] in plan;
    }
  }

  /** As written, each stored entry is the last assignment to its name. */
  lemma AsWrittenLastAssigned(items: Pairs, i: nat)
    requires i < |ResolvedAsWritten(items)|
    ensures exists t :: 0 <= t < |AsWrittenPlan(items)| && ResolvedAsWritten(items)[i] == AsWrittenPlan(items)[t] &&
                        (forall t' :: t < t' < |AsWrittenPlan(items)| ==> AsWrittenPlan(items)[t'].0 != AsWrittenPlan(items)[t].0)
  {
    AsWrittenFold(items);
    var t := AssignAllOrigin(AsWrittenPlan(items), i);
  }

  /** Every name a group assigns extends the group's name. */
  lemma GroupPlanPrefix(name: string, pairs: Pairs)
    ensures forall e :: e in GroupPlan(name, pairs) ==> name <= e.0
  {
    if |pairs| != 1 {
      var split := SplitString(pairs, |pairs|);
      var rest := if split.0.Some? then split.1 else pairs;
      SuffixedPlanAt(name, rest, |rest|);
      forall i | 0 <= i < |rest| ensures name <= Suffixed(name, rest[i].0) {
        SuffixedExtends(name, rest[i].0);
      }
    }
  }

  /** A bare key's group first assigns its value under the group's name and
      then only longer names. */
  lemma GroupPlanBare(items: Pairs, name: string, pairs: Pairs, p: (Value, Value)) returns (rest: Entries)
    requires GroupOf(items, name, pairs) && p in pairs && Bare(items, p.0)
    ensures GroupPlan(name, pairs) == [(name, p.1)] + rest
    ensures forall i :: 0 <= i < |rest| ==> rest[i].0 != name
  {
    if |pairs| == 1 {
      rest := [];
    } else {
      SharedInGroup(items, name, pairs, p);
      var split := SplitString(pairs, |pairs|);
      SplitShape(pairs, |pairs|);
      assert pairs[|pairs| - 1] in pairs;
      var sp := split.0.value;
      StringKeysEqual(sp.0, p.0);
      SameKeySamePair(pairs, sp, p);
      rest := SuffixedPlan(name, split.1, |split.1|);
      SuffixedPlanAt(name, split.1, |split.1|);
      forall i | 0 <= i < |rest| ensures rest[i].0 != name {
        SuffixedExtends(name, split.1[i].0);
      }
    }
  }

  /** The dict after the assignments of the first `n` groups, as written. */
  function AssignedUpTo(g: Groups, n: nat): Entries
    requires n <= |g|
  {
    AssignAll(Plan(g, n))
  }

  /** When group `i` first assigns `x` and then only other names, `x` is
      stored once that group is done. */
  lemma GroupStores(g: Groups, i: nat, x: (string, Value), rest: Entries)
    requires i < |g| && GroupPlan(g[i].0, g[i].1) == [x] + rest
    requires forall t :: 0 <= t < |rest| ==> rest[t].0 != x.0
    ensures x in AssignedUpTo(g, i + 1)
  {
    var before := Plan(g, i);
    assert Plan(g, i + 1) == (before + [x]) + rest;
    AssignAllSnoc(before, x);
    AssignAllKeeps(before + [x], rest, x);
  }

  /** A later group never assigns the name of an earlier one: the names differ,
      and no later name is a proper prefix of an earlier one. */
  lemma LaterGroupOtherNames(g: Groups, i: nat, j: nat)
    requires DistinctKeys(g) && InNameOrder(g) && i < j < |g|
    ensures forall e :: e in GroupPlan(g[j].0, g[j].1) ==> e.0 != g[i].0
  {
    GroupPlanPrefix(g[j].0, g[j].1);
    forall e | e in GroupPlan(g[j].0, g[j].1) ensures e.0 != g[i].0 {
      if e.0 == g[i].0 {
        assert g[j].0 != g[i].0;
        assert g[j].0 < g[i].0;
        StrLeProperPrefix(g[i].0, g[j].0);
      }
    }
  }

  /** No entry of `es` is under `name`. */
  ghost predicate NamesAvoid(es: Entries, name: string) {
    forall t :: 0 <= t < |es| ==> es[t].0 != name
  }

  lemma NamesAvoidAppend(a: Entries, b: Entries, name: string)
    requires NamesAvoid(a, name) && NamesAvoid(b, name)
    ensures NamesAvoid(a + b, name)
  {
  }

  /** The plan of the groups after `i`, up to `n`, when they all avoid `name`. */
  lemma {:induction false} LaterGroupsAvoid(g: Groups, i: nat, n: nat, name: string) returns (tail: Entries)
    requires i < n <= |g|
    requires forall j :: i < j < n ==> NamesAvoid(GroupPlan(g[j].0, g[j].1), name)
    ensures PlanUpTo(g, n) == PlanUpTo(g, i + 1) + tail && NamesAvoid(tail, name)
  {
    if n == i + 1 {
      tail := [];
    } else {
      var prior := LaterGroupsAvoid(g, i, n - 1, name);
      var qs := GroupPlan(g[n - 1].0, g[n - 1].1);
      NamesAvoidAppend(prior, qs, name);
      tail := prior + qs;
      assert PlanUpTo(g, n) == PlanUpTo(g, n - 1) + qs;
      ConcatAssoc(PlanUpTo(g, i + 1), prior, qs);
    }
  }

  /** Over collision groups in name order, a bare key's value survives every
      later assignment. */
  lemma BareKeptInPlan(items: Pairs, g: Groups, i: nat, p: (Value, Value))
    requires GroupsOfAll(items, g) && DistinctKeys(g) && InNameOrder(g)
    requires i < |g| && p in g[i].1 && Bare(items, p.0)
    ensures (g[i].0, p.1) in AssignAll(Plan(g, |g|))
  {
    var rest := GroupPlanBare(items, g[i].0, g[i].1, p);
    GroupStores(g, i, (g[i].0, p.1), rest);
    forall j | i < j < |g| ensures NamesAvoid(GroupPlan(g[j].0, g[j].1), g[i].0) {
      var qs := GroupPlan(g[j].0, g[j].1);
      LaterGroupOtherNames(g, i, j);
      assert forall t :: 0 <= t < |qs| ==> qs[t] in qs;
    }
    var tail := LaterGroupsAvoid(g, i, |g|, g[i].0);
    AssignAllKeeps(Plan(g, i + 1), tail, (g[i].0, p.1));
  }

  /** As written, a key that keeps its bare `str()` keeps its value under it:
      no later assignment overwrites it. */
  lemma AsWrittenBareKept(items: Pairs, p: (Value, Value))
    requires DistinctKeys(items) && p in items && Bare(items, p.0)
    ensures (PyStr(p.0), p.1) in ResolvedAsWritten(items)
  {
    var s := SortBy(items, ItemKey);
    var g := GroupsOf(s, |s|);
    SortDistinct(items, ItemKey);
    SortBySorted(items, ItemKey);
    GroupsOfItems(items);
    GroupsOfOrdered(s, |s|);
    GroupsOfDistinct(s, |s|);
    SortByMembers(items, ItemKey, p);
    var k :| 0 <= k < |s| && s[k] == p;
    var i := GroupOfPair(s, |s|, k);
    BareKeptInPlan(items, g, i, p);
    AsWrittenFold(items);
  }

  /** As written, a string key's value is stored under the key itself: the
      string-key half of the naming rule holds without the correction too. */
  lemma AsWrittenStringKeys(items: Pairs, k: nat)
    requires DistinctKeys(items) && k < |items| && items[k].0.Str?
    ensures (items[k].0.s, items[k].1) in ResolvedAsWritten(items)
  {
    StrOfString(items[k].0);
    AsWrittenBareKept(items, items[k]);
  }

}
