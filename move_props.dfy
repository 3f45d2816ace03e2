/** Properties of `move_unknown_keys_to_extra` as a whole: which resolved keys
    stay at the top level and which move, when the extra key appears, and the
    order of the output. */
module MoveProperties {
  import opened Outcomes
  import opened Values
  import opened Ordering
  import opened Dicts
  import opened Extra

  /** Whether a resolved key stays at the top level: it is whitelisted, or it
      was renamed because it clashed with the extra key. */
  predicate Stays(key: string, allowed: seq<string>, renamed: seq<string>) {
    key in allowed || key in renamed
  }

  /** The entries of `m` that stay (`stay`) or move (`!stay`), in order. */
  function Part(m: Entries, allowed: seq<string>, renamed: seq<string>, stay: bool): (r: Entries)
    ensures forall i :: 0 <= i < |r| ==> r[i] in m && Stays(r[i].0, allowed, renamed) == stay
    ensures forall i :: 0 <= i < |m| && Stays(m[i].0, allowed, renamed) == stay ==> m[i] in r
  {
    if m == [] then []
    else
      var init := m[..|m| - 1];
      var rest := Part(init, allowed, renamed, stay);
      assert forall i :: 0 <= i < |m| - 1 ==> m[i] == init[i];
      if Stays(m[|m| - 1].0, allowed, renamed) == stay then rest + [m[|m| - 1]] else rest
  }

  /** The key of an entry of a prefix of a dict with distinct keys differs from
      the key of the entry that follows the prefix. */
  lemma PrefixMisses(m: Entries, n: nat, part: Entries)
    requires DistinctKeys(m) && 0 < n <= |m|
    requires forall i :: 0 <= i < |part| ==> part[i] in m[..n - 1]
    ensures !HasKey(part, m[n - 1].0)
  {
    forall i | 0 <= i < |part| ensures part[i].0 != m[n - 1].0 {
      var pre := m[..n - 1];
      assert part[i] in pre;
      var j :| 0 <= j < |pre| && pre[j] == part[i];
      assert m[j] == part[i];
    }
  }

  /** The classification loop splits the resolved dict into the entries that
      stay and those that move, each in order, and lists exactly the moved keys. */
  lemma {:induction false} ClassifyFilters(resolved: Entries, allowed: seq<string>, renamed: seq<string>, n: nat)
    requires DistinctKeys(resolved) && n <= |resolved|
    ensures Classify(resolved, allowed, renamed, n).0 == Part(resolved[..n], allowed, renamed, true)
    ensures Classify(resolved, allowed, renamed, n).1 == Part(resolved[..n], allowed, renamed, false)
    ensures Classify(resolved, allowed, renamed, n).2 == Keys(Classify(resolved, allowed, renamed, n).1)
  {
    if n > 0 {
      ClassifyFilters(resolved, allowed, renamed, n - 1);
      var prev := Classify(resolved, allowed, renamed, n - 1);
      var (key, value) := resolved[n - 1];
      assert resolved[..n][..n - 1] == resolved[..n - 1];
      assert resolved[..n][n - 1] == resolved[n - 1];
      if Stays(key, allowed, renamed) {
        PrefixMisses(resolved, n, prev.0);
        assert Assign(prev.0, key, value) == prev.0 + [(key, value)];
      } else {
        PrefixMisses(resolved, n, prev.1);
        var extra := Assign(prev.1, key, value);
        assert extra == prev.1 + [(key, value)];
        assert Keys(extra) == Keys(prev.1) + [key];
      }
    }
  }

  /** A name that has `prefix` at its head is not a shorter name `x`. */
  lemma LongerDiffers(prefix: string, name: string, x: string)
    requires prefix <= name && |x| < |prefix|
    ensures name != x
  {
  }

  /** Assigning under another key does not add `x`. */
  lemma AssignAvoids(m: Entries, k: string, v: Value, x: string)
    requires DistinctKeys(m) && !HasKey(m, x) && k != x
    ensures !HasKey(Assign(m, k, v), x)
  {
    var r := Assign(m, k, v);
    forall i | 0 <= i < |r| ensures r[i].0 != x {
      if r[i] != (k, v) {
        var j :| 0 <= j < |m| && m[j] == r[i];
      }
    }
  }

  /** Storing the popped `extra_key` under a free `_original` name removes
      `extra_key` from the dict. */
  lemma RenameExtraKeyFrees(resolved: Entries, extraKey: Option<string>)
    requires DistinctKeys(resolved) && extraKey.Some?
    ensures !HasKey(RenameExtraKey(resolved, extraKey).0, extraKey.value)
  {
    var x := extraKey.value;
    if HasKey(resolved, x) {
      var value := Get(resolved, x).value;
      var rest := Remove(resolved, x);
      var newKey := FreeName(Keys(rest), OriginalPrefix(extraKey));
      LongerDiffers(OriginalPrefix(extraKey), newKey, x);
      AssignAvoids(rest, newKey, value, x);
    }
  }

  /** After both renaming steps no key equals `extra_key`. */
  lemma RenamedFreesExtra(resolved: Entries, extraKey: Option<string>)
    requires DistinctKeys(resolved) && extraKey.Some?
    ensures !HasKey(Renamed(resolved, extraKey).0, extraKey.value)
  {
    var step := RenameExtraKey(resolved, extraKey);
    RenameExtraKeyFrees(resolved, extraKey);
    var toRename := KeysWithPrefix(Keys(step.0), OriginalPrefix(extraKey));
    var p := RenameCascade(step.0, toRename, |toRename|, step.1);
    assert Get(p.0, extraKey.value) == Get(step.0, extraKey.value);
  }

  /** When the cascade comes to its `n`-th key, that key is still in the
      dict, so the branch for a key no longer there is never taken. */
  lemma RenameCascadeFinds(resolved: Entries, keys: seq<string>, n: nat, renamed: seq<string>)
    requires DistinctKeys(resolved) && n < |keys|
    requires forall i :: 0 <= i < |keys| ==> HasKey(resolved, keys[i])
    ensures Get(RenameCascade(resolved, keys, n, renamed).0, keys[n]).Some?
  {
  }

  /** Keys all held by the dict are all kept by `PresentKeys`. */
  lemma {:induction false} PresentKeysAll(m: Entries, keys: seq<string>)
    requires forall i :: 0 <= i < |keys| ==> HasKey(m, keys[i])
    ensures PresentKeys(m, keys) == keys
  {
    if keys != [] {
      PresentKeysAll(m, keys[..|keys| - 1]);
    }
  }

  /** Step 2 takes the entry under `extra_key` out and stores its value under
      the first free `_original` name; every other entry is kept. */
  lemma RenameExtraKeyMoves(resolved: Entries, extraKey: Option<string>)
    requires DistinctKeys(resolved)
    ensures var step := RenameExtraKey(resolved, extraKey);
      if extraKey.Some? && HasKey(resolved, extraKey.value) then
        var value := Get(resolved, extraKey.value).value;
        var name := FreeName(Keys(Remove(resolved, extraKey.value)), OriginalPrefix(extraKey));
        && step.1 == [name]
        && multiset(step.0) + multiset{(extraKey.value, value)} == multiset(resolved) + multiset{(name, value)}
      else step == (resolved, [])
  {
    if extraKey.Some? && HasKey(resolved, extraKey.value) {
      var rest := Remove(resolved, extraKey.value);
      var name := FreeName(Keys(rest), OriginalPrefix(extraKey));
      KeysHasKey(rest, name);
      RemoveMultiset(resolved, extraKey.value);
    }
  }

  /** Step 2 key by key: the first free `_original` name was not a key
      before and now holds the value popped from `extra_key`; `extra_key` is
      gone; every other key keeps its value. */
  lemma RenameExtraKeyGet(resolved: Entries, extraKey: Option<string>, x: string)
    requires DistinctKeys(resolved) && extraKey.Some? && HasKey(resolved, extraKey.value)
    ensures var name := FreeName(Keys(Remove(resolved, extraKey.value)), OriginalPrefix(extraKey));
      && Get(resolved, name).None?
      && Get(RenameExtraKey(resolved, extraKey).0, x)
           == if x == name then Get(resolved, extraKey.value)
              else if x == extraKey.value then None
              else Get(resolved, x)
  {
    var k := extraKey.value;
    var rest := Remove(resolved, k);
    var name := FreeName(Keys(rest), OriginalPrefix(extraKey));
    KeysHasKey(rest, name);
    LongerDiffers(OriginalPrefix(extraKey), name, k);
    GetRemove(resolved, k, name);
    GetSnoc(rest, name, Get(resolved, k).value, x);
    if x != name && x != k {
      GetRemove(resolved, k, x);
    }
  }

  /** The names both renaming steps record: the `_original` name when
      `extra_key` was a key, then the keys starting with the `_original`
      prefix themselves, each stored back under its own name and found still
      in the dict when its turn comes. */
  lemma RenamedNames(resolved: Entries, extraKey: Option<string>)
    requires DistinctKeys(resolved)
    ensures var step := RenameExtraKey(resolved, extraKey);
      && Renamed(resolved, extraKey).1 == step.1 + KeysWithPrefix(Keys(step.0), OriginalPrefix(extraKey))
      && step.1 == if extraKey.Some? && HasKey(resolved, extraKey.value)
                   then [FreeName(Keys(Remove(resolved, extraKey.value)), OriginalPrefix(extraKey))]
                   else []
  {
    var step := RenameExtraKey(resolved, extraKey);
    var toRename := KeysWithPrefix(Keys(step.0), OriginalPrefix(extraKey));
    PrefixKeysPresent(step.0, OriginalPrefix(extraKey));
    var p := RenameCascade(step.0, toRename, |toRename|, step.1);
    assert p.1 == step.1 + PresentKeys(step.0, toRename[..|toRename|]);
  }

  /** The keys with a given prefix are all keys of the dict. */
  lemma PrefixKeysPresent(m: Entries, prefix: string)
    ensures var keys := KeysWithPrefix(Keys(m), prefix);
      PresentKeys(m, keys[..|keys|]) == keys
  {
    var keys := KeysWithPrefix(Keys(m), prefix);
    forall i | 0 <= i < |keys| ensures HasKey(m, keys[i]) {
      KeysHasKey(m, keys[i]);
    }
    PresentKeysAll(m, keys);
    assert keys[..|keys|] == keys;
  }

  /** Both renaming steps, when `extra_key` was a key: its value moves to the
      first free `_original` name, which was not a key before; `extra_key` is
      gone; every other key keeps its value. */
  lemma RenamedMovesExtra(resolved: Entries, extraKey: Option<string>)
    requires DistinctKeys(resolved) && extraKey.Some? && HasKey(resolved, extraKey.value)
    ensures var p := Renamed(resolved, extraKey);
      var name := FreeName(Keys(Remove(resolved, extraKey.value)), OriginalPrefix(extraKey));
      && Get(resolved, name).None?
      && Get(p.0, name) == Get(resolved, extraKey.value)
      && Get(p.0, extraKey.value).None?
      && (forall x :: x != name && x != extraKey.value ==> Get(p.0, x) == Get(resolved, x))
  {
    var step := RenameExtraKey(resolved, extraKey);
    var toRename := KeysWithPrefix(Keys(step.0), OriginalPrefix(extraKey));
    var p := RenameCascade(step.0, toRename, |toRename|, step.1);
    var k := extraKey.value;
    var name := FreeName(Keys(Remove(resolved, k)), OriginalPrefix(extraKey));
    forall x | x != name && x != k ensures Get(p.0, x) == Get(resolved, x) {
      assert Get(p.0, x) == Get(step.0, x);
      RenameExtraKeyGet(resolved, extraKey, x);
    }
    assert Get(p.0, name) == Get(step.0, name);
    RenameExtraKeyGet(resolved, extraKey, name);
    assert Get(p.0, k) == Get(step.0, k);
    RenameExtraKeyGet(resolved, extraKey, k);
  }

  /** Both renaming steps as a change of entries: with `extra_key` a key, its
      entry gives way to one under the `_original` name with the same value;
      otherwise the dict holds the same entries as before. */
  lemma RenamedEntries(resolved: Entries, extraKey: Option<string>)
    requires DistinctKeys(resolved)
    ensures var p := Renamed(resolved, extraKey);
      if extraKey.Some? && HasKey(resolved, extraKey.value) then
        var value := Get(resolved, extraKey.value).value;
        var name := FreeName(Keys(Remove(resolved, extraKey.value)), OriginalPrefix(extraKey));
        multiset(p.0) + multiset{(extraKey.value, value)} == multiset(resolved) + multiset{(name, value)}
      else multiset(p.0) == multiset(resolved)
  {
    var step := RenameExtraKey(resolved, extraKey);
    var toRename := KeysWithPrefix(Keys(step.0), OriginalPrefix(extraKey));
    var p := RenameCascade(step.0, toRename, |toRename|, step.1);
    SameGetMultiset(p.0, step.0);
    RenameExtraKeyMoves(resolved, extraKey);
  }

  /** Both renaming steps, when `extra_key` was not a key: every key keeps
      its value. */
  lemma RenamedKeepsAll(resolved: Entries, extraKey: Option<string>)
    requires DistinctKeys(resolved) && (extraKey.None? || !HasKey(resolved, extraKey.value))
    ensures forall x :: Get(Renamed(resolved, extraKey).0, x) == Get(resolved, x)
  {
    var step := RenameExtraKey(resolved, extraKey);
    assert step.0 == resolved;
    var toRename := KeysWithPrefix(Keys(step.0), OriginalPrefix(extraKey));
    var p := RenameCascade(step.0, toRename, |toRename|, step.1);
    forall x ensures Get(p.0, x) == Get(resolved, x) {
      assert Get(p.0, x) == Get(step.0, x);
    }
  }

  /** In a dict with distinct keys, the value stored with a key is the one `Get` finds. */
  lemma GetStored(m: Entries, k: string, v: Value)
    requires DistinctKeys(m) && (k, v) in m
    ensures Get(m, k) == Some(v)
  {
    var i :| 0 <= i < |m| && m[i] == (k, v);
    assert HasKey(m, k);
    var j :| 0 <= j < |m| && m[j] == (k, Get(m, k).value);
  }

  /** Sorting the kept dict by key keeps its entries and their distinct keys. */
  lemma SortedEntries(kept: Entries)
    requires DistinctKeys(kept)
    ensures DistinctKeys(SortBy(kept, EntryKey)) && SortedBy(SortBy(kept, EntryKey), EntryKey)
    ensures forall i :: 0 <= i < |kept| ==> kept[i] in SortBy(kept, EntryKey)
    ensures forall i :: 0 <= i < |SortBy(kept, EntryKey)| ==> SortBy(kept, EntryKey)[i] in kept
  {
    var top := SortBy(kept, EntryKey);
    SortDistinct(kept, EntryKey);
    SortBySorted(kept, EntryKey);
    forall i | 0 <= i < |kept| ensures kept[i] in top {
      SortByMembers(kept, EntryKey, kept[i]);
    }
    forall i | 0 <= i < |top| ensures top[i] in kept {
      SortByMembers(kept, EntryKey, top[i]);
    }
  }

  /** Replacing the value under a present key keeps the key order and every
      other entry. */
  lemma ReplaceKeepsOrder(top: Entries, x: string, d: Value)
    requires DistinctKeys(top) && HasKey(top, x) && SortedBy(top, EntryKey)
    ensures SortedBy(Assign(top, x, d), EntryKey)
    ensures forall i :: 0 <= i < |top| && top[i].0 != x ==> top[i] in Assign(top, x, d)
    ensures forall i :: 0 <= i < |Assign(top, x, d)| ==> Assign(top, x, d)[i] in top || Assign(top, x, d)[i].0 == x
    ensures HasKey(Assign(top, x, d), x)
  {
    var out := Assign(top, x, d);
    AssignInPlace(top, x, d);
    assert forall i :: 0 <= i < |top| ==> EntryKey(out[i]) == EntryKey(top[i]);
    forall i | 0 <= i < |top| && top[i].0 != x ensures top[i] in out {
      assert out[i] == top[i];
    }
    assert (x, d) in out;
  }

  /** The output dict: keys sorted, every kept entry except the extra key's
      unchanged, and nothing added. */
  lemma SortedOutputShape(kept: Entries, extraKey: Option<string>)
    requires DistinctKeys(kept)
    ensures SortedBy(SortedOutput(kept, extraKey), EntryKey)
    ensures forall i :: 0 <= i < |kept| && (extraKey.None? || kept[i].0 != extraKey.value) ==>
      kept[i] in SortedOutput(kept, extraKey)
    ensures forall i :: 0 <= i < |SortedOutput(kept, extraKey)| ==>
      SortedOutput(kept, extraKey)[i] in kept
      || (extraKey.Some? && SortedOutput(kept, extraKey)[i].0 == extraKey.value)
    ensures extraKey.Some? ==> (HasKey(SortedOutput(kept, extraKey), extraKey.value) <==> HasKey(kept, extraKey.value))
  {
    SortedEntries(kept);
    var top := SortBy(kept, EntryKey);
    if extraKey.Some? {
      SameKeys(top, kept, extraKey.value);
    }
    if extraKey.Some? && HasKey(top, extraKey.value) && IsDict(Get(top, extraKey.value).value) {
      var x := extraKey.value;
      var out := Assign(top, x, SortedDict(Get(top, x).value));
      ReplaceKeepsOrder(top, x, SortedDict(Get(top, x).value));
      KeptThrough(kept, top, out, x);
    }
  }

  /** Two lists of entries holding each other's entries have the same keys. */
  lemma SameKeys<V>(a: seq<(string, V)>, b: seq<(string, V)>, k: string)
    requires forall i :: 0 <= i < |a| ==> a[i] in b
    requires forall i :: 0 <= i < |b| ==> b[i] in a
    ensures HasKey(a, k) <==> HasKey(b, k)
  {
    if HasKey(a, k) {
      var i :| 0 <= i < |a| && a[i].0 == k;
      var j :| 0 <= j < |b| && b[j] == a[i];
    }
    if HasKey(b, k) {
      var i :| 0 <= i < |b| && b[i].0 == k;
      var j :| 0 <= j < |a| && a[j] == b[i];
    }
  }

  /** Membership carried from `a` through its permutation `b` to `c`, which
      differs from `b` only at key `x`. */
  lemma KeptThrough<V>(a: seq<(string, V)>, b: seq<(string, V)>, c: seq<(string, V)>, x: string)
    requires forall i :: 0 <= i < |a| ==> a[i] in b
    requires forall i :: 0 <= i < |b| ==> b[i] in a
    requires forall i :: 0 <= i < |b| && b[i].0 != x ==> b[i] in c
    requires forall i :: 0 <= i < |c| ==> c[i] in b || c[i].0 == x
    ensures forall i :: 0 <= i < |a| && a[i].0 != x ==> a[i] in c
    ensures forall i :: 0 <= i < |c| ==> c[i] in a || c[i].0 == x
  {
    forall i | 0 <= i < |a| && a[i].0 != x ensures a[i] in c {
      var j :| 0 <= j < |b| && b[j] == a[i];
    }
    forall i | 0 <= i < |c| ensures c[i] in a || c[i].0 == x {
      if c[i] in b {
        var j :| 0 <= j < |b| && b[j] == c[i];
      }
    }
  }

  /** The extra dict in the output has its own keys sorted. */
  lemma SortedOutputExtra(kept: Entries, extraKey: Option<string>, d: Value)
    requires DistinctKeys(kept) && extraKey.Some? && (extraKey.value, d) in kept && IsDict(d)
    ensures Get(SortedOutput(kept, extraKey), extraKey.value) == Some(SortedDict(d))
  {
    var x := extraKey.value;
    SortDistinct(kept, EntryKey);
    var top := SortBy(kept, EntryKey);
    SortByMembers(kept, EntryKey, (x, d));
    GetStored(top, x, d);
    GetStored(SortedOutput(kept, extraKey), x, SortedDict(d));
  }

  /** Steps 4 and 5 on the entries that stay and those that move, when no
      entry that stays is under the extra key. */
  lemma OutputShape(stays: Entries, moves: Entries, extraKey: Option<string>, always: bool)
    requires DistinctKeys(stays) && (extraKey.Some? ==> !HasKey(stays, extraKey.value))
    ensures var out := SortedOutput(WithExtra(stays, moves, extraKey, always), extraKey);
      && SortedBy(out, EntryKey)
      && (forall i :: 0 <= i < |stays| ==> stays[i] in out)
      && (forall i :: 0 <= i < |out| ==> out[i] in stays || (extraKey.Some? && out[i].0 == extraKey.value))
      && (extraKey.Some? ==> (HasKey(out, extraKey.value) <==> moves != [] || always))
      && (extraKey.Some? && (moves != [] || always) ==>
            Get(out, extraKey.value) == Some(SortedDict(DictOf(moves))))
  {
    var kept := WithExtra(stays, moves, extraKey, always);
    SortedOutputShape(kept, extraKey);
    if extraKey.Some? {
      var x := extraKey.value;
      if moves != [] || always {
        assert kept == stays + [(x, DictOf(moves))];
        assert forall i :: 0 <= i < |stays| ==> kept[i] == stays[i] && stays[i].0 != x;
        assert kept[|stays|] == (x, DictOf(moves));
        SortedOutputExtra(kept, extraKey, DictOf(moves));
      } else {
        assert kept == stays;
      }
    } else {
      assert kept == stays;
    }
  }

  /** `move_unknown_keys_to_extra`: a non-dict raises TypeError; otherwise the
      resolved entries that stay are exactly the top-level entries besides the
      extra key, the moved names are the sorted keys of the entries that move,
      the extra key is present iff something moved or `always_add_extra` is
      set, it then holds the moved entries with sorted keys, and the top-level
      keys are sorted. This holds as written and corrected alike. */
  lemma MoveUnknownSplits(data: Value, allowed: Option<seq<Value>>, extraKey: Option<string>, always: bool, avoid: bool)
    ensures MoveUnknown(data, allowed, extraKey, always, avoid).Failure? <==> !IsDict(data)
    ensures !IsDict(data) ==> MoveUnknown(data, allowed, extraKey, always, avoid).error == TypeError("data must be a dict")
    ensures IsDict(data) ==>
      var p := Renamed(ResolveKeys(data.items, avoid), extraKey);
      var stays := Part(p.0, AllowedNames(allowed), p.1, true);
      var moves := Part(p.0, AllowedNames(allowed), p.1, false);
      var out := MoveUnknown(data, allowed, extraKey, always, avoid).value;
      && SortedBy(out.result, EntryKey)
      && SortedBy(out.moved, NameKey)
      && multiset(out.moved) == multiset(Keys(moves))
      && (forall i :: 0 <= i < |stays| ==> stays[i] in out.result)
      && (forall i :: 0 <= i < |out.result| ==>
            out.result[i] in stays || (extraKey.Some? && out.result[i].0 == extraKey.value))
      && (extraKey.Some? ==> (HasKey(out.result, extraKey.value) <==> out.moved != [] || always))
      && (extraKey.Some? && (out.moved != [] || always) ==>
            Get(out.result, extraKey.value) == Some(SortedDict(DictOf(moves))))
      && (extraKey.Some? && HasKey(ResolveKeys(data.items, avoid), extraKey.value) ==>
            var resolved := ResolveKeys(data.items, avoid);
            (FreeName(Keys(Remove(resolved, extraKey.value)), OriginalPrefix(extraKey)),
             Get(resolved, extraKey.value).value) in out.result)
  {
    if IsDict(data) {
      var p := Renamed(ResolveKeys(data.items, avoid), extraKey);
      if extraKey.Some? {
        RenamedFreesExtra(ResolveKeys(data.items, avoid), extraKey);
      }
      ArrangedShape(p.0, AllowedNames(allowed), p.1, extraKey, always);
      if extraKey.Some? && HasKey(ResolveKeys(data.items, avoid), extraKey.value) {
        OriginalStays(ResolveKeys(data.items, avoid), AllowedNames(allowed), extraKey);
      }
    }
  }

  /** The value popped from `extra_key` stays at the top level under its
      `_original` name, since that name is recorded as renamed. */
  lemma OriginalStays(resolved: Entries, names: seq<string>, extraKey: Option<string>)
    requires DistinctKeys(resolved) && extraKey.Some? && HasKey(resolved, extraKey.value)
    ensures var p := Renamed(resolved, extraKey);
      (FreeName(Keys(Remove(resolved, extraKey.value)), OriginalPrefix(extraKey)),
       Get(resolved, extraKey.value).value) in Part(p.0, names, p.1, true)
  {
    var p := Renamed(resolved, extraKey);
    var name := FreeName(Keys(Remove(resolved, extraKey.value)), OriginalPrefix(extraKey));
    var v := Get(resolved, extraKey.value).value;
    RenamedNames(resolved, extraKey);
    RenamedMovesExtra(resolved, extraKey);
    assert p.1[0] == name;
    assert (name, v) in p.0;
    var j :| 0 <= j < |p.0| && p.0[j] == (name, v);
    assert Stays(p.0[j].0, names, p.1);
  }

  /** Steps 3 to 5 on a dict that no longer holds the extra key. */
  lemma ArrangedShape(resolved: Entries, names: seq<string>, renamed: seq<string>, extraKey: Option<string>, always: bool)
    requires DistinctKeys(resolved) && (extraKey.Some? ==> !HasKey(resolved, extraKey.value))
    ensures
      var stays := Part(resolved, names, renamed, true);
      var moves := Part(resolved, names, renamed, false);
      var out := Arranged(resolved, names, renamed, extraKey, always);
      && SortedBy(out.result, EntryKey)
      && SortedBy(out.moved, NameKey)
      && multiset(out.moved) == multiset(Keys(moves))
      && (forall i :: 0 <= i < |stays| ==> stays[i] in out.result)
      && (forall i :: 0 <= i < |out.result| ==>
            out.result[i] in stays || (extraKey.Some? && out.result[i].0 == extraKey.value))
      && (extraKey.Some? ==> (HasKey(out.result, extraKey.value) <==> out.moved != [] || always))
      && (extraKey.Some? && (out.moved != [] || always) ==>
            Get(out.result, extraKey.value) == Some(SortedDict(DictOf(moves))))
  {
    ClassifyFilters(resolved, names, renamed, |resolved|);
    assert resolved[..|resolved|] == resolved;
    var stays := Part(resolved, names, renamed, true);
    var moves := Part(resolved, names, renamed, false);
    SortBySorted(Keys(moves), NameKey);
    if extraKey.Some? {
      assert !HasKey(stays, extraKey.value) by {
        forall i | 0 <= i < |stays| ensures stays[i].0 != extraKey.value {
          var j :| 0 <= j < |resolved| && resolved[j] == stays[i];
        }
      }
    }
    OutputShape(stays, moves, extraKey, always);
    assert |SortBy(Keys(moves), NameKey)| == |moves|;
  }

}
