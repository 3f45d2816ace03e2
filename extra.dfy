/** `move_unknown_keys_to_extra`: keep the whitelisted keys of a dict at the
    top level and gather the others under one extra key, after renaming keys
    whose `str()` forms collide. */
module Extra {
  import opened Outcomes
  import opened Values
  import opened Decimal
  import opened Ordering
  import opened Dicts

  /** A dict with `str` keys, in insertion order. */
  type Entries = seq<(string, Value)>

  function Keys(m: Entries): (r: seq<string>)
    ensures |r| == |m| && forall i :: 0 <= i < |m| ==> r[i] == m[i].0
  {
    seq(|m|, i requires 0 <= i < |m| => m[i].0)
  }

  lemma KeysHasKey(m: Entries, k: string)
    ensures k in Keys(m) <==> HasKey(m, k)
  {
    if HasKey(m, k) {
      var i :| 0 <= i < |m| && m[i].0 == k;
      assert Keys(m)[i] == k;
    }
  }

  // ---------------------------------------------------------------------
  // `_resolve_extra_key_collision`
  // ---------------------------------------------------------------------

  /** The name tried at step `counter`: `_original`, then `_original2`, `_original3`, ... */
  function Candidate(base: string, counter: nat): string
    requires counter >= 1
  {
    base + (if counter == 1 then "_original" else "_original" + NatToString(counter))
  }

  function MaxLength(names: seq<string>): (r: nat)
    ensures forall i :: 0 <= i < |names| ==> |names[i]| <= r
  {
    if names == [] then 0
    else
      var m := MaxLength(names[..|names| - 1]);
      assert forall i :: 0 <= i < |names| - 1 ==> names[i] == names[..|names| - 1][i];
      if |names[|names| - 1]| > m then |names[|names| - 1]| else m
  }

  /** A name longer than every taken name is free. */
  lemma LongNameFree(names: seq<string>, s: string)
    requires |s| > MaxLength(names)
    ensures s !in names
  {
  }

  /** From `counter = 10^L` on (`L` the longest taken name) every candidate is free. */
  lemma LateCandidateFree(names: seq<string>, base: string, counter: nat)
    requires 1 <= counter && counter >= Pow10(MaxLength(names))
    ensures Candidate(base, counter) !in names
  {
    var L := MaxLength(names);
    if counter >= 2 {
      NatToStringLength(counter, L);
    }
    LongNameFree(names, Candidate(base, counter));
  }

  /** The `while True` loop of `_resolve_extra_key_collision` from `counter` on. */
  function FreeFrom(names: seq<string>, base: string, counter: nat): (r: string)
    requires 1 <= counter <= Pow10(MaxLength(names))
    ensures r !in names
    ensures base <= r
    decreases Pow10(MaxLength(names)) - counter
  {
    var candidate := Candidate(base, counter);
    if candidate !in names then candidate
    else
      if counter == Pow10(MaxLength(names)) then
        LateCandidateFree(names, base, counter);
        assert false;
        candidate
      else
        FreeFrom(names, base, counter + 1)
  }

  /** The loop returns the first free candidate from `counter` on. */
  lemma {:induction false} FreeFromFirst(names: seq<string>, base: string, counter: nat)
    requires 1 <= counter <= Pow10(MaxLength(names))
    ensures exists c :: (counter <= c && FreeFrom(names, base, counter) == Candidate(base, c)
      && forall c' :: counter <= c' < c ==> Candidate(base, c') in names)
    decreases Pow10(MaxLength(names)) - counter
  {
    if Candidate(base, counter) in names {
      if counter == Pow10(MaxLength(names)) {
        LateCandidateFree(names, base, counter);
      } else {
        FreeFromFirst(names, base, counter + 1);
        var c :| counter + 1 <= c && FreeFrom(names, base, counter + 1) == Candidate(base, c)
          && forall c' :: counter + 1 <= c' < c ==> Candidate(base, c') in names;
        assert forall c' :: counter <= c' < c ==> Candidate(base, c') in names by {
          forall c' | counter <= c' < c ensures Candidate(base, c') in names {
            if c' > counter {
              assert counter + 1 <= c' < c;
            }
          }
        }
      }
    }
  }

  /** `_resolve_extra_key_collision(kept_items, base_key)`: `base_key` itself
      if it is free, else the first free `base_key_original`, `base_key_original2`, ... */
  function FreeName(names: seq<string>, base: string): (r: string)
    ensures r !in names
    ensures base <= r
    ensures base !in names ==> r == base
  {
    if base !in names then base else FreeFrom(names, base, 1)
  }

  /** A taken base name is replaced by the first free `_original` candidate. */
  lemma FreeNameFirst(names: seq<string>, base: string)
    requires base in names
    ensures exists c :: (1 <= c && FreeName(names, base) == Candidate(base, c)
      && forall c' :: 1 <= c' < c ==> Candidate(base, c') in names)
  {
    FreeFromFirst(names, base, 1);
  }

  /** The counter loop of `_resolve_extra_key_collision` over the taken `names`. */
  method FindFreeName(names: seq<string>, baseKey: string) returns (r: string)
    ensures r == FreeName(names, baseKey)
  {
    if baseKey !in names {
      return baseKey;
    }
    var counter := 1;
    while true
      invariant 1 <= counter <= Pow10(MaxLength(names))
      invariant FreeFrom(names, baseKey, counter) == FreeName(names, baseKey)
      decreases Pow10(MaxLength(names)) - counter
    {
      var candidate := Candidate(baseKey, counter);
      if counter == Pow10(MaxLength(names)) {
        LateCandidateFree(names, baseKey, counter);
      }
      if candidate !in names {
        return candidate;
      }
      counter := counter + 1;
    }
  }

  /** `_resolve_extra_key_collision(kept_items, base_key)`. */
  method ResolveExtraKeyCollision(keptItems: Entries, baseKey: string) returns (r: string)
    ensures r == FreeName(Keys(keptItems), baseKey)
    ensures !HasKey(keptItems, r)
  {
    r := FindFreeName(Keys(keptItems), baseKey);
    KeysHasKey(keptItems, r);
  }

  // ---------------------------------------------------------------------
  // `_resolve_key_collisions`
  // ---------------------------------------------------------------------

  type Pairs = seq<(Value, Value)>

  /** `str_groups`: pairs grouped by `str(key)`, groups in order of first appearance. */
  type Groups = seq<(string, Pairs)>

  /** The sort key `(str(k), 0 if isinstance(k, str) else 1, type(k).__name__)`. */
  function ItemKey(kv: (Value, Value)): SortKey {
    [Txt(PyStr(kv.0)), Num(if kv.0.Str? then 0 else 1), Txt(TypeName(kv.0))]
  }

  /** `str_groups[name].append(kv)`, creating the group when `name` is new. */
  function AddToGroup(g: Groups, name: string, kv: (Value, Value)): (r: Groups)
    ensures !HasKey(g, name) ==> r == g + [(name, [kv])]
    ensures HasKey(g, name) ==> |r| == |g|
  {
    if g == [] then [(name, [kv])]
    else if g[0].0 == name then [(name, g[0].1 + [kv])] + g[1..]
    else
      assert HasKey(g, name) <==> HasKey(g[1..], name) by {
        if HasKey(g[1..], name) {
          var i :| 0 <= i < |g[1..]| && g[1..][i].0 == name;
          assert g[i + 1].0 == name;
        }
        if HasKey(g, name) {
          var i :| 0 <= i < |g| && g[i].0 == name;
          assert g[1..][i - 1].0 == name;
        }
      }
      [g[0]] + AddToGroup(g[1..], name, kv)
  }

  /** The grouping loop over the first `n` sorted pairs. */
  function GroupsOf(s: Pairs, n: nat): Groups
    requires n <= |s|
  {
    if n == 0 then [] else AddToGroup(GroupsOf(s, n - 1), PyStr(s[n - 1].0), s[n - 1])
  }

  /** `f"{str_name}__{type(key).__name__.lower()}"`. */
  function Suffixed(name: string, k: Value): string {
    name + "__" + Lower(TypeName(k))
  }

  /** The name a suffixed key is stored under. As written (`avoid` false) it
      is the suffixed name itself, whatever is already stored there; the
      corrected resolution (`avoid` true) takes the first free variant of it
      that is neither stored yet nor the `str()` of any key in `taken`. */
  function SuffixName(resolved: Entries, taken: seq<string>, avoid: bool, name: string, k: Value): string {
    if avoid then FreeName(Keys(resolved) + taken, Suffixed(name, k)) else Suffixed(name, k)
  }

  /** `resolved[suffixed_name] = value` for the first `n` of `pairs`. */
  function AssignSuffixed(resolved: Entries, name: string, pairs: Pairs, n: nat, taken: seq<string>, avoid: bool)
    : (r: Entries)
    requires DistinctKeys(resolved) && n <= |pairs|
    ensures DistinctKeys(r)
  {
    if n == 0 then resolved
    else
      var prev := AssignSuffixed(resolved, name, pairs, n - 1, taken, avoid);
      Assign(prev, SuffixName(prev, taken, avoid, name, pairs[n - 1].0), pairs[n - 1].1)
  }

  /** The separation loop over the first `n` pairs of a group: the first
      string key, and every other pair in order. */
  function SplitString(pairs: Pairs, n: nat): (r: (Option<(Value, Value)>, Pairs))
    requires n <= |pairs|
  {
    if n == 0 then (None, [])
    else
      var prev := SplitString(pairs, n - 1);
      if pairs[n - 1].0.Str? && prev.0.None? then (Some(pairs[n - 1]), prev.1)
      else (prev.0, prev.1 + [pairs[n - 1]])
  }

  /** One collision group: a lone key keeps its name; otherwise a string key
      keeps the bare name and the other keys are suffixed, or all are
      suffixed when there is no string key. */
  function ResolveGroup(resolved: Entries, name: string, pairs: Pairs, taken: seq<string>, avoid: bool)
    : (r: Entries)
    requires DistinctKeys(resolved)
    ensures DistinctKeys(r)
  {
    if |pairs| == 1 then Assign(resolved, name, pairs[0].1)
    else
      var split := SplitString(pairs, |pairs|);
      if split.0.Some? then
        AssignSuffixed(Assign(resolved, name, split.0.value.1), name, split.1, |split.1|, taken, avoid)
      else AssignSuffixed(resolved, name, pairs, |pairs|, taken, avoid)
  }

  /** The loop over the first `n` groups. */
  function ResolveGroups(groups: Groups, n: nat, taken: seq<string>, avoid: bool): (r: Entries)
    requires n <= |groups|
    ensures DistinctKeys(r)
  {
    if n == 0 then []
    else ResolveGroup(ResolveGroups(groups, n - 1, taken, avoid), groups[n - 1].0, groups[n - 1].1, taken, avoid)
  }

  /** `[str(k) for k, _ in items]`. */
  function StrNames(items: Pairs): (r: seq<string>)
    ensures |r| == |items| && forall i :: 0 <= i < |items| ==> r[i] == PyStr(items[i].0)
  {
    seq(|items|, i requires 0 <= i < |items| => PyStr(items[i].0))
  }

  /** The collision resolution, as written (`avoid` false) or corrected
      (`avoid` true, where suffixed names also avoid every key's `str()`). */
  function ResolveKeys(items: Pairs, avoid: bool): (r: Entries)
    ensures DistinctKeys(r)
  {
    var s := SortBy(items, ItemKey);
    var g := GroupsOf(s, |s|);
    ResolveGroups(g, |g|, if avoid then StrNames(s) else [], avoid)
  }

  /** `_resolve_key_collisions(data)` as written. */
  function ResolvedAsWritten(items: Pairs): (r: Entries)
    ensures DistinctKeys(r)
  {
    ResolveKeys(items, false)
  }

  /** `_resolve_key_collisions(data)` with suffixed names that never land on a taken name. */
  function Resolved(items: Pairs): (r: Entries)
    ensures DistinctKeys(r)
  {
    ResolveKeys(items, true)
  }

  /** The separation loop of one collision group. */
  method SplitGroup(pairs: Pairs) returns (stringPair: Option<(Value, Value)>, others: Pairs)
    ensures (stringPair, others) == SplitString(pairs, |pairs|)
  {
    stringPair := None;
    others := [];
    for j := 0 to |pairs|
      invariant (stringPair, others) == SplitString(pairs, j)
    {
      if pairs[j].0.Str? && stringPair.None? {
        stringPair := Some(pairs[j]);
      } else {
        others := others + [pairs[j]];
      }
    }
  }

  /** The suffix loop: `resolved[suffixed_name] = value` for every pair. */
  method StoreSuffixed(resolved0: Entries, name: string, pairs: Pairs) returns (resolved: Entries)
    requires DistinctKeys(resolved0)
    ensures resolved == AssignSuffixed(resolved0, name, pairs, |pairs|, [], false)
  {
    resolved := resolved0;
    for j := 0 to |pairs|
      invariant resolved == AssignSuffixed(resolved0, name, pairs, j, [], false)
    {
      var suffixedName := Suffixed(name, pairs[j].0);
      resolved := Assign(resolved, suffixedName, pairs[j].1);
    }
  }

  /** One iteration of the loop over the collision groups. */
  method StoreGroup(resolved0: Entries, name: string, pairs: Pairs) returns (resolved: Entries)
    requires DistinctKeys(resolved0)
    ensures resolved == ResolveGroup(resolved0, name, pairs, [], false)
  {
    if |pairs| == 1 {
      resolved := Assign(resolved0, name, pairs[0].1);
    } else {
      var stringPair, others := SplitGroup(pairs);
      if stringPair.Some? {
        resolved := Assign(resolved0, name, stringPair.value.1);
        resolved := StoreSuffixed(resolved, name, others);
      } else {
        resolved := StoreSuffixed(resolved0, name, pairs);
      }
    }
  }

  /** `_resolve_key_collisions(data)` on the items of `data`. */
  method ResolveKeyCollisions(items: Pairs) returns (resolved: Entries)
    ensures resolved == ResolvedAsWritten(items)
  {
    var sorted := SortBy(items, ItemKey);
    var groups: Groups := [];
    for i := 0 to |sorted|
      invariant groups == GroupsOf(sorted, i)
    {
      groups := AddToGroup(groups, PyStr(sorted[i].0), sorted[i]);
    }
    resolved := [];
    for i := 0 to |groups|
      invariant resolved == ResolveGroups(groups, i, [], false)
    {
      resolved := StoreGroup(resolved, groups[i].0, groups[i].1);
    }
  }

  // ---------------------------------------------------------------------
  // `move_unknown_keys_to_extra`
  // ---------------------------------------------------------------------

  /** `isinstance(data, dict)`. */
  predicate IsDict(v: Value) {
    v.Map? && (v.kind == Dict || v.kind == DictSubclass)
  }

  /** `{str(k) for k in allowed_keys}`, empty for `allowed_keys=None`. */
  function AllowedNames(allowed: Option<seq<Value>>): (r: seq<string>)
    ensures allowed.None? ==> r == []
    ensures allowed.Some? ==> |r| == |allowed.value| && forall i :: 0 <= i < |r| ==> r[i] == PyStr(allowed.value[i])
  {
    if allowed.None? then []
    else seq(|allowed.value|, i requires 0 <= i < |allowed.value| => PyStr(allowed.value[i]))
  }

  /** `f"{extra_key}_original"`; `extra_key=None` formats as `None`. */
  function OriginalPrefix(extraKey: Option<string>): string {
    (if extraKey.Some? then extraKey.value else "None") + "_original"
  }

  /** Step 2: a key equal to `extra_key` is popped and stored again under a
      free `_original` name, which is recorded as renamed. */
  function RenameExtraKey(resolved: Entries, extraKey: Option<string>): (r: (Entries, seq<string>))
    requires DistinctKeys(resolved)
    ensures DistinctKeys(r.0)
  {
    if extraKey.Some? && HasKey(resolved, extraKey.value) then
      var value := Get(resolved, extraKey.value).value;
      var rest := Remove(resolved, extraKey.value);
      var newKey := FreeName(Keys(rest), OriginalPrefix(extraKey));
      (Assign(rest, newKey, value), [newKey])
    else (resolved, [])
  }

  /** `keys_to_rename`: the keys starting with `prefix`, in order. */
  function KeysWithPrefix(keys: seq<string>, prefix: string): (r: seq<string>)
    ensures forall i :: 0 <= i < |r| ==> prefix <= r[i] && r[i] in keys
    ensures forall i :: 0 <= i < |keys| && prefix <= keys[i] ==> keys[i] in r
  {
    if keys == [] then []
    else
      var init := keys[..|keys| - 1];
      var rest := KeysWithPrefix(init, prefix);
      assert forall i :: 0 <= i < |keys| - 1 ==> keys[i] == init[i];
      if prefix <= keys[|keys| - 1] then rest + [keys[|keys| - 1]] else rest
  }

  lemma KeysWithPrefixStep(keys: seq<string>, i: nat, prefix: string)
    requires i < |keys|
    ensures KeysWithPrefix(keys[..i + 1], prefix)
      == KeysWithPrefix(keys[..i], prefix) + (if prefix <= keys[i] then [keys[i]] else [])
  {
    assert keys[..i + 1][..i] == keys[..i];
  }

  /** The keys of `keys` that `m` holds, in order. */
  function PresentKeys(m: Entries, keys: seq<string>): (r: seq<string>)
    ensures forall i :: 0 <= i < |r| ==> r[i] in keys && HasKey(m, r[i])
  {
    if keys == [] then []
    else
      var init := PresentKeys(m, keys[..|keys| - 1]);
      if HasKey(m, keys[|keys| - 1]) then init + [keys[|keys| - 1]] else init
  }

  /** A key that is popped is free again, so storing it under the name found
      for it puts it back under itself, at the end of the dict. */
  lemma RestoreSame(m: Entries, key: string)
    requires DistinctKeys(m) && HasKey(m, key)
    ensures FreeName(Keys(Remove(m, key)), key) == key
    ensures Assign(Remove(m, key), key, Get(m, key).value) == Remove(m, key) + [(key, Get(m, key).value)]
    ensures forall x :: Get(Assign(Remove(m, key), key, Get(m, key).value), x) == Get(m, x)
  {
    KeysHasKey(Remove(m, key), key);
    Reinsert(m, key);
  }

  /** The renaming loop over the first `n` keys to rename: each is popped and
      stored again under the name `_resolve_extra_key_collision` finds for it.
      That name is the key itself, which the pop has just freed, so every key
      keeps its value and the names recorded are the keys the dict held. */
  function RenameCascade(resolved: Entries, keys: seq<string>, n: nat, renamed: seq<string>)
    : (r: (Entries, seq<string>))
    requires DistinctKeys(resolved) && n <= |keys|
    ensures DistinctKeys(r.0)
    ensures forall x :: Get(r.0, x) == Get(resolved, x)
    ensures r.1 == renamed + PresentKeys(resolved, keys[..n])
  {
    if n == 0 then (resolved, renamed)
    else
      var prev := RenameCascade(resolved, keys, n - 1, renamed);
      var key := keys[n - 1];
      var value := Get(prev.0, key);
      assert keys[..n][..n - 1] == keys[..n - 1];
      assert value == Get(resolved, key);
      if value.None? then prev
      else
        var rest := Remove(prev.0, key);
        var newKey := FreeName(Keys(rest), key);
        RestoreSame(prev.0, key);
        (Assign(rest, newKey, value.value), prev.1 + [newKey])
  }

  /** The classification loop over the first `n` entries: whitelisted or
      renamed keys are kept, the others go to the extra dict and the moved list. */
  function Classify(resolved: Entries, allowed: seq<string>, renamed: seq<string>, n: nat)
    : (r: (Entries, Entries, seq<string>))
    requires n <= |resolved|
    ensures DistinctKeys(r.0) && DistinctKeys(r.1)
  {
    if n == 0 then ([], [], [])
    else
      var prev := Classify(resolved, allowed, renamed, n - 1);
      var (key, value) := resolved[n - 1];
      if key in allowed || key in renamed then (Assign(prev.0, key, value), prev.1, prev.2)
      else (prev.0, Assign(prev.1, key, value), prev.2 + [key])
  }

  /** A dict with `str` keys as a value. */
  function DictOf(m: Entries): (r: Value)
    ensures r.Map? && r.kind == Dict && |r.items| == |m|
    ensures forall i :: 0 <= i < |m| ==> r.items[i] == (Str(m[i].0), m[i].1)
  {
    Map(Dict, seq(|m|, i requires 0 <= i < |m| => (Str(m[i].0), m[i].1)))
  }

  function EntryKey(e: (string, Value)): SortKey {
    [Txt(e.0)]
  }

  function NameKey(s: string): SortKey {
    [Txt(s)]
  }

  function PairKey(kv: (Value, Value)): SortKey {
    [Txt(PyStr(kv.0))]
  }

  /** `{k: d[k] for k in sorted(d.keys())}` for a dict value. */
  function SortedDict(d: Value): (r: Value)
    requires IsDict(d)
    ensures IsDict(r) && r.kind == d.kind
  {
    Map(d.kind, SortBy(d.items, PairKey))
  }

  /** Sorting keeps keys distinct. */
  lemma {:induction false} InsertDistinct<K, V>(r: seq<(K, V)>, x: (K, V), key: ((K, V)) -> SortKey)
    requires DistinctKeys(r) && !HasKey(r, x.0)
    ensures DistinctKeys(Insert(r, x, key))
  {
    if r != [] && KeyLe(key(r[0]), key(x)) {
      RestDistinct(r, x.0);
      InsertDistinct(r[1..], x, key);
      InsertAvoids(r[1..], x, key, r[0].0);
      ConsDistinct(r[0], Insert(r[1..], x, key));
    } else if r != [] {
      ConsDistinct(x, r);
    }
  }

  /** Dropping the first entry keeps keys distinct, and its key is then absent. */
  lemma RestDistinct<K, V>(r: seq<(K, V)>, k: K)
    requires r != [] && DistinctKeys(r) && !HasKey(r, k)
    ensures DistinctKeys(r[1..]) && !HasKey(r[1..], k) && !HasKey(r[1..], r[0].0)
  {
    assert forall i :: 0 <= i < |r| - 1 ==> r[1..][i] == r[i + 1];
  }

  /** Inserting an entry of another key leaves a key absent. */
  lemma InsertAvoids<K, V>(r: seq<(K, V)>, x: (K, V), key: ((K, V)) -> SortKey, k: K)
    requires !HasKey(r, k) && x.0 != k
    ensures !HasKey(Insert(r, x, key), k)
  {
    var out := Insert(r, x, key);
    forall i | 0 <= i < |out| ensures out[i].0 != k {
      assert out[i] in multiset(r) + multiset{x};
      if out[i] != x {
        assert out[i] in r;
      }
    }
  }

  /** An entry in front of entries without its key keeps keys distinct. */
  lemma ConsDistinct<K, V>(h: (K, V), t: seq<(K, V)>)
    requires DistinctKeys(t) && !HasKey(t, h.0)
    ensures DistinctKeys([h] + t)
  {
    var out := [h] + t;
    assert forall i :: 1 <= i < |out| ==> out[i] == t[i - 1];
  }

  lemma {:induction false} SortDistinct<K, V>(m: seq<(K, V)>, key: ((K, V)) -> SortKey)
    requires DistinctKeys(m)
    ensures DistinctKeys(SortBy(m, key))
  {
    if m != [] {
      var init := m[..|m| - 1];
      var last := m[|m| - 1];
      assert forall i :: 0 <= i < |init| ==> init[i] == m[i];
      SortDistinct(init, key);
      var sorted := SortBy(init, key);
      forall i | 0 <= i < |sorted| ensures sorted[i].0 != last.0 {
        SortByMembers(init, key, sorted[i]);
        var j :| 0 <= j < |init| && init[j] == sorted[i];
        assert m[j] == sorted[i];
      }
      InsertDistinct(sorted, last, key);
    }
  }

  /** What `move_unknown_keys_to_extra` returns: the normalised dict, and the
      names moved to the extra dict. */
  datatype Moved = Moved(result: Entries, moved: seq<string>)

  /** The dict with `extra_key` added when something moved or `always_add_extra` is set. */
  function WithExtra(kept: Entries, extra: Entries, extraKey: Option<string>, always: bool): (r: Entries)
    requires DistinctKeys(kept)
    ensures DistinctKeys(r)
  {
    if (extra != [] || always) && extraKey.Some? then Assign(kept, extraKey.value, DictOf(extra)) else kept
  }

  /** The output order: keys sorted, and the extra dict's keys sorted too. */
  function SortedOutput(kept: Entries, extraKey: Option<string>): (r: Entries)
    requires DistinctKeys(kept)
    ensures DistinctKeys(r)
  {
    SortDistinct(kept, EntryKey);
    var top := SortBy(kept, EntryKey);
    if extraKey.Some? && HasKey(top, extraKey.value) && IsDict(Get(top, extraKey.value).value) then
      Assign(top, extraKey.value, SortedDict(Get(top, extraKey.value).value))
    else top
  }

  /** The renaming steps: `extra_key` itself, then every key starting with `{extra_key}_original`. */
  function Renamed(resolved: Entries, extraKey: Option<string>): (r: (Entries, seq<string>))
    requires DistinctKeys(resolved)
    ensures DistinctKeys(r.0)
  {
    var step := RenameExtraKey(resolved, extraKey);
    var toRename := KeysWithPrefix(Keys(step.0), OriginalPrefix(extraKey));
    RenameCascade(step.0, toRename, |toRename|, step.1)
  }

  /** `move_unknown_keys_to_extra(data, allowed_keys, extra_key=..., always_add_extra=...)`,
      on the collision resolution as written (`avoid` false) or corrected (`avoid` true). */
  function MoveUnknown(data: Value, allowed: Option<seq<Value>>, extraKey: Option<string>, always: bool, avoid: bool)
    : (r: Result<Moved>)
  {
    if !IsDict(data) then Failure(TypeError("data must be a dict"))
    else
      var renamed := Renamed(ResolveKeys(data.items, avoid), extraKey);
      Success(Arranged(renamed.0, AllowedNames(allowed), renamed.1, extraKey, always))
  }

  /** Steps 3 to 5 on the renamed dict: classify, add the extra dict, sort. */
  function Arranged(resolved: Entries, allowed: seq<string>, renamed: seq<string>, extraKey: Option<string>, always: bool)
    : Moved
    requires DistinctKeys(resolved)
  {
    var parts := Classify(resolved, allowed, renamed, |resolved|);
    var kept := WithExtra(parts.0, parts.1, extraKey, always);
    Moved(SortedOutput(kept, extraKey), SortBy(parts.2, NameKey))
  }

  /** Step 2: pop `extra_key` and store its value under a free `_original` name. */
  method RenameExtra(resolved0: Entries, extraKey: Option<string>) returns (resolved: Entries, renamed: seq<string>)
    requires DistinctKeys(resolved0)
    ensures (resolved, renamed) == RenameExtraKey(resolved0, extraKey)
  {
    resolved := resolved0;
    renamed := [];
    if extraKey.Some? && HasKey(resolved, extraKey.value) {
      var value := Get(resolved, extraKey.value).value;
      resolved := Remove(resolved, extraKey.value);
      var newKey := ResolveExtraKeyCollision(resolved, OriginalPrefix(extraKey));
      resolved := Assign(resolved, newKey, value);
      renamed := [newKey];
    }
  }

  /** The loop collecting `keys_to_rename`. */
  method CollectKeysToRename(resolved: Entries, prefix: string) returns (keysToRename: seq<string>)
    ensures keysToRename == KeysWithPrefix(Keys(resolved), prefix)
  {
    keysToRename := [];
    for i := 0 to |resolved|
      invariant keysToRename == KeysWithPrefix(Keys(resolved)[..i], prefix)
    {
      KeysWithPrefixStep(Keys(resolved), i, prefix);
      if prefix <= resolved[i].0 {
        keysToRename := keysToRename + [resolved[i].0];
      }
    }
    assert Keys(resolved)[..|resolved|] == Keys(resolved);
  }

  /** The loop renaming every key of `keys_to_rename`. */
  method RenameKeys(resolved0: Entries, keysToRename: seq<string>, renamed0: seq<string>)
    returns (resolved: Entries, renamed: seq<string>)
    requires DistinctKeys(resolved0)
    ensures (resolved, renamed) == RenameCascade(resolved0, keysToRename, |keysToRename|, renamed0)
  {
    resolved, renamed := resolved0, renamed0;
    for i := 0 to |keysToRename|
      invariant (resolved, renamed) == RenameCascade(resolved0, keysToRename, i, renamed0)
    {
      var key := keysToRename[i];
      var value := Get(resolved, key);
      if value.Some? {
        resolved := Remove(resolved, key);
        var newKey := ResolveExtraKeyCollision(resolved, key);
        resolved := Assign(resolved, newKey, value.value);
        renamed := renamed + [newKey];
      }
    }
  }

  /** Step 3: the loop filling `kept_items`, `extra_items` and `moved_keys`. */
  method ClassifyKeys(resolved: Entries, allowedNames: seq<string>, renamed: seq<string>)
    returns (kept: Entries, extra: Entries, moved: seq<string>)
    ensures (kept, extra, moved) == Classify(resolved, allowedNames, renamed, |resolved|)
  {
    kept, extra, moved := [], [], [];
    for i := 0 to |resolved|
      invariant (kept, extra, moved) == Classify(resolved, allowedNames, renamed, i)
    {
      var (key, value) := resolved[i];
      if key in allowedNames || key in renamed {
        kept := Assign(kept, key, value);
      } else {
        extra := Assign(extra, key, value);
        moved := moved + [key];
      }
    }
  }

  /** Steps 4 and 5: add the extra dict and sort. */
  method Finish(kept0: Entries, extra: Entries, extraKey: Option<string>, always: bool) returns (result: Entries)
    requires DistinctKeys(kept0)
    ensures result == SortedOutput(WithExtra(kept0, extra, extraKey, always), extraKey)
  {
    var kept := kept0;
    if (extra != [] || always) && extraKey.Some? {
      kept := Assign(kept, extraKey.value, DictOf(extra));
    }
    SortDistinct(kept, EntryKey);
    result := SortBy(kept, EntryKey);
    if extraKey.Some? && HasKey(result, extraKey.value) && IsDict(Get(result, extraKey.value).value) {
      result := Assign(result, extraKey.value, SortedDict(Get(result, extraKey.value).value));
    }
  }

  /** `move_unknown_keys_to_extra(data, allowed_keys, extra_key=..., always_add_extra=...)`. */
  method MoveUnknownKeysToExtra(data: Value, allowed: Option<seq<Value>>, extraKey: Option<string>, always: bool)
    returns (r: Result<Moved>)
    ensures r == MoveUnknown(data, allowed, extraKey, always, false)
  {
    if !IsDict(data) {
      return Failure(TypeError("data must be a dict"));
    }
    var allowedNames := AllowedNames(allowed);
    var resolved := ResolveKeyCollisions(data.items);
    var renamed;
    resolved, renamed := RenameExtra(resolved, extraKey);
    var keysToRename := CollectKeysToRename(resolved, OriginalPrefix(extraKey));
    resolved, renamed := RenameKeys(resolved, keysToRename, renamed);
    var kept, extra, moved := ClassifyKeys(resolved, allowedNames, renamed);
    var result := Finish(kept, extra, extraKey, always);
    return Success(Moved(result, SortBy(moved, NameKey)));
  }
}
