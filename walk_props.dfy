/** What `walk` promises about its collected copy and its printed tree. */
module WalkProperties {
  import opened Outcomes
  import opened Values
  import opened Ordering
  import opened Dicts
  import opened Walk
  import opened Decimal

  // ---------------------------------------------------------------------
  // Where the entries of a collected mapping come from
  // ---------------------------------------------------------------------

  /** The collected entry the `j`-th child of a mapping contributes. */
  function EntryFor(o: WalkOptions, parent: Value, order: seq<nat>, j: nat, depth: nat): (Value, Value)
    requires parent.Map? && j < |order| && order[j] < |parent.items|
  {
    (Str(PyStr(parent.items[order[j]].0)), CollectedChild(o, parent.items[order[j]].1, depth))
  }

  /** The pairs the first `n` children of a mapping assign, in order. */
  function EntryList(o: WalkOptions, parent: Value, order: seq<nat>, n: nat, depth: nat): (r: seq<(Value, Value)>)
    requires parent.Map? && n <= |order|
    requires forall k :: 0 <= k < |order| ==> order[k] < |parent.items|
    ensures |r| == n && forall j :: 0 <= j < n ==> r[j] == EntryFor(o, parent, order, j, depth)
  {
    seq(n, j requires 0 <= j < n => EntryFor(o, parent, order, j, depth))
  }

  /** The mapping branch assigns the children's pairs one after the other. */
  lemma {:induction false} EntriesAssigned(o: WalkOptions, parent: Value, order: seq<nat>, n: nat, depth: nat)
    requires parent.Map? && n <= |order|
    requires forall k :: 0 <= k < |order| ==> order[k] < |parent.items|
    ensures CollectedEntries(o, parent, order, n, depth) == AssignAll(EntryList(o, parent, order, n, depth))
  {
    if n > 0 {
      EntriesAssigned(o, parent, order, n - 1, depth);
      var ps := EntryList(o, parent, order, n, depth);
      assert ps[..n - 1] == EntryList(o, parent, order, n - 1, depth);
    }
  }

  /** Every entry of a collected mapping is some child's `str(key)` label
      with that child's collected value. */
  lemma EntryOrigin(o: WalkOptions, parent: Value, order: seq<nat>, n: nat, depth: nat, i: nat)
    returns (j: nat)
    requires parent.Map? && n <= |order|
    requires forall k :: 0 <= k < |order| ==> order[k] < |parent.items|
    requires i < |CollectedEntries(o, parent, order, n, depth)|
    ensures j < n
    ensures CollectedEntries(o, parent, order, n, depth)[i]
      == (Str(PyStr(parent.items[order[j]].0)), CollectedChild(o, parent.items[order[j]].1, depth))
  {
    EntriesAssigned(o, parent, order, n, depth);
    j := AssignAllOrigin(EntryList(o, parent, order, n, depth), i);
  }

  /** Every child's label is a key of the collected mapping. */
  lemma EntryPresent(o: WalkOptions, parent: Value, order: seq<nat>, n: nat, depth: nat, j: nat)
    requires parent.Map? && n <= |order|
    requires forall k :: 0 <= k < |order| ==> order[k] < |parent.items|
    requires j < n
    ensures HasKey(CollectedEntries(o, parent, order, n, depth), Str(PyStr(parent.items[order[j]].0)))
  {
    EntriesAssigned(o, parent, order, n, depth);
    AssignAllPresent(EntryList(o, parent, order, n, depth), j);
  }

  /** A position where `x` occurs in `s`. */
  lemma IndexOf<T>(s: seq<T>, x: T) returns (i: nat)
    requires x in s
    ensures i < |s| && s[i] == x
  {
    i :| 0 <= i < |s| && s[i] == x;
  }

  /** The `k`-th collected element is the collected `order[k]`-th child. */
  lemma {:induction false} ElemAt(o: WalkOptions, parent: Value, order: seq<nat>, n: nat, depth: nat, k: nat)
    requires (parent.Seq? || parent.Set?) && n <= |order|
    requires forall j :: 0 <= j < |order| ==> order[j] < |parent.elems|
    requires k < n
    ensures CollectedElems(o, parent, order, n, depth)[k] == CollectedChild(o, parent.elems[order[k]], depth)
  {
    if k < n - 1 {
      ElemAt(o, parent, order, n - 1, depth, k);
    }
  }

  // ---------------------------------------------------------------------
  // Orders
  // ---------------------------------------------------------------------

  lemma RangeMembers(n: nat, p: nat)
    ensures p in Range(n) <==> p < n
  {
    if p < n {
      assert Range(n)[p] == p;
    }
  }

  /** Sorting positions loses none of them. */
  lemma SortedPositionsCover(xs: seq<Value>, p: nat)
    requires p < |xs|
    ensures p in SortedPositions(xs)
  {
    RangeMembers(|xs|, p);
    var r := SortedPositions(xs);
    assert p in multiset(Range(|xs|));
    assert p in multiset(r);
  }

  /** A mapping's children are all of its entries. */
  lemma MapOrderCovers(items: seq<(Value, Value)>, sortKeys: bool, p: nat)
    requires p < |items|
    ensures p in MapOrder(items, sortKeys)
  {
    if sortKeys {
      SortedPositionsCover(MapKeys(items), p);
    } else {
      RangeMembers(|items|, p);
    }
  }

  /** Without an item limit, a sequence's or set's children are all of its elements. */
  lemma ElemOrderCovers(elems: seq<Value>, sorted: bool, p: nat)
    requires p < |elems|
    ensures p in ElemOrder(elems, sorted, None)
  {
    if sorted {
      SortedPositionsCover(elems, p);
    } else {
      RangeMembers(|elems|, p);
    }
  }

  // ---------------------------------------------------------------------
  // The collected copy: one level
  // ---------------------------------------------------------------------

  /** Within the depth limit a mapping becomes a plain dict; its keys are
      exactly the `str()` of the original keys, each once. */
  lemma MappingKeys(o: WalkOptions, v: Value, depth: nat)
    requires v.Map? && !AtDepthLimit(o, depth)
    ensures Collected(o, v, depth).kind == Dict
    ensures forall k :: 0 <= k < |v.items| ==> HasKey(Collected(o, v, depth).items, Str(PyStr(v.items[k].0)))
    ensures forall i :: 0 <= i < |Collected(o, v, depth).items| ==>
      (exists k :: 0 <= k < |v.items| && Collected(o, v, depth).items[i].0 == Str(PyStr(v.items[k].0)))
    ensures DistinctKeys(Collected(o, v, depth).items)
  {
    var order := ChildOrder(v, o);
    var r := CollectedEntries(o, v, order, |order|, depth);
    assert Collected(o, v, depth) == Map(Dict, r);
    forall k | 0 <= k < |v.items| ensures HasKey(r, Str(PyStr(v.items[k].0))) {
      MapOrderCovers(v.items, o.sortKeys, k);
      var j :| 0 <= j < |order| && order[j] == k;
      EntryPresent(o, v, order, |order|, depth, j);
    }
    forall i | 0 <= i < |r| ensures exists k :: 0 <= k < |v.items| && r[i].0 == Str(PyStr(v.items[k].0)) {
      var j := EntryOrigin(o, v, order, |order|, depth, i);
      assert r[i].0 == Str(PyStr(v.items[order[j]].0));
    }
  }

  /** Within the depth limit a list or tuple keeps its kind and the first
      `max_items_per_container` elements (Python slicing), each collected in turn. */
  lemma SequencePrefix(o: WalkOptions, v: Value, depth: nat)
    requires v.Seq? && !AtDepthLimit(o, depth)
    ensures Collected(o, v, depth).isTuple == v.isTuple
    ensures |Collected(o, v, depth).elems| == |Take(v.elems, o.maxItems)|
    ensures forall k :: 0 <= k < |Collected(o, v, depth).elems| ==>
      Collected(o, v, depth).elems[k] == CollectedChild(o, v.elems[k], depth)
  {
    var order := ChildOrder(v, o);
    var r := CollectedElems(o, v, order, |order|, depth);
    assert Collected(o, v, depth) == Seq(v.isTuple, r);
    assert order == Take(Range(|v.elems|), o.maxItems);
    forall k | 0 <= k < |r| ensures r[k] == CollectedChild(o, v.elems[k], depth) {
      ElemAt(o, v, order, |order|, depth, k);
    }
  }

  /** Within the depth limit a set or frozenset keeps its kind; its elements
      are distinct, each the collected copy of one of the chosen elements;
      without an item limit every element's copy is there. */
  lemma SetElements(o: WalkOptions, v: Value, depth: nat)
    requires v.Set? && !AtDepthLimit(o, depth)
    ensures Collected(o, v, depth).isFrozen == v.isFrozen
    ensures Distinct(Collected(o, v, depth).elems)
    ensures |Collected(o, v, depth).elems| <= |ChildOrder(v, o)|
    ensures forall i :: 0 <= i < |Collected(o, v, depth).elems| ==>
      (exists k :: 0 <= k < |v.elems| && Collected(o, v, depth).elems[i] == CollectedChild(o, v.elems[k], depth))
    ensures o.maxItems.None? ==>
      forall k :: 0 <= k < |v.elems| ==> CollectedChild(o, v.elems[k], depth) in Collected(o, v, depth).elems
  {
    var order := ChildOrder(v, o);
    var s := CollectedElems(o, v, order, |order|, depth);
    var r := Dedup(s);
    assert Collected(o, v, depth) == Set(v.isFrozen, r);
    forall i | 0 <= i < |r| ensures exists k :: 0 <= k < |v.elems| && r[i] == CollectedChild(o, v.elems[k], depth) {
      var j :| 0 <= j < |s| && s[j] == r[i];
      ElemAt(o, v, order, |order|, depth, j);
      assert r[i] == CollectedChild(o, v.elems[order[j]], depth);
    }
    if o.maxItems.None? {
      forall k | 0 <= k < |v.elems| ensures CollectedChild(o, v.elems[k], depth) in r {
        ElemOrderCovers(v.elems, o.sortSets, k);
        var j :| 0 <= j < |order| && order[j] == k;
        ElemAt(o, v, order, |order|, depth, j);
        assert s[j] in r;
      }
    }
  }

  /** At the depth limit a container becomes empty; a leaf is copied. */
  lemma AtLimitEmptied(o: WalkOptions, v: Value, depth: nat)
    requires AtDepthLimit(o, depth)
    ensures IsContainer(v) ==> NumChildren(Collected(o, v, depth)) == 0
    ensures !IsContainer(v) ==> Collected(o, v, depth) == v
  {
  }

  // ---------------------------------------------------------------------
  // The collected copy: the whole tree
  // ---------------------------------------------------------------------

  /** Every container `k` or more levels below this node is empty. */
  ghost predicate EmptyBeyond(v: Value, k: int) {
    match v
    case Map(_, items) =>
      && (k <= 0 ==> items == [])
      && forall i :: 0 <= i < |items| ==> EmptyBeyond(items[i].1, k - 1)
    case Seq(_, elems) =>
      && (k <= 0 ==> elems == [])
      && forall i :: 0 <= i < |elems| ==> EmptyBeyond(elems[i], k - 1)
    case Set(_, elems) =>
      && (k <= 0 ==> elems == [])
      && forall i :: 0 <= i < |elems| ==> EmptyBeyond(elems[i], k - 1)
    case _ => true
  }

  /** Every list, tuple, set and frozenset in the tree has at most `m` elements. */
  ghost predicate ItemsWithin(v: Value, m: nat) {
    match v
    case Map(_, items) => forall i :: 0 <= i < |items| ==> ItemsWithin(items[i].1, m)
    case Seq(_, elems) => |elems| <= m && forall i :: 0 <= i < |elems| ==> ItemsWithin(elems[i], m)
    case Set(_, elems) => |elems| <= m && forall i :: 0 <= i < |elems| ==> ItemsWithin(elems[i], m)
    case _ => true
  }

  /** Every mapping in the tree is a plain dict with distinct string keys. */
  ghost predicate PlainDicts(v: Value) {
    match v
    case Map(kind, items) =>
      && kind == Dict
      && DistinctKeys(items)
      && (forall i :: 0 <= i < |items| ==> items[i].0.Str? && PlainDicts(items[i].1))
    case Seq(_, elems) => forall i :: 0 <= i < |elems| ==> PlainDicts(elems[i])
    case Set(_, elems) => forall i :: 0 <= i < |elems| ==> PlainDicts(elems[i])
    case _ => true
  }

  /** The shape every collected tree has, for the options it was collected with. */
  ghost predicate CollectedShape(o: WalkOptions, v: Value, depth: nat) {
    && (o.maxDepth.Some? ==> EmptyBeyond(v, o.maxDepth.value - depth))
    && (o.maxItems.Some? && o.maxItems.value >= 0 ==> ItemsWithin(v, o.maxItems.value))
    && PlainDicts(v)
  }

  /** A leaf met anywhere inside the original has the collected shape. */
  lemma LeafShape(o: WalkOptions, v: Value, depth: nat)
    requires !IsContainer(v)
    ensures CollectedShape(o, v, depth)
  {
  }

  lemma ChildShape(o: WalkOptions, x: Value, depth: nat)
    requires IsContainer(x) ==> CollectedShape(o, Collected(o, x, depth + 1), depth + 1)
    ensures CollectedShape(o, CollectedChild(o, x, depth), depth + 1)
  {
  }

  /** The depth limit, the item limit and plain string-keyed dicts hold at
      every level of the collected copy, however deep the original is. */
  lemma {:induction false} CollectedWithinLimits(o: WalkOptions, v: Value, depth: nat)
    ensures CollectedShape(o, Collected(o, v, depth), depth)
    decreases v, 1
  {
    if AtDepthLimit(o, depth) || !IsContainer(v) {
    } else if v.Map? {
      MappingWithinLimits(o, v, depth);
    } else {
      ElementsWithinLimits(o, v, depth);
    }
  }

  lemma {:induction false} MappingWithinLimits(o: WalkOptions, v: Value, depth: nat)
    requires v.Map? && !AtDepthLimit(o, depth)
    ensures CollectedShape(o, Collected(o, v, depth), depth)
    decreases v, 0
  {
    var order := ChildOrder(v, o);
    var items := CollectedEntries(o, v, order, |order|, depth);
    var r := Map(Dict, items);
    assert Collected(o, v, depth) == r;
    forall i | 0 <= i < |items| ensures items[i].0.Str? && CollectedShape(o, items[i].1, depth + 1) {
      var j := EntryOrigin(o, v, order, |order|, depth, i);
      var x := v.items[order[j]].1;
      if IsContainer(x) {
        CollectedWithinLimits(o, x, depth + 1);
      }
      ChildShape(o, x, depth);
    }
    ShapeOfMapping(o, items, depth);
  }

  /** A plain dict whose keys are strings and whose values have the shape one level down has the shape. */
  lemma ShapeOfMapping(o: WalkOptions, items: seq<(Value, Value)>, depth: nat)
    requires DistinctKeys(items)
    requires forall i :: 0 <= i < |items| ==> items[i].0.Str? && CollectedShape(o, items[i].1, depth + 1)
    requires o.maxDepth.Some? ==> o.maxDepth.value > depth
    ensures CollectedShape(o, Map(Dict, items), depth)
  {
    var r := Map(Dict, items);
    if o.maxDepth.Some? {
      var k := o.maxDepth.value - depth;
      assert forall i :: 0 <= i < |items| ==> EmptyBeyond(items[i].1, k - 1);
      assert EmptyBeyond(r, k);
    }
    if o.maxItems.Some? && o.maxItems.value >= 0 {
      assert ItemsWithin(r, o.maxItems.value);
    }
    assert PlainDicts(r);
  }

  /** The same for a list, tuple, set or frozenset within the item limit. */
  lemma ShapeOfElements(o: WalkOptions, r: Value, depth: nat)
    requires r.Seq? || r.Set?
    requires forall i :: 0 <= i < |r.elems| ==> CollectedShape(o, r.elems[i], depth + 1)
    requires o.maxDepth.Some? ==> o.maxDepth.value > depth
    requires o.maxItems.Some? && o.maxItems.value >= 0 ==> |r.elems| <= o.maxItems.value
    ensures CollectedShape(o, r, depth)
  {
    if o.maxDepth.Some? {
      var k := o.maxDepth.value - depth;
      assert forall i :: 0 <= i < |r.elems| ==> EmptyBeyond(r.elems[i], k - 1);
      assert EmptyBeyond(r, k);
    }
    if o.maxItems.Some? && o.maxItems.value >= 0 {
      assert ItemsWithin(r, o.maxItems.value);
    }
    assert PlainDicts(r);
  }

  lemma {:induction false} ElementsWithinLimits(o: WalkOptions, v: Value, depth: nat)
    requires (v.Seq? || v.Set?) && !AtDepthLimit(o, depth)
    ensures CollectedShape(o, Collected(o, v, depth), depth)
    decreases v, 0
  {
    var order := ChildOrder(v, o);
    var s := CollectedElems(o, v, order, |order|, depth);
    forall i | 0 <= i < |s| ensures CollectedShape(o, s[i], depth + 1) {
      ElemAt(o, v, order, |order|, depth, i);
      var x := v.elems[order[i]];
      if IsContainer(x) {
        CollectedWithinLimits(o, x, depth + 1);
      }
      ChildShape(o, x, depth);
    }
    OrderWithinItems(v, o);
    var r := Collected(o, v, depth);
    if v.Seq? {
      assert r == Seq(v.isTuple, s);
    } else {
      assert r == Set(v.isFrozen, Dedup(s));
      forall i | 0 <= i < |r.elems| ensures CollectedShape(o, r.elems[i], depth + 1) {
        var j := IndexOf(s, r.elems[i]);
      }
    }
    ShapeOfElements(o, r, depth);
  }

  /** A sequence or set shows at most `max_items_per_container` children. */
  lemma OrderWithinItems(v: Value, o: WalkOptions)
    requires v.Seq? || v.Set?
    ensures o.maxItems.Some? && o.maxItems.value >= 0 ==> |ChildOrder(v, o)| <= o.maxItems.value
  {
  }

  // ---------------------------------------------------------------------
  // Sorted keys
  // ---------------------------------------------------------------------

  lemma RangeCountAtMostOne(n: nat, x: nat)
    ensures multiset(Range(n))[x] <= 1
  {
    DistinctCountAtMostOne(Range(n), x);
  }

  /** A list without repeats holds each value at most once. */
  lemma {:induction false} DistinctCountAtMostOne<T>(s: seq<T>, x: T)
    requires Distinct(s)
    ensures multiset(s)[x] <= 1
  {
    if s != [] {
      var init := s[..|s| - 1];
      assert Distinct(init) by {
        forall i, j | 0 <= i < j < |init| ensures init[i] != init[j] {
          assert init[i] == s[i] && init[j] == s[j];
        }
      }
      DistinctCountAtMostOne(init, x);
      assert s == init + [s[|s| - 1]];
      assert multiset(s) == multiset(init) + multiset{s[|s| - 1]};
      if x == s[|s| - 1] {
        assert x !in init by {
          forall i | 0 <= i < |init| ensures init[i] != x {
            assert init[i] == s[i];
          }
        }
        assert multiset(init)[x] == 0;
      }
    }
  }

  /** An arrangement of `0 .. n-1` holds each position once. */
  lemma PermutationDistinct(r: seq<nat>, n: nat)
    requires multiset(r) == multiset(Range(n))
    ensures Distinct(r)
  {
    forall i, j | 0 <= i < j < |r| ensures r[i] != r[j] {
      if r[i] == r[j] {
        assert r == r[..i] + [r[i]] + r[i + 1..j] + [r[j]] + r[j + 1..];
        assert multiset(r)[r[i]] >= 2;
        RangeCountAtMostOne(n, r[i]);
      }
    }
  }

  /** Distinct labels overwrite nothing: the collected entries follow the order one for one. */
  lemma EntriesInOrder(o: WalkOptions, parent: Value, order: seq<nat>, n: nat, depth: nat)
    requires parent.Map? && n <= |order|
    requires forall k :: 0 <= k < |order| ==> order[k] < |parent.items|
    requires forall j1, j2 :: 0 <= j1 < j2 < n ==> EntryFor(o, parent, order, j1, depth).0 != EntryFor(o, parent, order, j2, depth).0
    ensures |CollectedEntries(o, parent, order, n, depth)| == n
    ensures forall j :: 0 <= j < n ==> CollectedEntries(o, parent, order, n, depth)[j] == EntryFor(o, parent, order, j, depth)
  {
    EntriesAssigned(o, parent, order, n, depth);
    var ps := EntryList(o, parent, order, n, depth);
    assert DistinctKeys(ps) by {
      forall i, j | 0 <= i < j < |ps| ensures ps[i].0 != ps[j].0 {
        assert ps[i] == EntryFor(o, parent, order, i, depth);
        assert ps[j] == EntryFor(o, parent, order, j, depth);
      }
    }
    AssignAllDistinct(ps);
  }

  /** Sorting distinct strings: positions come out distinct, texts ascending. */
  lemma SortedStrings(xs: seq<Value>)
    requires forall k :: 0 <= k < |xs| ==> xs[k].Str?
    ensures Distinct(SortedPositions(xs))
    ensures forall i, j :: 0 <= i < j < |SortedPositions(xs)| ==>
      StrLe(PyStr(xs[SortedPositions(xs)[i]]), PyStr(xs[SortedPositions(xs)[j]]))
  {
    var order := SortedPositions(xs);
    var key := PositionKey(xs);
    assert order == SortBy<nat>(Range(|xs|), key);
    PermutationDistinct(order, |xs|);
    SortBySorted(Range(|xs|), key);
    assert NativelySortable(xs);
    forall i, j | 0 <= i < j < |order| ensures StrLe(PyStr(xs[order[i]]), PyStr(xs[order[j]])) {
      assert KeyLe(key(order[i]), key(order[j]));
      assert key(order[i]) == [Txt(PyStr(xs[order[i]]))];
      assert key(order[j]) == [Txt(PyStr(xs[order[j]]))];
      if PyStr(xs[order[i]]) == PyStr(xs[order[j]]) {
        StrLeReflexive(PyStr(xs[order[i]]));
      }
    }
  }

  lemma {:induction false} StrLeReflexive(a: string)
    ensures StrLe(a, a)
    decreases |a|
  {
    if a != [] {
      StrLeReflexive(a[1..]);
    }
  }

  /** With `sort_keys` and string keys, the collected dict holds every entry
      once, its keys in ascending order, each with its collected value. */
  lemma SortedStringKeys(o: WalkOptions, v: Value, depth: nat)
    requires v.Map? && o.sortKeys && !AtDepthLimit(o, depth)
    requires forall k :: 0 <= k < |v.items| ==> v.items[k].0.Str?
    requires DistinctKeys(v.items)
    ensures |Collected(o, v, depth).items| == |v.items|
    ensures forall i :: 0 <= i < |Collected(o, v, depth).items| ==>
      (exists k :: 0 <= k < |v.items| &&
        Collected(o, v, depth).items[i] == (v.items[k].0, CollectedChild(o, v.items[k].1, depth)))
    ensures forall i, j :: 0 <= i < j < |Collected(o, v, depth).items| ==>
      StrLe(PyStr(Collected(o, v, depth).items[i].0), PyStr(Collected(o, v, depth).items[j].0))
  {
    var order := ChildOrder(v, o);
    assert order == SortedPositions(MapKeys(v.items));
    SortedStrings(MapKeys(v.items));
    var r := CollectedEntries(o, v, order, |order|, depth);
    assert Collected(o, v, depth).items == r;
    StringEntriesInOrder(o, v, order, depth);
    forall i, j | 0 <= i < j < |r| ensures StrLe(PyStr(r[i].0), PyStr(r[j].0)) {
      assert PyStr(r[i].0) == PyStr(MapKeys(v.items)[order[i]]);
      assert PyStr(r[j].0) == PyStr(MapKeys(v.items)[order[j]]);
    }
  }

  /** With string keys and distinct positions in `order`, the collected
      entries follow `order` one for one, each under its own key. */
  lemma StringEntriesInOrder(o: WalkOptions, v: Value, order: seq<nat>, depth: nat)
    requires v.Map? && Distinct(order) && |order| == |v.items|
    requires forall j :: 0 <= j < |order| ==> order[j] < |v.items|
    requires forall k :: 0 <= k < |v.items| ==> v.items[k].0.Str?
    requires DistinctKeys(v.items)
    ensures |CollectedEntries(o, v, order, |order|, depth)| == |order|
    ensures forall i :: 0 <= i < |order| ==>
      CollectedEntries(o, v, order, |order|, depth)[i] == (v.items[order[i]].0, CollectedChild(o, v.items[order[i]].1, depth))
  {
    forall j1, j2 | 0 <= j1 < j2 < |order|
      ensures EntryFor(o, v, order, j1, depth).0 != EntryFor(o, v, order, j2, depth).0
    {
      assert order[j1] != order[j2];
    }
    EntriesInOrder(o, v, order, |order|, depth);
    var r := CollectedEntries(o, v, order, |order|, depth);
    forall i | 0 <= i < |order|
      ensures r[i] == (v.items[order[i]].0, CollectedChild(o, v.items[order[i]].1, depth))
    {
      assert r[i] == EntryFor(o, v, order, i, depth);
    }
  }

  // ---------------------------------------------------------------------
  // The printed tree
  // ---------------------------------------------------------------------

  /** `line` begins with `prefix` and goes on past it. */
  predicate Under(line: string, prefix: string) {
    |line| > |prefix| && line[..|prefix|] == prefix
  }

  /** How many of `lines` have the character `g` at position `pos`. */
  function CountAt(lines: seq<string>, pos: nat, g: char): nat {
    if lines == [] then 0
    else
      var last := lines[|lines| - 1];
      CountAt(lines[..|lines| - 1], pos, g) + if |last| > pos && last[pos] == g then 1 else 0
  }

  lemma {:induction false} CountAtConcat(a: seq<string>, b: seq<string>, pos: nat, g: char)
    ensures CountAt(a + b, pos, g) == CountAt(a, pos, g) + CountAt(b, pos, g)
    decreases |b|
  {
    if b != [] {
      assert (a + b)[..|a + b| - 1] == a + b[..|b| - 1];
      assert (a + b)[|a + b| - 1] == b[|b| - 1];
      CountAtConcat(a, b[..|b| - 1], pos, g);
    } else {
      assert a + b == a;
    }
  }

  lemma {:induction false} CountAtNone(lines: seq<string>, pos: nat, g: char)
    requires forall i :: 0 <= i < |lines| ==> |lines[i]| > pos && lines[i][pos] != g
    ensures CountAt(lines, pos, g) == 0
  {
    if lines != [] {
      CountAtNone(lines[..|lines| - 1], pos, g);
    }
  }

  lemma UnderLonger(line: string, prefix: string, ext: string)
    requires Under(line, prefix + ext)
    ensures Under(line, prefix) && line[|prefix|..|prefix| + |ext|] == ext
  {
    assert line[..|prefix|] == (prefix + ext)[..|prefix|];
    assert line[|prefix|..|prefix| + |ext|] == (prefix + ext)[|prefix|..];
  }

  /** Below the root, every line of a container's subtree starts with its prefix. */
  lemma {:induction false} LinesUnderPrefix(o: WalkOptions, v: Value, depth: nat, prefix: string)
    requires IsContainer(v)
    ensures forall i :: 0 <= i < |TreeLines(o, v, depth, prefix, false)| ==>
      Under(TreeLines(o, v, depth, prefix, false)[i], prefix)
    decreases v, 2, 0
  {
    if !AtDepthLimit(o, depth) {
      var order := ChildOrder(v, o);
      ChildrenUnderPrefix(o, v, order, |order|, depth, prefix);
    }
  }

  lemma {:induction false} ChildrenUnderPrefix(o: WalkOptions, parent: Value, order: seq<nat>, n: nat, depth: nat, prefix: string)
    requires IsContainer(parent) && n <= |order|
    requires forall j :: 0 <= j < |order| ==> order[j] < NumChildren(parent)
    ensures forall i :: 0 <= i < |ChildrenLines(o, parent, order, n, depth, prefix)| ==>
      Under(ChildrenLines(o, parent, order, n, depth, prefix)[i], prefix)
    decreases parent, 1, n
  {
    if n > 0 {
      var k := n - 1;
      ChildrenUnderPrefix(o, parent, order, k, depth, prefix);
      BlockShape(o, parent, order, k, depth, prefix);
      var a := ChildrenLines(o, parent, order, k, depth, prefix);
      var b := ChildBlock(o, parent, order, k, depth, prefix);
      var isLast := k == |order| - 1;
      BlockUnder(b, prefix, Connector(isLast), Extension(isLast));
      assert ChildrenLines(o, parent, order, n, depth, prefix) == a + b;
      AllUnderConcat(a, b, prefix);
    }
  }

  /** A block whose first line is under `prefix + first` and the rest under
      `prefix + rest` lies under `prefix`. */
  lemma BlockUnder(b: seq<string>, prefix: string, first: string, rest: string)
    requires |b| >= 1 && Under(b[0], prefix + first)
    requires forall i :: 1 <= i < |b| ==> Under(b[i], prefix + rest)
    ensures forall i :: 0 <= i < |b| ==> Under(b[i], prefix)
  {
    forall i | 0 <= i < |b| ensures Under(b[i], prefix) {
      if i == 0 {
        UnderLonger(b[0], prefix, first);
      } else {
        UnderLonger(b[i], prefix, rest);
      }
    }
  }

  lemma AllUnderConcat(a: seq<string>, b: seq<string>, prefix: string)
    requires forall i :: 0 <= i < |a| ==> Under(a[i], prefix)
    requires forall i :: 0 <= i < |b| ==> Under(b[i], prefix)
    ensures forall i :: 0 <= i < |a + b| ==> Under((a + b)[i], prefix)
  {
    forall i | 0 <= i < |a + b| ensures Under((a + b)[i], prefix) {
      if i >= |a| {
        assert (a + b)[i] == b[i - |a|];
      }
    }
  }

  /** A child's block: its first line starts with the prefix and `└─ ` (last
      child) or `├─ ` (any other); the lines of a nested container follow,
      each under the prefix extended by `   ` (last child) or `│  `; a leaf
      child takes exactly one line. */
  lemma {:induction false} BlockShape(o: WalkOptions, parent: Value, order: seq<nat>, j: nat, depth: nat, prefix: string)
    requires IsContainer(parent) && j < |order|
    requires forall k :: 0 <= k < |order| ==> order[k] < NumChildren(parent)
    ensures |ChildBlock(o, parent, order, j, depth, prefix)| >= 1
    ensures Under(ChildBlock(o, parent, order, j, depth, prefix)[0], prefix + Connector(j == |order| - 1))
    ensures forall i :: 1 <= i < |ChildBlock(o, parent, order, j, depth, prefix)| ==>
      Under(ChildBlock(o, parent, order, j, depth, prefix)[i], prefix + Extension(j == |order| - 1))
    ensures !IsContainer(Nth(parent, order[j])) ==> |ChildBlock(o, parent, order, j, depth, prefix)| == 1
    decreases parent, 0, 0
  {
    var isLast := j == |order| - 1;
    var child := Nth(parent, order[j]);
    var p := prefix + Connector(isLast);
    var head := p + ChildLabel(parent, j, order[j]);
    var b := ChildBlock(o, parent, order, j, depth, prefix);
    StartsWith(p, p, ChildLabel(parent, j, order[j]));
    if IsContainer(child) {
      var nested := TreeLines(o, child, depth + 1, prefix + Extension(isLast), false);
      var line := head + " " + NodeTag(child, o.showLengths);
      assert b == [line] + nested;
      StartsWith(head, p, " ");
      StartsWith(head + " ", p, NodeTag(child, o.showLengths));
      LinesUnderPrefix(o, child, depth + 1, prefix + Extension(isLast));
      HeadedBlock(b, p, line, nested, prefix + Extension(isLast));
    } else {
      var line := head + ": " + RenderValue(child, o.quoteStrings, o.truncateLen) + TypeSuffix(o, child);
      assert b == [line];
      StartsWith(head, p, ": ");
      StartsWith(head + ": ", p, RenderValue(child, o.quoteStrings, o.truncateLen));
      StartsWith(head + ": " + RenderValue(child, o.quoteStrings, o.truncateLen), p, TypeSuffix(o, child));
      HeadedBlock(b, p, line, [], prefix + Extension(isLast));
    }
  }

  /** Appending to a line keeps the start it has. */
  lemma StartsWith(line: string, p: string, t: string)
    requires |line| >= |p| && line[..|p|] == p
    ensures |line + t| >= |p| && (line + t)[..|p|] == p
  {
    assert (line + t)[..|p|] == line[..|p|];
  }

  /** A first line that extends `p`, followed by lines under `q`. */
  lemma HeadedBlock(b: seq<string>, p: string, line: string, rest: seq<string>, q: string)
    requires b == [line] + rest && |line| > |p| && line[..|p|] == p
    requires forall i :: 0 <= i < |rest| ==> Under(rest[i], q)
    ensures |b| == 1 + |rest| && Under(b[0], p)
    ensures forall i :: 1 <= i < |b| ==> Under(b[i], q)
  {
    forall i | 1 <= i < |b| ensures Under(b[i], q) {
      assert b[i] == rest[i - 1];
    }
  }

  /** Counting the connectors of one block of lines shaped like a child's:
      one, and `└─ ` exactly for the last child. */
  lemma ShapedBlockConnectors(b: seq<string>, prefix: string, isLast: bool)
    requires |b| >= 1 && Under(b[0], prefix + Connector(isLast))
    requires forall i :: 1 <= i < |b| ==> Under(b[i], prefix + Extension(isLast))
    ensures CountAt(b, |prefix|, '\U{2514}') == if isLast then 1 else 0
    ensures CountAt(b, |prefix|, '\U{251C}') == if isLast then 0 else 1
  {
    UnderLonger(b[0], prefix, Connector(isLast));
    assert b[0][|prefix|] == Connector(isLast)[0];
    var x := Extension(isLast)[0];
    forall i | 1 <= i < |b| ensures |b[i]| > |prefix| && b[i][|prefix|] == x {
      UnderLonger(b[i], prefix, Extension(isLast));
    }
    HeadCount(b, |prefix|, '\U{2514}');
    HeadCount(b, |prefix|, '\U{251C}');
  }

  /** When no line after the first has `g` at `pos`, only the first can count. */
  lemma HeadCount(b: seq<string>, pos: nat, g: char)
    requires |b| >= 1 && |b[0]| > pos
    requires forall i :: 1 <= i < |b| ==> |b[i]| > pos && b[i][pos] != g
    ensures CountAt(b, pos, g) == if b[0][pos] == g then 1 else 0
  {
    var rest := b[1..];
    forall i | 0 <= i < |rest| ensures |rest[i]| > pos && rest[i][pos] != g {
      assert rest[i] == b[i + 1];
    }
    CountAtNone(rest, pos, g);
    assert b == [b[0]] + rest;
    CountAtConcat([b[0]], rest, pos, g);
    assert [b[0]][..0] == [];
  }

  /** Counting the connectors of one child's block. */
  lemma BlockConnectors(o: WalkOptions, parent: Value, order: seq<nat>, j: nat, depth: nat, prefix: string)
    requires IsContainer(parent) && j < |order|
    requires forall k :: 0 <= k < |order| ==> order[k] < NumChildren(parent)
    ensures CountAt(ChildBlock(o, parent, order, j, depth, prefix), |prefix|, '\U{2514}')
      == if j == |order| - 1 then 1 else 0
    ensures CountAt(ChildBlock(o, parent, order, j, depth, prefix), |prefix|, '\U{251C}')
      == if j == |order| - 1 then 0 else 1
  {
    BlockShape(o, parent, order, j, depth, prefix);
    ShapedBlockConnectors(ChildBlock(o, parent, order, j, depth, prefix), prefix, j == |order| - 1);
  }

  lemma {:induction false} ChildrenConnectors(o: WalkOptions, parent: Value, order: seq<nat>, n: nat, depth: nat, prefix: string)
    requires IsContainer(parent) && n <= |order|
    requires forall j :: 0 <= j < |order| ==> order[j] < NumChildren(parent)
    ensures CountAt(ChildrenLines(o, parent, order, n, depth, prefix), |prefix|, '\U{2514}')
      == if 0 < n == |order| then 1 else 0
    ensures CountAt(ChildrenLines(o, parent, order, n, depth, prefix), |prefix|, '\U{251C}')
      == if 0 < n == |order| then n - 1 else n
  {
    if n > 0 {
      var k := n - 1;
      ChildrenConnectors(o, parent, order, k, depth, prefix);
      BlockConnectors(o, parent, order, k, depth, prefix);
      var a := ChildrenLines(o, parent, order, k, depth, prefix);
      var b := ChildBlock(o, parent, order, k, depth, prefix);
      assert ChildrenLines(o, parent, order, n, depth, prefix) == a + b;
      CountAtConcat(a, b, |prefix|, '\U{2514}');
      CountAtConcat(a, b, |prefix|, '\U{251C}');
      if n == |order| {
        assert CountAt(a, |prefix|, '\U{2514}') == 0;
      }
    }
  }

  /** Below the root, a container within the depth limit prints one connector
      line per labelled child: `└─ ` once, for the last, and `├─ ` for all the
      others; at the depth limit it prints nothing. */
  lemma Connectors(o: WalkOptions, v: Value, depth: nat, prefix: string)
    requires IsContainer(v)
    ensures AtDepthLimit(o, depth) ==> TreeLines(o, v, depth, prefix, false) == []
    ensures !AtDepthLimit(o, depth) ==>
      && CountAt(TreeLines(o, v, depth, prefix, false), |prefix|, '\U{2514}')
        == (if |ChildrenWithLabels(v, o)| > 0 then 1 else 0)
      && CountAt(TreeLines(o, v, depth, prefix, false), |prefix|, '\U{2514}')
        + CountAt(TreeLines(o, v, depth, prefix, false), |prefix|, '\U{251C}')
        == |ChildrenWithLabels(v, o)|
  {
    if !AtDepthLimit(o, depth) {
      var order := ChildOrder(v, o);
      ChildrenConnectors(o, v, order, |order|, depth, prefix);
      assert TreeLines(o, v, depth, prefix, false) == [] + ChildrenLines(o, v, order, |order|, depth, prefix);
      assert [] + ChildrenLines(o, v, order, |order|, depth, prefix) == ChildrenLines(o, v, order, |order|, depth, prefix);
    }
  }

  /** At the root, a container prints its tag first, and nothing more at the
      depth limit; a leaf prints its rendered value (and type) alone. */
  lemma RootLines(o: WalkOptions, v: Value, depth: nat)
    ensures IsContainer(v) ==>
      && |TreeLines(o, v, depth, "", true)| >= 1
      && TreeLines(o, v, depth, "", true)[0] == NodeTag(v, o.showLengths)
      && (AtDepthLimit(o, depth) ==> |TreeLines(o, v, depth, "", true)| == 1)
    ensures !IsContainer(v) ==>
      TreeLines(o, v, depth, "", true) == [RenderValue(v, o.quoteStrings, o.truncateLen) + TypeSuffix(o, v)]
  {
  }

  /** The printer shows exactly the elements the collector keeps: a list or
      tuple within the depth limit prints one connector line per collected element. */
  lemma PrintMirrorsCollect(o: WalkOptions, v: Value, depth: nat, prefix: string)
    requires v.Seq? && !AtDepthLimit(o, depth)
    ensures CountAt(TreeLines(o, v, depth, prefix, false), |prefix|, '\U{2514}')
      + CountAt(TreeLines(o, v, depth, prefix, false), |prefix|, '\U{251C}')
      == |Collected(o, v, depth).elems|
  {
    Connectors(o, v, depth, prefix);
    SequencePrefix(o, v, depth);
  }

  // ---------------------------------------------------------------------
  // Rendering leaves
  // ---------------------------------------------------------------------

  /** The escaping `quote_strings` intends, in one pass: `\` becomes `\\`
      and `"` becomes `\"`. */
  function Escaped(s: string): string {
    if s == [] then ""
    else (if s[0] == '\\' then "\\\\" else if s[0] == '"' then "\\\"" else [s[0]]) + Escaped(s[1..])
  }

  /** Reads escaped text back: a backslash takes the next character literally. */
  function Unescaped(s: string): string {
    if s == [] then ""
    else if |s| >= 2 && s[0] == '\\' then [s[1]] + Unescaped(s[2..])
    else [s[0]] + Unescaped(s[1..])
  }

  lemma {:induction false} ReplaceConcat(a: string, b: string, c: char, sub: string)
    ensures Replace(a + b, c, sub) == Replace(a, c, sub) + Replace(b, c, sub)
    decreases |a|
  {
    if a == [] {
      assert a + b == b;
    } else {
      assert (a + b)[1..] == a[1..] + b;
      ReplaceConcat(a[1..], b, c, sub);
    }
  }

  /** Escaping backslashes first and quotes second is the one-pass escape. */
  lemma {:induction false} TwoPassEscape(s: string)
    ensures Replace(Replace(s, '\\', "\\\\"), '"', "\\\"") == Escaped(s)
  {
    if s != [] {
      var x := if s[0] == '\\' then "\\\\" else [s[0]];
      var first := Replace(s[1..], '\\', "\\\\");
      assert Replace(s, '\\', "\\\\") == x + first;
      ReplaceConcat(x, first, '"', "\\\"");
      TwoPassEscape(s[1..]);
      if s[0] == '\\' {
        assert Replace(x, '"', "\\\"") == "\\\\";
      } else {
        assert Replace(x, '"', "\\\"") == if s[0] == '"' then "\\\"" else [s[0]];
      }
    }
  }

  /** The escaped text reads back as the original. */
  lemma {:induction false} EscapeRoundTrip(s: string)
    ensures Unescaped(Escaped(s)) == s
  {
    if s != [] {
      var x := if s[0] == '\\' then "\\\\" else if s[0] == '"' then "\\\"" else [s[0]];
      var e := x + Escaped(s[1..]);
      assert Escaped(s) == e;
      EscapeRoundTrip(s[1..]);
      if s[0] == '\\' || s[0] == '"' {
        assert e[2..] == Escaped(s[1..]);
      } else {
        assert e[1..] == Escaped(s[1..]);
      }
      assert s == [s[0]] + s[1..];
    }
  }

  /** `_render_value` on a string: truncated first (to `truncate_value_len`
      characters and an ellipsis), then, with `quote_strings`, escaped and put
      in double quotes in a way that reads back as the truncated text. Any
      other leaf renders as its truncated `str()`. */
  lemma RenderValueMeaning(v: Value, quote: bool, limit: Option<int>)
    ensures v.Str? && quote ==>
      && RenderValue(v, quote, limit) == "\"" + Escaped(Truncate(v.s, limit)) + "\""
      && Unescaped(RenderValue(v, quote, limit)[1..|RenderValue(v, quote, limit)| - 1]) == Truncate(v.s, limit)
    ensures v.Str? && !quote ==> RenderValue(v, quote, limit) == Truncate(v.s, limit)
    ensures !v.Str? ==> RenderValue(v, quote, limit) == Truncate(PyStr(v), limit)
  {
    if v.Str? && quote {
      var t := Truncate(v.s, limit);
      TwoPassEscape(t);
      EscapeRoundTrip(t);
      var r := RenderValue(v, quote, limit);
      assert r == "\"" + Escaped(t) + "\"";
      assert r[1..|r| - 1] == Escaped(t);
    }
  }

  /** With lengths shown, a container's tag is a ten-character head naming its
      kind, the number of its children in decimal, and a closing bracket. */
  lemma NodeTagReadBack(v: Value)
    requires IsContainer(v)
    ensures var t := NodeTag(v, true);
      && |t| >= 12 && t[|t| - 1] == ']'
      && t[..10] == (if v.Map? then "[dict len=" else if v.Seq? then "[list len=" else "[set size=")
      && t[10..|t| - 1] == NatToString(NumChildren(v))
  {
    var t := NodeTag(v, true);
    var head := if v.Map? then "[dict len=" else if v.Seq? then "[list len=" else "[set size=";
    var count := NatToString(NumChildren(v));
    assert t == head + count + "]";
    assert t[..10] == head && t[10..|t| - 1] == count;
  }

  /** The tag tells the kind of container, and with lengths shown also how
      many children it has. */
  lemma NodeTagInjective(a: Value, b: Value, showLengths: bool)
    requires IsContainer(a) && IsContainer(b) && NodeTag(a, showLengths) == NodeTag(b, showLengths)
    ensures a.Map? == b.Map? && a.Seq? == b.Seq? && a.Set? == b.Set?
    ensures showLengths ==> NumChildren(a) == NumChildren(b)
  {
    var t := NodeTag(a, showLengths);
    if showLengths {
      NodeTagReadBack(a);
      NodeTagReadBack(b);
      assert "[dict len="[1] != "[list len="[1] && "[dict len="[1] != "[set size="[1] && "[list len="[1] != "[set size="[1];
      NatToStringInjective(NumChildren(a), NumChildren(b));
    } else {
      assert t[1] == (if a.Map? then 'd' else if a.Seq? then 'l' else 's');
    }
  }
}
