/** `prune_data`: recursively drop selected mapping keys, selected values and
    (optionally) empty values from nested containers, under a depth limit. */
module Prune {
  import opened Outcomes
  import opened Values

  // ---------------------------------------------------------------------
  // Removal specifications and their predicates (`make_predicate`)
  // ---------------------------------------------------------------------

  /** What a caller passes as `keys_to_remove` or `values_to_remove`. */
  datatype RemovalSpec =
    | NoSpec
      /** A callable, taken as a pure total predicate. */
    | Callable(f: Value -> bool)
      /** Any iterable, as `list(obj)` materialises it. */
    | Literals(items: seq<Value>)
      /** An object that is neither callable nor iterable. */
    | NotIterable

  /** A normalised predicate and whether it is structurally empty. */
  datatype Matcher = Matcher(test: Value -> bool, isEmpty: bool)

  /** The message of the `TypeError` for an argument that cannot be a predicate. */
  function NotIterableMessage(errorLabel: string): string {
    errorLabel + " must be Iterable or Callable"
  }

  /** `make_predicate(obj, error_label)`. */
  function MakePredicate(spec: RemovalSpec, errorLabel: string): (r: Result<Matcher>)
    ensures r.Failure? <==> spec.NotIterable?
    ensures r.Failure? ==> r.error == TypeError(NotIterableMessage(errorLabel))
    ensures spec.NoSpec? ==> r.Success? && r.value.isEmpty && forall x :: !r.value.test(x)
    ensures spec.Callable? ==>
      r.Success? && !r.value.isEmpty && forall x :: r.value.test(x) == spec.f(x)
    ensures spec.Literals? ==>
      && r.Success?
      && (r.value.isEmpty <==> |spec.items| == 0)
      && forall x :: r.value.test(x) <==> x in spec.items
  {
    match spec
    case NoSpec => Success(Matcher(_ => false, true))
    case Callable(f) => Success(Matcher(f, false))
    case Literals(items) => Success(Matcher(x => x in items, |items| == 0))
    case NotIterable => Failure(TypeError(NotIterableMessage(errorLabel)))
  }

  // ---------------------------------------------------------------------
  // The recursive kernel (`process`) as a specification
  // ---------------------------------------------------------------------

  /** The settings `process` closes over. `maxDepth` is `None` for no limit. */
  datatype Config = Config(
    keyTest: Value -> bool,
    valueTest: Value -> bool,
    removeEmpty: bool,
    maxDepth: Option<nat>)

  /** Keys of a mapping at depth `d` may be filtered (`container_depth <= max_depth`). */
  predicate CanFilter(c: Config, d: nat) {
    c.maxDepth.None? || d <= c.maxDepth.value
  }

  /** Children of a container at depth `d` are processed (`container_depth < max_depth`). */
  predicate CanRecurse(c: Config, d: nat) {
    c.maxDepth.None? || d < c.maxDepth.value
  }

  predicate KeyDropped(c: Config, d: nat, k: Value) {
    CanFilter(c, d) && c.keyTest(k)
  }

  /** After processing, a mapping keeps a value unless it is empty (with
      `remove_empty`) or it is neither a sequence nor a set and the value
      predicate matches it. */
  predicate KeepInMapping(c: Config, child: Value) {
    && !(c.removeEmpty && IsEmpty(child))
    && (IsSequence(child) || IsSetLike(child) || !c.valueTest(child))
  }

  /** A sequence keeps an element unless it is empty (with `remove_empty`) or matched. */
  predicate KeepInSequence(c: Config, child: Value) {
    !(c.removeEmpty && IsEmpty(child)) && !c.valueTest(child)
  }

  /** A set keeps what a sequence keeps, provided it is hashable. */
  predicate KeepInSet(c: Config, child: Value) {
    KeepInSequence(c, child) && Hashable(child)
  }

  /** A mapping is rebuilt as `dict` when it is one, as its own class when
      that class accepts the list of pairs, and as `dict` otherwise. */
  function RebuiltKind(k: MapKind): MapKind {
    match k
    case Dict => Dict
    case DictSubclass => Dict
    case Rebuildable => Rebuildable
    case Unbuildable => Dict
  }

  /** The value of a mapping entry or a sequence element after the depth gate. */
  function Child(c: Config, v: Value, d: nat): Value
    decreases v, 3
  {
    if CanRecurse(c, d) then Pruned(c, v, d + 1) else v
  }

  /** A set element after the depth gate: set-like elements are never entered. */
  function SetChild(c: Config, v: Value, d: nat): Value
    decreases v, 3
  {
    if CanRecurse(c, d) && !v.Set? then Pruned(c, v, d + 1) else v
  }

  /** `process(obj, container_depth)`. */
  function Pruned(c: Config, v: Value, d: nat): (r: Value)
    ensures v.Map? ==> r.Map? && r.kind == RebuiltKind(v.kind)
    ensures v.Seq? ==> r.Seq? && r.isTuple == v.isTuple
    ensures v.Set? ==> r.Set? && r.isFrozen == v.isFrozen
    ensures !IsContainer(v) ==> r == v
    decreases v, 2
  {
    match v
    case Map(kind, items) => Map(RebuiltKind(kind), PrunedItems(c, v, |items|, d))
    case Seq(isTuple, elems) => Seq(isTuple, PrunedElems(c, v, |elems|, d))
    case Set(isFrozen, elems) => Set(isFrozen, Dedup(PrunedSetElems(c, v, |elems|, d)))
    case _ => v
  }

  /** The surviving entries among the first `n` of mapping `parent`. */
  function PrunedItems(c: Config, parent: Value, n: nat, d: nat): seq<(Value, Value)>
    requires parent.Map? && n <= |parent.items|
    decreases parent, 0, n
  {
    if n == 0 then []
    else
      var k := parent.items[n - 1].0;
      var child := Child(c, parent.items[n - 1].1, d);
      PrunedItems(c, parent, n - 1, d)
        + (if KeyDropped(c, d, k) || !KeepInMapping(c, child) then [] else [(k, child)])
  }

  /** The surviving elements among the first `n` of sequence `parent`. */
  function PrunedElems(c: Config, parent: Value, n: nat, d: nat): seq<Value>
    requires parent.Seq? && n <= |parent.elems|
    decreases parent, 0, n
  {
    if n == 0 then []
    else
      var child := Child(c, parent.elems[n - 1], d);
      PrunedElems(c, parent, n - 1, d) + (if KeepInSequence(c, child) then [child] else [])
  }

  /** The surviving elements among the first `n` of set `parent`, before `set(...)`. */
  function PrunedSetElems(c: Config, parent: Value, n: nat, d: nat): seq<Value>
    requires parent.Set? && n <= |parent.elems|
    decreases parent, 0, n
  {
    if n == 0 then []
    else
      var child := SetChild(c, parent.elems[n - 1], d);
      PrunedSetElems(c, parent, n - 1, d) + (if KeepInSet(c, child) then [child] else [])
  }

  /** `empty_like(obj)`: an empty value of the same kind as `obj`. */
  function EmptyLike(v: Value): (r: Value)
    ensures v.Map? ==> r.Map? && r.items == [] && r.kind == (if v.kind == Unbuildable then Dict else v.kind)
    ensures v.Seq? ==> r == Seq(v.isTuple, [])
    ensures v.Set? ==> r == Set(v.isFrozen, [])
    ensures v.Str? ==> r == Str("")
    ensures !IsContainer(v) && !v.Str? ==> r == v
  {
    match v
    case Map(kind, _) => Map(if kind == Unbuildable then Dict else kind, [])
    case Seq(isTuple, _) => Seq(isTuple, [])
    case Set(isFrozen, _) => Set(isFrozen, [])
    case Str(_) => Str("")
    case _ => v
  }

  /** The root call `process(data, 0)`, and the `empty_like` substitution under `remove_empty`. */
  function PrunedRoot(c: Config, data: Value): Value {
    var root := Pruned(c, data, 0);
    if c.removeEmpty && IsEmpty(root) then EmptyLike(data) else root
  }

  predicate NegativeDepth(maxDepth: Option<int>) {
    maxDepth.Some? && maxDepth.value < 0
  }

  /** The configuration `prune_data` runs `process` with, once its arguments are validated. */
  function ConfigOf(k: Matcher, v: Matcher, removeEmpty: bool, maxDepth: Option<int>): Config
    requires !NegativeDepth(maxDepth)
  {
    Config(k.test, v.test, removeEmpty, if maxDepth.None? then None else Some(maxDepth.value as nat))
  }

  predicate IsNoOp(k: Matcher, v: Matcher, removeEmpty: bool) {
    k.isEmpty && v.isEmpty && !removeEmpty
  }

  /** `prune_data(data, keys_to_remove, values_to_remove, remove_empty, max_depth=...)`. */
  function PruneResult(
    data: Value, keys: RemovalSpec, values: RemovalSpec, removeEmpty: bool, maxDepth: Option<int>
  ): (r: Result<Value>)
  {
    if NegativeDepth(maxDepth) then Failure(ValueError("max_depth cannot be negative"))
    else
      var km := MakePredicate(keys, "keys_to_remove");
      var vm := MakePredicate(values, "values_to_remove");
      if km.Failure? then Failure(km.error)
      else if vm.Failure? then Failure(vm.error)
      else if IsNoOp(km.value, vm.value, removeEmpty) then Success(data)
      else Success(PrunedRoot(ConfigOf(km.value, vm.value, removeEmpty, maxDepth), data))
  }

  /** `prune_data` raises exactly when `max_depth` is negative or a removal
      argument is neither iterable nor callable, checked in that order. */
  lemma PruneErrors(
    data: Value, keys: RemovalSpec, values: RemovalSpec, removeEmpty: bool, maxDepth: Option<int>)
    ensures var r := PruneResult(data, keys, values, removeEmpty, maxDepth);
      && (r.Failure? <==> NegativeDepth(maxDepth) || keys.NotIterable? || values.NotIterable?)
      && (NegativeDepth(maxDepth) ==> r == Failure(ValueError("max_depth cannot be negative")))
      && (!NegativeDepth(maxDepth) && keys.NotIterable? ==>
            r == Failure(TypeError(NotIterableMessage("keys_to_remove"))))
      && (!NegativeDepth(maxDepth) && !keys.NotIterable? && values.NotIterable? ==>
            r == Failure(TypeError(NotIterableMessage("values_to_remove"))))
  {
  }

  /** With nothing to remove and `remove_empty` off, the input itself is returned. */
  lemma PruneNoOp(data: Value, keys: RemovalSpec, values: RemovalSpec, maxDepth: Option<int>)
    requires !NegativeDepth(maxDepth)
    requires keys.NoSpec? || keys == Literals([])
    requires values.NoSpec? || values == Literals([])
    ensures PruneResult(data, keys, values, false, maxDepth) == Success(data)
  {
  }

  // ---------------------------------------------------------------------
  // The imperative kernel, proved equal to the specification
  // ---------------------------------------------------------------------

  /** `process`: the loops that fill `result_items`, `result_list` and `result_set_items`. */
  method Process(c: Config, v: Value, d: nat) returns (r: Value)
    ensures r == Pruned(c, v, d)
    decreases v, 1
  {
    match v {
      case Map(kind, items) =>
        var resultItems := ProcessItems(c, v, d);
        if kind == Dict || kind == DictSubclass {
          r := Map(Dict, resultItems);
        } else if kind == Rebuildable {
          r := Map(kind, resultItems);
        } else {
          r := Map(Dict, resultItems);
        }
      case Seq(isTuple, elems) =>
        var resultList := ProcessElems(c, v, d);
        r := Seq(isTuple, resultList);
      case Set(isFrozen, elems) =>
        var resultSetItems := ProcessSetElems(c, v, d);
        r := Set(isFrozen, Dedup(resultSetItems));
      case _ =>
        r := v;
    }
  }

  /** The mapping branch of `process`: the loop that fills `result_items`. */
  method ProcessItems(c: Config, v: Value, d: nat) returns (resultItems: seq<(Value, Value)>)
    requires v.Map?
    ensures resultItems == PrunedItems(c, v, |v.items|, d)
    decreases v, 0
  {
    var items := v.items;
    var canFilter := CanFilter(c, d);
    var canRecurse := CanRecurse(c, d);
    resultItems := [];
    var i := 0;
    while i < |items|
      invariant 0 <= i <= |items|
      invariant resultItems == PrunedItems(c, v, i, d)
    {
      var k := items[i].0;
      if !(canFilter && c.keyTest(k)) {
        var child := items[i].1;
        if canRecurse {
          child := Process(c, items[i].1, d + 1);
        }
        var skip := c.removeEmpty && IsEmpty(child);
        if !skip && !IsSequence(child) && !IsSetLike(child) && c.valueTest(child) {
          skip := true;
        }
        if !skip {
          resultItems := resultItems + [(k, child)];
        }
      }
      i := i + 1;
    }
  }

  /** The list and tuple branch of `process`: the loop that fills `result_list`. */
  method ProcessElems(c: Config, v: Value, d: nat) returns (resultList: seq<Value>)
    requires v.Seq?
    ensures resultList == PrunedElems(c, v, |v.elems|, d)
    decreases v, 0
  {
    var elems := v.elems;
    var canRecurse := CanRecurse(c, d);
    resultList := [];
    var i := 0;
    while i < |elems|
      invariant 0 <= i <= |elems|
      invariant resultList == PrunedElems(c, v, i, d)
    {
      var child := elems[i];
      if canRecurse {
        child := Process(c, elems[i], d + 1);
      }
      if !(c.removeEmpty && IsEmpty(child)) && !c.valueTest(child) {
        resultList := resultList + [child];
      }
      i := i + 1;
    }
  }

  /** The set branch of `process`: the loop that fills `result_set_items`. */
  method ProcessSetElems(c: Config, v: Value, d: nat) returns (resultSetItems: seq<Value>)
    requires v.Set?
    ensures resultSetItems == PrunedSetElems(c, v, |v.elems|, d)
    decreases v, 0
  {
    var elems := v.elems;
    var canRecurse := CanRecurse(c, d);
    resultSetItems := [];
    var i := 0;
    while i < |elems|
      invariant 0 <= i <= |elems|
      invariant resultSetItems == PrunedSetElems(c, v, i, d)
    {
      var child := elems[i];
      if canRecurse && !elems[i].Set? {
        child := Process(c, elems[i], d + 1);
      }
      if !(c.removeEmpty && IsEmpty(child)) && !c.valueTest(child) && Hashable(child) {
        resultSetItems := resultSetItems + [child];
      }
      i := i + 1;
    }
  }

  /** `prune_data`, running the imperative kernel. */
  method PruneData(
    data: Value, keys: RemovalSpec, values: RemovalSpec, removeEmpty: bool, maxDepth: Option<int>
  ) returns (r: Result<Value>)
    ensures r == PruneResult(data, keys, values, removeEmpty, maxDepth)
  {
    if NegativeDepth(maxDepth) {
      r := Failure(ValueError("max_depth cannot be negative"));
    } else {
      var km := MakePredicate(keys, "keys_to_remove");
      var vm := MakePredicate(values, "values_to_remove");
      if km.Failure? {
        r := Failure(km.error);
      } else if vm.Failure? {
        r := Failure(vm.error);
      } else {
        var keyMatcher, valueMatcher := km.value, vm.value;
        if IsNoOp(keyMatcher, valueMatcher, removeEmpty) {
          r := Success(data);
        } else {
          var root := ProcessRoot(ConfigOf(keyMatcher, valueMatcher, removeEmpty, maxDepth), data);
          r := Success(root);
        }
      }
    }
  }

  /** The last lines of `prune_data`: process the root, and give an emptied root its empty form. */
  method ProcessRoot(c: Config, data: Value) returns (root: Value)
    ensures root == PrunedRoot(c, data)
  {
    root := Process(c, data, 0);
    if c.removeEmpty && IsEmpty(root) {
      root := EmptyLike(data);
    }
  }

  // ---------------------------------------------------------------------
  // What survives: entries and elements of the pruned containers
  // ---------------------------------------------------------------------

  /** A mapping entry survives: its key is not dropped and its processed value is kept. */
  predicate EntrySurvives(c: Config, d: nat, e: (Value, Value)) {
    !KeyDropped(c, d, e.0) && KeepInMapping(c, Child(c, e.1, d))
  }

  predicate ElemSurvives(c: Config, d: nat, e: Value) {
    KeepInSequence(c, Child(c, e, d))
  }

  predicate SetElemSurvives(c: Config, d: nat, e: Value) {
    KeepInSet(c, SetChild(c, e, d))
  }

  lemma {:induction false} PrunedItemsMembers(c: Config, parent: Value, n: nat, d: nat)
    requires parent.Map? && n <= |parent.items|
    ensures var r := PrunedItems(c, parent, n, d);
      && |r| <= n
      && (forall j :: 0 <= j < |r| ==>
            exists i :: 0 <= i < n && EntrySurvives(c, d, parent.items[i])
              && r[j] == (parent.items[i].0, Child(c, parent.items[i].1, d)))
      && (forall i :: 0 <= i < n && EntrySurvives(c, d, parent.items[i]) ==>
            (parent.items[i].0, Child(c, parent.items[i].1, d)) in r)
  {
    if n > 0 {
      PrunedItemsMembers(c, parent, n - 1, d);
      var prev := PrunedItems(c, parent, n - 1, d);
      var r := PrunedItems(c, parent, n, d);
      forall j | 0 <= j < |r|
        ensures exists i :: (0 <= i < n && EntrySurvives(c, d, parent.items[i])
          && r[j] == (parent.items[i].0, Child(c, parent.items[i].1, d)))
      {
        if j < |prev| {
          assert r[j] == prev[j];
        } else {
          assert r[j] == (parent.items[n - 1].0, Child(c, parent.items[n - 1].1, d));
        }
      }
    }
  }

  lemma {:induction false} PrunedElemsMembers(c: Config, parent: Value, n: nat, d: nat)
    requires parent.Seq? && n <= |parent.elems|
    ensures var r := PrunedElems(c, parent, n, d);
      && |r| <= n
      && (forall j :: 0 <= j < |r| ==>
            exists i :: 0 <= i < n && ElemSurvives(c, d, parent.elems[i])
              && r[j] == Child(c, parent.elems[i], d))
      && (forall i :: 0 <= i < n && ElemSurvives(c, d, parent.elems[i]) ==>
            Child(c, parent.elems[i], d) in r)
  {
    if n > 0 {
      PrunedElemsMembers(c, parent, n - 1, d);
      var prev := PrunedElems(c, parent, n - 1, d);
      var r := PrunedElems(c, parent, n, d);
      forall j | 0 <= j < |r|
        ensures exists i :: (0 <= i < n && ElemSurvives(c, d, parent.elems[i])
          && r[j] == Child(c, parent.elems[i], d))
      {
        if j < |prev| {
          var i :| 0 <= i < n - 1 && ElemSurvives(c, d, parent.elems[i])
            && prev[j] == Child(c, parent.elems[i], d);
          assert r[j] == prev[j];
        } else {
          assert r[j] == Child(c, parent.elems[n - 1], d);
        }
      }
      assert forall j :: 0 <= j < |r| ==>
            exists i :: 0 <= i < n && ElemSurvives(c, d, parent.elems[i])
              && r[j] == Child(c, parent.elems[i], d);
      assert forall i :: 0 <= i < n && ElemSurvives(c, d, parent.elems[i]) ==>
            Child(c, parent.elems[i], d) in r;
    }
  }

  lemma {:induction false} PrunedSetElemsSources(c: Config, parent: Value, n: nat, d: nat)
    requires parent.Set? && n <= |parent.elems|
    ensures forall j :: 0 <= j < |PrunedSetElems(c, parent, n, d)| ==>
      exists i :: 0 <= i < n && SetElemSurvives(c, d, parent.elems[i])
        && PrunedSetElems(c, parent, n, d)[j] == SetChild(c, parent.elems[i], d)
  {
    if n > 0 {
      PrunedSetElemsSources(c, parent, n - 1, d);
      var prev := PrunedSetElems(c, parent, n - 1, d);
      var r := PrunedSetElems(c, parent, n, d);
      forall j | 0 <= j < |PrunedSetElems(c, parent, n, d)|
        ensures exists i :: 0 <= i < n && SetElemSurvives(c, d, parent.elems[i])
                              && PrunedSetElems(c, parent, n, d)[j] == SetChild(c, parent.elems[i], d)
      {
        if j < |prev| {
          var i :| 0 <= i < n - 1 && SetElemSurvives(c, d, parent.elems[i])
            && prev[j] == SetChild(c, parent.elems[i], d);
          assert r[j] == prev[j];
        } else {
          assert r[j] == SetChild(c, parent.elems[n - 1], d);
          assert SetElemSurvives(c, d, parent.elems[n - 1]);
        }
      }
    } else {
      assert PrunedSetElems(c, parent, n, d) == [];
    }
  }

  lemma {:induction false} PrunedSetElemsKept(c: Config, parent: Value, n: nat, d: nat)
    requires parent.Set? && n <= |parent.elems|
    ensures forall i :: 0 <= i < n && SetElemSurvives(c, d, parent.elems[i]) ==>
      SetChild(c, parent.elems[i], d) in PrunedSetElems(c, parent, n, d)
  {
    if n > 0 {
      PrunedSetElemsKept(c, parent, n - 1, d);
    }
  }

  /** A pruned mapping holds exactly the input entries whose key the filter
      spares (at this depth) and whose processed value is kept, each with its
      processed value. */
  lemma MappingEntries(c: Config, v: Value, d: nat)
    requires v.Map?
    ensures var r := Pruned(c, v, d);
      && (forall j :: 0 <= j < |r.items| ==>
            exists i :: 0 <= i < |v.items| && EntrySurvives(c, d, v.items[i])
              && r.items[j] == (v.items[i].0, Child(c, v.items[i].1, d)))
      && (forall i :: 0 <= i < |v.items| && EntrySurvives(c, d, v.items[i]) ==>
            (v.items[i].0, Child(c, v.items[i].1, d)) in r.items)
  {
    PrunedItemsMembers(c, v, |v.items|, d);
  }

  /** A pruned list or tuple holds exactly the processed elements that are
      neither empty (under `remove_empty`) nor matched by the value predicate. */
  lemma SequenceElements(c: Config, v: Value, d: nat)
    requires v.Seq?
    ensures var r := Pruned(c, v, d);
      && (forall j :: 0 <= j < |r.elems| ==>
            exists i :: 0 <= i < |v.elems| && ElemSurvives(c, d, v.elems[i])
              && r.elems[j] == Child(c, v.elems[i], d))
      && (forall i :: 0 <= i < |v.elems| && ElemSurvives(c, d, v.elems[i]) ==>
            Child(c, v.elems[i], d) in r.elems)
  {
    PrunedElemsMembers(c, v, |v.elems|, d);
    var r := Pruned(c, v, d);
    var t := PrunedElems(c, v, |v.elems|, d);
    assert forall j :: 0 <= j < |t| ==>
      exists i :: 0 <= i < |v.elems| && ElemSurvives(c, d, v.elems[i])
        && t[j] == Child(c, v.elems[i], d);
    assert r.elems == t;
    assert forall j :: 0 <= j < |r.elems| ==>
      exists i :: 0 <= i < |v.elems| && ElemSurvives(c, d, v.elems[i])
        && r.elems[j] == Child(c, v.elems[i], d);
  }

  /** A pruned set holds exactly the processed elements that are not empty
      (under `remove_empty`), not matched and hashable, without duplicates. */
  lemma SetElements(c: Config, v: Value, d: nat)
    requires v.Set?
    ensures var r := Pruned(c, v, d);
      && Distinct(r.elems)
      && (forall j :: 0 <= j < |r.elems| ==>
            exists i :: 0 <= i < |v.elems| && SetElemSurvives(c, d, v.elems[i])
              && r.elems[j] == SetChild(c, v.elems[i], d))
      && (forall i :: 0 <= i < |v.elems| && SetElemSurvives(c, d, v.elems[i]) ==>
            SetChild(c, v.elems[i], d) in r.elems)
  {
    SetElementsSources(c, v, d);
    SetElementsKept(c, v, d);
  }

  lemma SetElementsSources(c: Config, v: Value, d: nat)
    requires v.Set?
    ensures forall j :: 0 <= j < |Pruned(c, v, d).elems| ==>
      exists i :: 0 <= i < |v.elems| && SetElemSurvives(c, d, v.elems[i])
        && Pruned(c, v, d).elems[j] == SetChild(c, v.elems[i], d)
  {
    var s := PrunedSetElems(c, v, |v.elems|, d);
    PrunedSetElemsSources(c, v, |v.elems|, d);
    var r := Pruned(c, v, d);
    assert r.elems == Dedup(s);
    forall j | 0 <= j < |r.elems|
      ensures exists i :: (0 <= i < |v.elems| && SetElemSurvives(c, d, v.elems[i])
        && r.elems[j] == SetChild(c, v.elems[i], d))
    {
      var k := Position(s, r.elems[j]);
    }
  }

  lemma SetElementsKept(c: Config, v: Value, d: nat)
    requires v.Set?
    ensures forall i :: 0 <= i < |v.elems| && SetElemSurvives(c, d, v.elems[i]) ==>
      SetChild(c, v.elems[i], d) in Pruned(c, v, d).elems
  {
    var s := PrunedSetElems(c, v, |v.elems|, d);
    PrunedSetElemsKept(c, v, |v.elems|, d);
    var r := Pruned(c, v, d);
    assert r.elems == Dedup(s);
    forall i | 0 <= i < |v.elems| && SetElemSurvives(c, d, v.elems[i])
      ensures SetChild(c, v.elems[i], d) in r.elems
    {
      var k := Position(s, SetChild(c, v.elems[i], d));
    }
  }

  /** A position where `x` occurs in `s`. */
  lemma Position<T>(s: seq<T>, x: T) returns (k: nat)
    requires x in s
    ensures k < |s| && s[k] == x
  {
    k :| 0 <= k < |s| && s[k] == x;
  }

  /** The input entry a surviving entry of a pruned mapping comes from. */
  lemma EntryOrigin(c: Config, v: Value, d: nat, j: nat) returns (i: nat)
    requires v.Map? && j < |Pruned(c, v, d).items|
    ensures i < |v.items| && EntrySurvives(c, d, v.items[i])
    ensures Pruned(c, v, d).items[j] == (v.items[i].0, Child(c, v.items[i].1, d))
  {
    MappingEntries(c, v, d);
    var r := Pruned(c, v, d);
    i :| 0 <= i < |v.items| && EntrySurvives(c, d, v.items[i])
      && r.items[j] == (v.items[i].0, Child(c, v.items[i].1, d));
  }

  /** The input element a surviving element of a pruned list or tuple comes from. */
  lemma ElemOrigin(c: Config, v: Value, d: nat, j: nat) returns (i: nat)
    requires v.Seq? && j < |Pruned(c, v, d).elems|
    ensures i < |v.elems| && ElemSurvives(c, d, v.elems[i])
    ensures Pruned(c, v, d).elems[j] == Child(c, v.elems[i], d)
  {
    SequenceElements(c, v, d);
    var r := Pruned(c, v, d);
    i :| 0 <= i < |v.elems| && ElemSurvives(c, d, v.elems[i]) && r.elems[j] == Child(c, v.elems[i], d);
  }

  /** The input element a surviving element of a pruned set comes from. */
  lemma SetElemOrigin(c: Config, v: Value, d: nat, j: nat) returns (i: nat)
    requires v.Set? && j < |Pruned(c, v, d).elems|
    ensures i < |v.elems| && SetElemSurvives(c, d, v.elems[i])
    ensures Pruned(c, v, d).elems[j] == SetChild(c, v.elems[i], d)
  {
    SetElements(c, v, d);
    var r := Pruned(c, v, d);
    i :| 0 <= i < |v.elems| && SetElemSurvives(c, d, v.elems[i]) && r.elems[j] == SetChild(c, v.elems[i], d);
  }

  /** Set-like elements of a set are never entered: every set-like element
      of the result is an element of the input, and every set-like input
      element that passes the filters is kept as it is. */
  lemma SetElementsNotEntered(c: Config, v: Value, d: nat)
    requires v.Set?
    ensures var r := Pruned(c, v, d);
      && (forall j :: 0 <= j < |r.elems| && r.elems[j].Set? ==> r.elems[j] in v.elems)
      && (forall i :: 0 <= i < |v.elems| && v.elems[i].Set? && KeepInSet(c, v.elems[i]) ==>
            v.elems[i] in r.elems)
  {
    SetElements(c, v, d);
    var r := Pruned(c, v, d);
    forall j | 0 <= j < |r.elems| && r.elems[j].Set? ensures r.elems[j] in v.elems {
      var i := SetElemOrigin(c, v, d, j);
    }
  }

  /** At a container at or below the depth limit, children are copied as
      they are: only the filters decide which of them stay. */
  lemma DepthLimitCopies(c: Config, v: Value, d: nat)
    requires !CanRecurse(c, d)
    ensures var r := Pruned(c, v, d);
      && (v.Map? ==> forall j :: 0 <= j < |r.items| ==> r.items[j] in v.items)
      && (v.Seq? ==> forall j :: 0 <= j < |r.elems| ==> r.elems[j] in v.elems)
      && (v.Set? ==> forall j :: 0 <= j < |r.elems| ==> r.elems[j] in v.elems)
      && (v.Seq? ==> forall i :: 0 <= i < |v.elems| && KeepInSequence(c, v.elems[i]) ==>
            v.elems[i] in r.elems)
      && (v.Set? ==> forall i :: 0 <= i < |v.elems| && KeepInSet(c, v.elems[i]) ==>
            v.elems[i] in r.elems)
  {
    var r := Pruned(c, v, d);
    if v.Map? {
      MappingEntries(c, v, d);
      forall j | 0 <= j < |r.items| ensures r.items[j] in v.items {
        var i := EntryOrigin(c, v, d, j);
        assert r.items[j] == v.items[i];
      }
    } else if v.Seq? {
      SequenceElements(c, v, d);
      forall j | 0 <= j < |r.elems| ensures r.elems[j] in v.elems {
        var i := ElemOrigin(c, v, d, j);
      }
    } else if v.Set? {
      SetElements(c, v, d);
      forall j | 0 <= j < |r.elems| ensures r.elems[j] in v.elems {
        var i := SetElemOrigin(c, v, d, j);
      }
    }
  }

  // ---------------------------------------------------------------------
  // Keys are removed at every level the depth limit allows
  // ---------------------------------------------------------------------

  /** No mapping at depth `d` or below, down to depth `limit`, has a key `test` matches. */
  ghost predicate NoKeyMatches(test: Value -> bool, v: Value, d: nat, limit: Option<nat>)
    decreases v
  {
    match v
    case Map(_, items) =>
      && (limit.None? || d <= limit.value ==> forall i :: 0 <= i < |items| ==> !test(items[i].0))
      && (forall i :: 0 <= i < |items| ==> NoKeyMatches(test, items[i].1, d + 1, limit))
    case Seq(_, elems) => forall i :: 0 <= i < |elems| ==> NoKeyMatches(test, elems[i], d + 1, limit)
    case Set(_, elems) => forall i :: 0 <= i < |elems| ==> NoKeyMatches(test, elems[i], d + 1, limit)
    case _ => true
  }

  lemma {:induction false} BeyondLimitNoKeyMatches(test: Value -> bool, v: Value, d: nat, limit: Option<nat>)
    requires limit.Some? && d > limit.value
    ensures NoKeyMatches(test, v, d, limit)
    decreases v
  {
    match v
    case Map(_, items) =>
      forall i | 0 <= i < |items| ensures NoKeyMatches(test, items[i].1, d + 1, limit) {
        BeyondLimitNoKeyMatches(test, items[i].1, d + 1, limit);
      }
    case Seq(_, elems) =>
      forall i | 0 <= i < |elems| ensures NoKeyMatches(test, elems[i], d + 1, limit) {
        BeyondLimitNoKeyMatches(test, elems[i], d + 1, limit);
      }
    case Set(_, elems) =>
      forall i | 0 <= i < |elems| ensures NoKeyMatches(test, elems[i], d + 1, limit) {
        BeyondLimitNoKeyMatches(test, elems[i], d + 1, limit);
      }
    case _ =>
  }

  lemma {:induction false} MapFreeNoKeyMatches(test: Value -> bool, v: Value, d: nat, limit: Option<nat>)
    requires MapFree(v)
    ensures NoKeyMatches(test, v, d, limit)
    decreases v
  {
    match v
    case Seq(_, elems) =>
      forall i | 0 <= i < |elems| ensures NoKeyMatches(test, elems[i], d + 1, limit) {
        assert elems[i] in elems;
        MapFreeNoKeyMatches(test, elems[i], d + 1, limit);
      }
    case Set(_, elems) =>
      forall i | 0 <= i < |elems| ensures NoKeyMatches(test, elems[i], d + 1, limit) {
        assert elems[i] in elems;
        MapFreeNoKeyMatches(test, elems[i], d + 1, limit);
      }
    case _ =>
  }

  /** Every mapping of the result at depth at most `max_depth` (at any depth
      when there is no limit) is free of keys the key predicate matches. */
  lemma {:induction false} KeysRemovedToDepth(c: Config, v: Value, d: nat)
    ensures NoKeyMatches(c.keyTest, Pruned(c, v, d), d, c.maxDepth)
    decreases v
  {
    var r := Pruned(c, v, d);
    match v
    case Map(_, items) =>
      MappingEntries(c, v, d);
      forall j | 0 <= j < |r.items|
        ensures !(CanFilter(c, d) && c.keyTest(r.items[j].0))
        ensures NoKeyMatches(c.keyTest, r.items[j].1, d + 1, c.maxDepth)
      {
        var i := EntryOrigin(c, v, d, j);
        if CanRecurse(c, d) {
          KeysRemovedToDepth(c, items[i].1, d + 1);
        } else {
          BeyondLimitNoKeyMatches(c.keyTest, items[i].1, d + 1, c.maxDepth);
        }
      }
    case Seq(_, elems) =>
      SequenceElements(c, v, d);
      forall j | 0 <= j < |r.elems| ensures NoKeyMatches(c.keyTest, r.elems[j], d + 1, c.maxDepth) {
        var i := ElemOrigin(c, v, d, j);
        if CanRecurse(c, d) {
          KeysRemovedToDepth(c, elems[i], d + 1);
        } else {
          BeyondLimitNoKeyMatches(c.keyTest, elems[i], d + 1, c.maxDepth);
        }
      }
    case Set(_, elems) =>
      SetElements(c, v, d);
      forall j | 0 <= j < |r.elems| ensures NoKeyMatches(c.keyTest, r.elems[j], d + 1, c.maxDepth) {
        var i := SetElemOrigin(c, v, d, j);
        HashableIsMapFree(r.elems[j]);
        MapFreeNoKeyMatches(c.keyTest, r.elems[j], d + 1, c.maxDepth);
      }
    case _ =>
  }

  // ---------------------------------------------------------------------
  // Emptiness
  // ---------------------------------------------------------------------

  /** No node below the root is empty. */
  ghost predicate NoEmptyBelow(v: Value)
    decreases v
  {
    match v
    case Map(_, items) =>
      forall i :: 0 <= i < |items| ==> !IsEmpty(items[i].1) && NoEmptyBelow(items[i].1)
    case Seq(_, elems) => forall i :: 0 <= i < |elems| ==> !IsEmpty(elems[i]) && NoEmptyBelow(elems[i])
    case Set(_, elems) => forall i :: 0 <= i < |elems| ==> !IsEmpty(elems[i]) && NoEmptyBelow(elems[i])
    case _ => true
  }

  /** No set or frozenset directly contains a set or frozenset. */
  ghost predicate NoSetInSet(v: Value)
    decreases v
  {
    match v
    case Map(_, items) => forall i :: 0 <= i < |items| ==> NoSetInSet(items[i].1)
    case Seq(_, elems) => forall i :: 0 <= i < |elems| ==> NoSetInSet(elems[i])
    case Set(_, elems) => forall i :: 0 <= i < |elems| ==> !elems[i].Set? && NoSetInSet(elems[i])
    case _ => true
  }

  /** With `remove_empty` and no depth limit, no node below the root of the
      result is empty, as long as no set directly holds a set (such an inner
      set is never entered, so its own contents are not cleaned). */
  lemma {:induction false} NoEmptyLeft(c: Config, v: Value, d: nat)
    requires c.maxDepth.None? && c.removeEmpty && NoSetInSet(v)
    ensures NoEmptyBelow(Pruned(c, v, d))
    decreases v
  {
    var r := Pruned(c, v, d);
    match v
    case Map(_, items) =>
      MappingEntries(c, v, d);
      forall j | 0 <= j < |r.items| ensures !IsEmpty(r.items[j].1) && NoEmptyBelow(r.items[j].1) {
        var i := EntryOrigin(c, v, d, j);
        NoEmptyLeft(c, items[i].1, d + 1);
      }
    case Seq(_, elems) =>
      SequenceElements(c, v, d);
      forall j | 0 <= j < |r.elems| ensures !IsEmpty(r.elems[j]) && NoEmptyBelow(r.elems[j]) {
        var i := ElemOrigin(c, v, d, j);
        NoEmptyLeft(c, elems[i], d + 1);
      }
    case Set(_, elems) =>
      SetElements(c, v, d);
      forall j | 0 <= j < |r.elems| ensures !IsEmpty(r.elems[j]) && NoEmptyBelow(r.elems[j]) {
        var i := SetElemOrigin(c, v, d, j);
        NoEmptyLeft(c, elems[i], d + 1);
      }
    case _ =>
  }

  /** Why `NoEmptyLeft` needs `NoSetInSet`: with `remove_empty`, no depth
      limit and a value predicate that matches nothing, a set holding one
      frozenset with an empty member (`{frozenset({frozenset()})}`,
      `{frozenset({""})}`) comes out unchanged, empty member included. */
  lemma NestedSetKeepsEmptyMember(c: Config, inner: Value)
    requires c.removeEmpty && c.maxDepth.None? && forall x :: !c.valueTest(x)
    requires inner.Set? && inner.isFrozen && |inner.elems| >= 1 && IsEmpty(inner.elems[0])
    requires forall e | e in inner.elems :: Hashable(e)
    ensures Pruned(c, Set(false, [inner]), 0) == Set(false, [inner])
    ensures !NoEmptyBelow(Pruned(c, Set(false, [inner]), 0))
  {
    var v := Set(false, [inner]);
    assert v.elems[0] == inner;
    assert SetChild(c, inner, 0) == inner;
    assert KeepInSet(c, inner);
    assert PrunedSetElems(c, v, 0, 0) == [];
    assert PrunedSetElems(c, v, 1, 0) == [inner];
    DedupDistinct([inner]);
    assert !NoEmptyBelow(inner);
  }

  /** With `remove_empty`, an empty result of `process` at the root is
      replaced by an empty value of the input's kind; otherwise the root's
      kind is the one `process` gives it. */
  lemma RootKind(c: Config, data: Value)
    ensures var r := PrunedRoot(c, data);
      && (data.Map? ==> r.Map?)
      && (data.Map? && !(c.removeEmpty && IsEmpty(Pruned(c, data, 0))) ==> r.kind == RebuiltKind(data.kind))
      && (data.Map? && c.removeEmpty && IsEmpty(Pruned(c, data, 0)) ==>
            r == Map(if data.kind == Unbuildable then Dict else data.kind, []))
      && (data.Seq? ==> r.Seq? && r.isTuple == data.isTuple)
      && (data.Set? ==> r.Set? && r.isFrozen == data.isFrozen)
      && (c.removeEmpty && IsEmpty(Pruned(c, data, 0)) && data.Str? ==> r == Str(""))
      && (!IsContainer(data) && !(c.removeEmpty && IsEmpty(data)) ==> r == data)
      && (c.removeEmpty && IsEmpty(r) ==> IsContainer(data) || data.Str? || data.Null?)
  {
  }

  // ---------------------------------------------------------------------
  // Sets hold only hashable elements
  // ---------------------------------------------------------------------

  /** Every set or frozenset anywhere inside `v` holds only hashable elements. */
  ghost predicate SetsHashable(v: Value)
    decreases v
  {
    match v
    case Map(_, items) => forall i :: 0 <= i < |items| ==> SetsHashable(items[i].1)
    case Seq(_, elems) => forall i :: 0 <= i < |elems| ==> SetsHashable(elems[i])
    case Set(_, elems) => forall i :: 0 <= i < |elems| ==> Hashable(elems[i]) && SetsHashable(elems[i])
    case _ => true
  }

  lemma {:induction false} HashableSetsHashable(v: Value)
    requires Hashable(v)
    ensures SetsHashable(v)
    decreases v
  {
    match v
    case Seq(_, elems) =>
      forall i | 0 <= i < |elems| ensures SetsHashable(elems[i]) {
        assert elems[i] in elems;
        HashableSetsHashable(elems[i]);
      }
    case Set(_, elems) =>
      forall i | 0 <= i < |elems| ensures Hashable(elems[i]) && SetsHashable(elems[i]) {
        assert elems[i] in elems;
        HashableSetsHashable(elems[i]);
      }
    case _ =>
  }

  /** Sets in the result hold only hashable elements wherever they were
      processed: always with no depth limit, and for any limit when the
      input's sets already did (subtrees below the limit are copied). */
  lemma {:induction false} PrunedSetsHashable(c: Config, v: Value, d: nat)
    requires c.maxDepth.None? || SetsHashable(v)
    ensures SetsHashable(Pruned(c, v, d))
    decreases v
  {
    var r := Pruned(c, v, d);
    match v
    case Map(_, items) =>
      MappingEntries(c, v, d);
      forall j | 0 <= j < |r.items| ensures SetsHashable(r.items[j].1) {
        var i := EntryOrigin(c, v, d, j);
        if CanRecurse(c, d) {
          PrunedSetsHashable(c, items[i].1, d + 1);
        }
      }
    case Seq(_, elems) =>
      SequenceElements(c, v, d);
      forall j | 0 <= j < |r.elems| ensures SetsHashable(r.elems[j]) {
        var i := ElemOrigin(c, v, d, j);
        if CanRecurse(c, d) {
          PrunedSetsHashable(c, elems[i], d + 1);
        }
      }
    case Set(_, elems) =>
      SetElements(c, v, d);
      forall j | 0 <= j < |r.elems| ensures Hashable(r.elems[j]) && SetsHashable(r.elems[j]) {
        var i := SetElemOrigin(c, v, d, j);
        HashableSetsHashable(r.elems[j]);
      }
    case _ =>
  }

  // ---------------------------------------------------------------------
  // Idempotence
  // ---------------------------------------------------------------------

  lemma {:induction false} PrunedItemsStable(c: Config, parent: Value, n: nat, d: nat)
    requires parent.Map? && n <= |parent.items|
    requires forall i :: 0 <= i < n ==>
      !KeyDropped(c, d, parent.items[i].0) && KeepInMapping(c, parent.items[i].1)
      && Child(c, parent.items[i].1, d) == parent.items[i].1
    ensures PrunedItems(c, parent, n, d) == parent.items[..n]
  {
    if n > 0 {
      PrunedItemsStable(c, parent, n - 1, d);
      assert parent.items[..n] == parent.items[..n - 1] + [parent.items[n - 1]];
    }
  }

  lemma {:induction false} PrunedElemsStable(c: Config, parent: Value, n: nat, d: nat)
    requires parent.Seq? && n <= |parent.elems|
    requires forall i :: 0 <= i < n ==>
      KeepInSequence(c, parent.elems[i]) && Child(c, parent.elems[i], d) == parent.elems[i]
    ensures PrunedElems(c, parent, n, d) == parent.elems[..n]
  {
    if n > 0 {
      PrunedElemsStable(c, parent, n - 1, d);
      assert parent.elems[..n] == parent.elems[..n - 1] + [parent.elems[n - 1]];
    }
  }

  lemma {:induction false} PrunedSetElemsStable(c: Config, parent: Value, n: nat, d: nat)
    requires parent.Set? && n <= |parent.elems|
    requires forall i :: 0 <= i < n ==>
      KeepInSet(c, parent.elems[i]) && SetChild(c, parent.elems[i], d) == parent.elems[i]
    ensures PrunedSetElems(c, parent, n, d) == parent.elems[..n]
  {
    if n > 0 {
      PrunedSetElemsStable(c, parent, n - 1, d);
      assert parent.elems[..n] == parent.elems[..n - 1] + [parent.elems[n - 1]];
    }
  }

  /** Pruning a pruned value again with the same settings changes nothing. */
  lemma {:induction false} PrunedIdempotent(c: Config, v: Value, d: nat)
    ensures Pruned(c, Pruned(c, v, d), d) == Pruned(c, v, d)
    decreases v
  {
    var r := Pruned(c, v, d);
    match v
    case Map(kind, items) =>
      MappingEntries(c, v, d);
      forall j | 0 <= j < |r.items|
        ensures !KeyDropped(c, d, r.items[j].0) && KeepInMapping(c, r.items[j].1)
          && Child(c, r.items[j].1, d) == r.items[j].1
      {
        var i := EntryOrigin(c, v, d, j);
        if CanRecurse(c, d) {
          PrunedIdempotent(c, items[i].1, d + 1);
        }
      }
      PrunedItemsStable(c, r, |r.items|, d);
      assert r.items[..|r.items|] == r.items;
    case Seq(_, elems) =>
      SequenceElements(c, v, d);
      forall j | 0 <= j < |r.elems|
        ensures KeepInSequence(c, r.elems[j]) && Child(c, r.elems[j], d) == r.elems[j]
      {
        var i := ElemOrigin(c, v, d, j);
        if CanRecurse(c, d) {
          PrunedIdempotent(c, elems[i], d + 1);
        }
      }
      PrunedElemsStable(c, r, |r.elems|, d);
      assert r.elems[..|r.elems|] == r.elems;
    case Set(_, elems) =>
      SetElements(c, v, d);
      forall j | 0 <= j < |r.elems|
        ensures KeepInSet(c, r.elems[j]) && SetChild(c, r.elems[j], d) == r.elems[j]
      {
        var i := SetElemOrigin(c, v, d, j);
        if CanRecurse(c, d) && !elems[i].Set? {
          PrunedIdempotent(c, elems[i], d + 1);
        }
      }
      PrunedSetElemsStable(c, r, |r.elems|, d);
      assert r.elems[..|r.elems|] == r.elems;
      DedupDistinct(r.elems);
    case _ =>
  }

  /** `prune_data` is idempotent for any fixed arguments. */
  lemma PruneIdempotent(
    data: Value, keys: RemovalSpec, values: RemovalSpec, removeEmpty: bool, maxDepth: Option<int>)
    requires PruneResult(data, keys, values, removeEmpty, maxDepth).Success?
    ensures var once := PruneResult(data, keys, values, removeEmpty, maxDepth).value;
      PruneResult(once, keys, values, removeEmpty, maxDepth) == Success(once)
  {
    var km := MakePredicate(keys, "keys_to_remove").value;
    var vm := MakePredicate(values, "values_to_remove").value;
    if !IsNoOp(km, vm, removeEmpty) {
      PrunedRootIdempotent(ConfigOf(km, vm, removeEmpty, maxDepth), data);
    }
  }

  /** The root step of `prune_data` is idempotent. */
  lemma PrunedRootIdempotent(c: Config, data: Value)
    ensures PrunedRoot(c, PrunedRoot(c, data)) == PrunedRoot(c, data)
  {
    var root := Pruned(c, data, 0);
    PrunedIdempotent(c, data, 0);
    if c.removeEmpty && IsEmpty(root) {
      var e := EmptyLike(data);
      assert IsEmpty(Pruned(c, e, 0));
      assert EmptyLike(e) == e;
    }
  }

  // ---------------------------------------------------------------------
  // Depth monotonicity
  // ---------------------------------------------------------------------

  /** Settings under which nothing but keys is removed. */
  ghost predicate KeysOnly(c: Config) {
    !c.removeEmpty && forall x :: !c.valueTest(x)
  }

  /** Two key-only settings with the same key predicate, the second reaching at least as deep as the first. */
  ghost predicate DeeperThan(c2: Config, c1: Config) {
    && KeysOnly(c1) && KeysOnly(c2) && c1.keyTest == c2.keyTest
    && c1.maxDepth.Some?
    && (c2.maxDepth.None? || c1.maxDepth.value <= c2.maxDepth.value)
  }

  /** With key-only settings, a set and any hashable value (which holds no
      mapping) come out of well-formed input unchanged. */
  lemma {:induction false} KeysOnlyFixes(c: Config, v: Value, d: nat)
    requires KeysOnly(c) && WellFormed(v) && (Hashable(v) || v.Set?)
    ensures Pruned(c, v, d) == v
    decreases v
  {
    match v
    case Seq(_, elems) =>
      forall i | 0 <= i < |elems| ensures Child(c, elems[i], d) == elems[i] {
        assert elems[i] in elems;
        if CanRecurse(c, d) {
          KeysOnlyFixes(c, elems[i], d + 1);
        }
      }
      PrunedElemsStable(c, v, |elems|, d);
      assert elems[..|elems|] == elems;
    case Set(_, elems) =>
      forall i | 0 <= i < |elems| ensures KeepInSet(c, elems[i]) && SetChild(c, elems[i], d) == elems[i] {
        assert elems[i] in elems;
        if CanRecurse(c, d) && !elems[i].Set? {
          KeysOnlyFixes(c, elems[i], d + 1);
        }
      }
      PrunedSetElemsStable(c, v, |elems|, d);
      assert elems[..|elems|] == elems;
      DedupDistinct(elems);
    case _ =>
  }

  /** `PrunedItems` reads only the first `k` entries of its parent. */
  lemma {:induction false} PrunedItemsPrefix(c: Config, p: Value, q: Value, k: nat, d: nat)
    requires p.Map? && q.Map? && k <= |p.items| && k <= |q.items| && p.items[..k] == q.items[..k]
    ensures PrunedItems(c, p, k, d) == PrunedItems(c, q, k, d)
  {
    if k > 0 {
      assert p.items[k - 1] == p.items[..k][k - 1];
      assert p.items[..k - 1] == p.items[..k][..k - 1];
      assert q.items[..k - 1] == q.items[..k][..k - 1];
      PrunedItemsPrefix(c, p, q, k - 1, d);
    }
  }

  lemma {:induction false} PrunedElemsPrefix(c: Config, p: Value, q: Value, k: nat, d: nat)
    requires p.Seq? && q.Seq? && k <= |p.elems| && k <= |q.elems| && p.elems[..k] == q.elems[..k]
    ensures PrunedElems(c, p, k, d) == PrunedElems(c, q, k, d)
  {
    if k > 0 {
      assert p.elems[k - 1] == p.elems[..k][k - 1];
      assert p.elems[..k - 1] == p.elems[..k][..k - 1];
      assert q.elems[..k - 1] == q.elems[..k][..k - 1];
      PrunedElemsPrefix(c, p, q, k - 1, d);
    }
  }

  lemma {:induction false} ItemsAbsorbed(c1: Config, c2: Config, v: Value, n: nat, d: nat)
    requires DeeperThan(c2, c1) && v.Map? && n <= |v.items|
    requires forall i :: 0 <= i < n ==>
      Child(c2, Child(c1, v.items[i].1, d), d) == Child(c2, v.items[i].1, d)
    ensures var r1 := PrunedItems(c1, v, n, d);
      PrunedItems(c2, Map(Dict, r1), |r1|, d) == PrunedItems(c2, v, n, d)
  {
    if n > 0 {
      ItemsAbsorbed(c1, c2, v, n - 1, d);
      var prev := PrunedItems(c1, v, n - 1, d);
      var r1 := PrunedItems(c1, v, n, d);
      var k := v.items[n - 1].0;
      assert KeepInMapping(c1, Child(c1, v.items[n - 1].1, d));
      assert KeepInMapping(c2, Child(c2, v.items[n - 1].1, d));
      if KeyDropped(c1, d, k) {
        assert r1 == prev;
        assert KeyDropped(c2, d, k);
      } else {
        var w := Child(c1, v.items[n - 1].1, d);
        assert r1 == prev + [(k, w)];
        PrunedItemsSnoc(c2, prev, k, w, d);
      }
    }
  }

  /** Pruning a dict with one more entry at its end. */
  lemma PrunedItemsSnoc(c: Config, prev: seq<(Value, Value)>, k: Value, w: Value, d: nat)
    ensures var r := prev + [(k, w)];
      PrunedItems(c, Map(Dict, r), |r|, d) == PrunedItems(c, Map(Dict, prev), |prev|, d)
        + (if KeyDropped(c, d, k) || !KeepInMapping(c, Child(c, w, d)) then [] else [(k, Child(c, w, d))])
  {
    var r := prev + [(k, w)];
    assert r[..|prev|] == prev;
    PrunedItemsPrefix(c, Map(Dict, r), Map(Dict, prev), |prev|, d);
  }

  lemma {:induction false} ElemsAbsorbed(c1: Config, c2: Config, v: Value, n: nat, d: nat)
    requires DeeperThan(c2, c1) && v.Seq? && n <= |v.elems|
    requires forall i :: 0 <= i < n ==>
      Child(c2, Child(c1, v.elems[i], d), d) == Child(c2, v.elems[i], d)
    ensures var r1 := PrunedElems(c1, v, n, d);
      PrunedElems(c2, Seq(false, r1), |r1|, d) == PrunedElems(c2, v, n, d)
  {
    if n > 0 {
      ElemsAbsorbed(c1, c2, v, n - 1, d);
      var prev := PrunedElems(c1, v, n - 1, d);
      var r1 := PrunedElems(c1, v, n, d);
      assert r1[..|prev|] == prev;
      PrunedElemsPrefix(c2, Seq(false, r1), Seq(false, prev), |prev|, d);
      assert r1[|prev|] == Child(c1, v.elems[n - 1], d);
    }
  }

  /** Pruning the result of a shallower key-only pass down to a deeper
      limit gives what pruning the input down to the deeper limit gives. */
  lemma {:induction false} DeeperPassAbsorbs(c1: Config, c2: Config, v: Value, d: nat)
    requires DeeperThan(c2, c1) && WellFormed(v)
    ensures Pruned(c2, Pruned(c1, v, d), d) == Pruned(c2, v, d)
    decreases v
  {
    match v
    case Map(kind, items) =>
      forall i | 0 <= i < |items|
        ensures Child(c2, Child(c1, items[i].1, d), d) == Child(c2, items[i].1, d)
      {
        if CanRecurse(c1, d) {
          DeeperPassAbsorbs(c1, c2, items[i].1, d + 1);
        }
      }
      ItemsAbsorbed(c1, c2, v, |items|, d);
      var r1 := PrunedItems(c1, v, |items|, d);
      PrunedItemsPrefix(c2, Map(Dict, r1), Pruned(c1, v, d), |r1|, d);
    case Seq(isTuple, elems) =>
      forall i | 0 <= i < |elems|
        ensures Child(c2, Child(c1, elems[i], d), d) == Child(c2, elems[i], d)
      {
        if CanRecurse(c1, d) {
          assert elems[i] in elems;
          DeeperPassAbsorbs(c1, c2, elems[i], d + 1);
        }
      }
      ElemsAbsorbed(c1, c2, v, |elems|, d);
      var r1 := PrunedElems(c1, v, |elems|, d);
      PrunedElemsPrefix(c2, Seq(false, r1), Pruned(c1, v, d), |r1|, d);
    case Set(_, _) =>
      KeysOnlyFixes(c1, v, d);
    case _ =>
  }

  /** `prune_data` with only a key filter: a pass to depth `D2` over the
      result of a pass to depth `D1 <= D2` equals a pass to `D2` over the input. */
  lemma PruneDepthMonotone(data: Value, keys: RemovalSpec, d1: nat, d2: nat)
    requires WellFormed(data) && !keys.NotIterable? && d1 <= d2
    ensures var once := PruneResult(data, keys, NoSpec, false, Some(d1 as int));
      && once.Success?
      && PruneResult(once.value, keys, NoSpec, false, Some(d2 as int))
         == PruneResult(data, keys, NoSpec, false, Some(d2 as int))
  {
    var km := MakePredicate(keys, "keys_to_remove").value;
    var vm := MakePredicate(NoSpec, "values_to_remove").value;
    if !IsNoOp(km, vm, false) {
      var c1 := ConfigOf(km, vm, false, Some(d1 as int));
      var c2 := ConfigOf(km, vm, false, Some(d2 as int));
      DeeperPassAbsorbs(c1, c2, data, 0);
    }
  }
}
