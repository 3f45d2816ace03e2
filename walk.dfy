/** `walk`: a copy of a nested value cut off at a depth and an item limit
    (`_collect_data`), and its drawing as a tree of text lines (`_print_tree`). */
module Walk {
  import opened Outcomes
  import opened Values
  import opened Decimal
  import opened Ordering
  import opened Dicts

  /** The keyword arguments of `walk` that the collector and the printer read;
      `sortSets` is `set_order == "sorted"`. */
  datatype WalkOptions = WalkOptions(
    showTypes: bool,
    quoteStrings: bool,
    maxDepth: Option<int>,
    maxItems: Option<int>,
    truncateLen: Option<int>,
    sortKeys: bool,
    sortSets: bool,
    showLengths: bool)

  /** `max_depth is not None and depth >= max_depth`. */
  predicate AtDepthLimit(o: WalkOptions, depth: nat) {
    o.maxDepth.Some? && depth >= o.maxDepth.value
  }

  // ---------------------------------------------------------------------
  // `_children_with_labels`
  // ---------------------------------------------------------------------

  /** Python's `s[:n]`; `None` keeps everything, a negative `n` drops from the end. */
  function Take<T>(s: seq<T>, n: Option<int>): (r: seq<T>)
    ensures |r| <= |s| && r == s[..|r|]
    ensures n.None? ==> r == s
    ensures n.Some? && n.value >= 0 ==> |r| == if n.value < |s| then n.value else |s|
    ensures n.Some? && n.value < 0 ==> |r| == if |s| + n.value > 0 then |s| + n.value else 0
  {
    if n.None? then s
    else if n.value >= 0 then (if n.value < |s| then s[..n.value] else s)
    else if |s| + n.value > 0 then s[..|s| + n.value]
    else []
  }

  function Range(n: nat): (r: seq<nat>)
    ensures |r| == n && forall i :: 0 <= i < n ==> r[i] == i
  {
    if n == 0 then [] else Range(n - 1) + [n - 1]
  }

  /** The order Python's `<` gives within one comparable kind: numbers (a
      `bool` counts as 0 or 1) or strings. */
  function NativeKey(v: Value): SortKey {
    match v
    case Bool(b) => [Num(if b then 1 else 0)]
    case Int(i) => [Num(i)]
    case Str(s) => [Txt(s)]
    case _ => []
  }

  /** Whether `sorted(xs)` succeeds without a `TypeError`: no comparison is
      needed, or all elements are numbers, or all are strings. */
  predicate NativelySortable(xs: seq<Value>) {
    || |xs| <= 1
    || (forall i :: 0 <= i < |xs| ==> xs[i].Int? || xs[i].Bool?)
    || (forall i :: 0 <= i < |xs| ==> xs[i].Str?)
  }

  /** The key `sorted` uses for the element at position `i` of `xs`: its own
      value, or `str(x)` after the `TypeError` fallback. */
  function PositionKey(xs: seq<Value>): nat -> SortKey {
    (i: nat) =>
      if i >= |xs| then []
      else if NativelySortable(xs) then NativeKey(xs[i])
      else [Txt(PyStr(xs[i]))]
  }

  /** The positions of `xs` in the order `sorted` puts them (a stable sort). */
  function SortedPositions(xs: seq<Value>): (r: seq<nat>)
    ensures |r| == |xs|
    ensures multiset(r) == multiset(Range(|xs|))
    ensures forall j :: 0 <= j < |r| ==> r[j] < |xs|
    ensures SortedBy(r, PositionKey(xs))
    ensures StableBy(r, PositionKey(xs))
  {
    var r := SortBy<nat>(Range(|xs|), PositionKey(xs));
    SortBySorted(Range(|xs|), PositionKey(xs));
    SortByStable(Range(|xs|), PositionKey(xs));
    assert forall j :: 0 <= j < |r| ==> r[j] < |xs| by {
      forall j | 0 <= j < |r| ensures r[j] < |xs| {
        assert r[j] in multiset(r);
        assert r[j] in Range(|xs|);
      }
    }
    r
  }

  function NumChildren(v: Value): nat {
    if v.Map? then |v.items| else if v.Seq? || v.Set? then |v.elems| else 0
  }

  function MapKeys(items: seq<(Value, Value)>): (r: seq<Value>)
    ensures |r| == |items| && forall i :: 0 <= i < |items| ==> r[i] == items[i].0
  {
    seq(|items|, i requires 0 <= i < |items| => items[i].0)
  }

  /** The positions of the children `_children_with_labels` returns, in order:
      every mapping entry (sorted by key if `sort_keys`), the first
      `max_items` sequence elements, and the first `max_items` set elements
      (sorted first if `set_order == "sorted"`). */
  function ChildOrder(v: Value, o: WalkOptions): (r: seq<nat>)
    ensures forall j :: 0 <= j < |r| ==> r[j] < NumChildren(v)
  {
    if v.Map? then MapOrder(v.items, o.sortKeys)
    else if v.Seq? || v.Set? then ElemOrder(v.elems, v.Set? && o.sortSets, o.maxItems)
    else []
  }

  /** Entry positions of a mapping: all of them, sorted by key if `sortKeys`. */
  function MapOrder(items: seq<(Value, Value)>, sortKeys: bool): (r: seq<nat>)
    ensures forall j :: 0 <= j < |r| ==> r[j] < |items|
  {
    if sortKeys then SortedPositions(MapKeys(items)) else Range(|items|)
  }

  /** Element positions of a sequence or set: sorted if `sorted`, then cut to `maxItems`. */
  function ElemOrder(elems: seq<Value>, sorted: bool, maxItems: Option<int>): (r: seq<nat>)
    ensures forall j :: 0 <= j < |r| ==> r[j] < |elems|
  {
    var all := if sorted then SortedPositions(elems) else Range(|elems|);
    var r := Take(all, maxItems);
    assert forall j :: 0 <= j < |r| ==> r[j] == all[j];
    r
  }

  /** The label of the `j`-th returned child, at position `pos`: `str(key)`
      for a mapping entry, `[j]` otherwise. */
  function ChildLabel(v: Value, j: nat, pos: nat): string
    requires pos < NumChildren(v)
  {
    if v.Map? then PyStr(v.items[pos].0) else "[" + NatToString(j) + "]"
  }

  function ChildValue(v: Value, pos: nat): Value
    requires pos < NumChildren(v)
  {
    match v
    case Map(_, items) => items[pos].1
    case Seq(_, elems) => elems[pos]
    case Set(_, elems) => elems[pos]
  }

  /** `_children_with_labels(obj, sort_keys, set_order, max_items)`. */
  function ChildrenWithLabels(v: Value, o: WalkOptions): (r: seq<(string, Value)>)
    ensures |r| == |ChildOrder(v, o)|
    ensures forall j :: 0 <= j < |r| ==>
      r[j] == (ChildLabel(v, j, ChildOrder(v, o)[j]), ChildValue(v, ChildOrder(v, o)[j]))
  {
    var order := ChildOrder(v, o);
    seq(|order|, j requires 0 <= j < |order| => (ChildLabel(v, j, order[j]), ChildValue(v, order[j])))
  }

  // ---------------------------------------------------------------------
  // `_collect_data`
  // ---------------------------------------------------------------------

  /** What a container becomes at the depth limit: `{}` for any mapping, and
      an empty value of the same kind for lists, tuples, sets and frozensets. */
  function EmptiedAtLimit(v: Value): Value {
    match v
    case Map(_, _) => Map(Dict, [])
    case Seq(isTuple, _) => Seq(isTuple, [])
    case Set(isFrozen, _) => Set(isFrozen, [])
    case _ => v
  }

  /** `_collect_data(obj, depth=depth)`. */
  function Collected(o: WalkOptions, v: Value, depth: nat): (r: Value)
    ensures v.Map? ==> r.Map? && r.kind == Dict
    ensures v.Seq? ==> r.Seq? && r.isTuple == v.isTuple
    ensures v.Set? ==> r.Set? && r.isFrozen == v.isFrozen
    ensures !IsContainer(v) ==> r == v
    decreases v, 2
  {
    if AtDepthLimit(o, depth) then EmptiedAtLimit(v)
    else
      match v
      case Map(_, _) =>
        var order := ChildOrder(v, o);
        Map(Dict, CollectedEntries(o, v, order, |order|, depth))
      case Seq(isTuple, _) =>
        var order := ChildOrder(v, o);
        Seq(isTuple, CollectedElems(o, v, order, |order|, depth))
      case Set(isFrozen, _) =>
        var order := ChildOrder(v, o);
        Set(isFrozen, Dedup(CollectedElems(o, v, order, |order|, depth)))
      case _ => v
  }

  /** A child is collected one level deeper if it is a container, copied otherwise. */
  function CollectedChild(o: WalkOptions, v: Value, depth: nat): Value
    decreases v, 3
  {
    if IsContainer(v) then Collected(o, v, depth + 1) else v
  }

  /** `result[label] = ...` for the first `n` children of a mapping, in `order`. */
  function CollectedEntries(o: WalkOptions, parent: Value, order: seq<nat>, n: nat, depth: nat)
    : (r: seq<(Value, Value)>)
    requires parent.Map? && n <= |order|
    requires forall j :: 0 <= j < |order| ==> order[j] < |parent.items|
    ensures DistinctKeys(r)
    decreases parent, 0, n
  {
    if n == 0 then []
    else
      Assign(
        CollectedEntries(o, parent, order, n - 1, depth),
        Str(PyStr(parent.items[order[n - 1]].0)),
        CollectedChild(o, parent.items[order[n - 1]].1, depth))
  }

  /** The collected first `n` children of a list, tuple, set or frozenset, in `order`. */
  function CollectedElems(o: WalkOptions, parent: Value, order: seq<nat>, n: nat, depth: nat)
    : (r: seq<Value>)
    requires (parent.Seq? || parent.Set?) && n <= |order|
    requires forall j :: 0 <= j < |order| ==> order[j] < |parent.elems|
    ensures |r| == n
    decreases parent, 0, n
  {
    if n == 0 then []
    else CollectedElems(o, parent, order, n - 1, depth) + [CollectedChild(o, parent.elems[order[n - 1]], depth)]
  }

  /** `_collect_data`, with the loops over the labelled children. */
  method CollectData(o: WalkOptions, v: Value, depth: nat) returns (r: Value)
    ensures r == Collected(o, v, depth)
    decreases v, 2
  {
    if AtDepthLimit(o, depth) {
      r := EmptiedAtLimit(v);
    } else if v.Map? {
      var result := CollectMapping(o, v, depth);
      r := Map(Dict, result);
    } else if v.Seq? || v.Set? {
      var resultList := CollectElements(o, v, depth);
      r := if v.Seq? then Seq(v.isTuple, resultList) else Set(v.isFrozen, Dedup(resultList));
    } else {
      r := v;
    }
  }

  /** The mapping branch: `result[label] = ...` for every labelled child. */
  method CollectMapping(o: WalkOptions, v: Value, depth: nat) returns (result: seq<(Value, Value)>)
    requires v.Map? && !AtDepthLimit(o, depth)
    ensures result == CollectedEntries(o, v, ChildOrder(v, o), |ChildOrder(v, o)|, depth)
    decreases v, 1
  {
    var order := ChildOrder(v, o);
    assert forall k :: 0 <= k < |order| ==> order[k] < |v.items|;
    var children := ChildrenWithLabels(v, o);
    result := [];
    for j := 0 to |children|
      invariant result == CollectedEntries(o, v, order, j, depth)
    {
      result := CollectEntry(o, v, order, j, depth, result, children[j].0, children[j].1);
    }
  }

  /** One iteration of the mapping branch: `result[label] = ...` for child `j`. */
  method CollectEntry(o: WalkOptions, v: Value, order: seq<nat>, j: nat, depth: nat,
                      result: seq<(Value, Value)>, name: string, child: Value)
    returns (result': seq<(Value, Value)>)
    requires v.Map? && j < |order|
    requires forall k :: 0 <= k < |order| ==> order[k] < |v.items|
    requires result == CollectedEntries(o, v, order, j, depth)
    requires name == ChildLabel(v, j, order[j]) && child == ChildValue(v, order[j])
    ensures result' == CollectedEntries(o, v, order, j + 1, depth)
    decreases v, 0
  {
    assert child == v.items[order[j]].1;
    var c := CollectChild(o, child, depth);
    result' := Assign(result, Str(name), c);
  }

  /** One child of a container: collected itself when it is a container. */
  method CollectChild(o: WalkOptions, child: Value, depth: nat) returns (c: Value)
    ensures c == CollectedChild(o, child, depth)
    decreases child, 3
  {
    c := child;
    if IsContainer(child) {
      c := CollectData(o, child, depth + 1);
    }
  }

  /** The sequence and set branches: the labelled children collected into a list. */
  method CollectElements(o: WalkOptions, v: Value, depth: nat) returns (resultList: seq<Value>)
    requires (v.Seq? || v.Set?) && !AtDepthLimit(o, depth)
    ensures resultList == CollectedElems(o, v, ChildOrder(v, o), |ChildOrder(v, o)|, depth)
    decreases v, 1
  {
    var order := ChildOrder(v, o);
    assert forall k :: 0 <= k < |order| ==> order[k] < |v.elems|;
    var children := ChildrenWithLabels(v, o);
    resultList := [];
    for j := 0 to |children|
      invariant resultList == CollectedElems(o, v, order, j, depth)
    {
      resultList := CollectElement(o, v, order, j, depth, resultList, children[j].1);
    }
  }

  /** One iteration of the list branch: `result_list.append(...)` for child `j`. */
  method CollectElement(o: WalkOptions, v: Value, order: seq<nat>, j: nat, depth: nat,
                        resultList: seq<Value>, child: Value)
    returns (resultList': seq<Value>)
    requires (v.Seq? || v.Set?) && j < |order|
    requires forall k :: 0 <= k < |order| ==> order[k] < |v.elems|
    requires resultList == CollectedElems(o, v, order, j, depth)
    requires child == ChildValue(v, order[j])
    ensures resultList' == CollectedElems(o, v, order, j + 1, depth)
    decreases v, 0
  {
    assert child == v.elems[order[j]];
    var c := CollectChild(o, child, depth);
    resultList' := resultList + [c];
  }

  // ---------------------------------------------------------------------
  // `_render_value` and `_node_tag`
  // ---------------------------------------------------------------------

  const Ellipsis: char := '\U{2026}'

  /** Cut `text` to `limit` characters plus an ellipsis when `limit >= 0` and it is longer. */
  function Truncate(text: string, limit: Option<int>): (r: string)
    ensures limit.Some? && 0 <= limit.value < |text| ==>
      |r| == limit.value + 1 && r[..limit.value] == text[..limit.value] && r[limit.value] == Ellipsis
    ensures !(limit.Some? && 0 <= limit.value < |text|) ==> r == text
  {
    if limit.Some? && limit.value >= 0 && |text| > limit.value then text[..limit.value] + [Ellipsis]
    else text
  }

  /** `s.replace(c, sub)` for a one-character pattern. */
  function Replace(s: string, c: char, sub: string): (r: string)
    ensures c !in sub ==> c !in r
  {
    if s == [] then ""
    else (if s[0] == c then sub else [s[0]]) + Replace(s[1..], c, sub)
  }

  /** `_render_value(value, quote_strings, truncate_value_len)`. */
  function RenderValue(v: Value, quote: bool, limit: Option<int>): string {
    match v
    case Str(s) =>
      var text := Truncate(s, limit);
      if quote then "\"" + Replace(Replace(text, '\\', "\\\\"), '"', "\\\"") + "\"" else text
    case _ => Truncate(PyStr(v), limit)
  }

  /** `_node_tag(obj, show_lengths)`. */
  function NodeTag(v: Value, showLengths: bool): (r: string)
    ensures r == "" <==> !IsContainer(v)
    ensures v.Map? ==> r == if showLengths then "[dict len=" + NatToString(|v.items|) + "]" else "[dict]"
    ensures v.Seq? ==> r == if showLengths then "[list len=" + NatToString(|v.elems|) + "]" else "[list]"
    ensures v.Set? ==> r == if showLengths then "[set size=" + NatToString(|v.elems|) + "]" else "[set]"
  {
    match v
    case Map(_, items) => if showLengths then "[dict len=" + NatToString(|items|) + "]" else "[dict]"
    case Seq(_, elems) => if showLengths then "[list len=" + NatToString(|elems|) + "]" else "[list]"
    case Set(_, elems) => if showLengths then "[set size=" + NatToString(|elems|) + "]" else "[set]"
    case _ => ""
  }

  /** `f" ({type(v).__name__})"` when `show_types` is set. */
  function TypeSuffix(o: WalkOptions, v: Value): string {
    if o.showTypes then " (" + TypeName(v) + ")" else ""
  }

  /** `"└─ "` for the last child, `"├─ "` for the others. */
  function Connector(isLast: bool): (r: string)
    ensures |r| == 3 && (r[0] == '\U{2514}' || r[0] == '\U{251C}')
  {
    if isLast then "\U{2514}\U{2500} " else "\U{251C}\U{2500} "
  }

  /** What the prefix grows by below a child: `"   "` after the last, `"│  "` otherwise. */
  function Extension(isLast: bool): (r: string)
    ensures |r| == 3 && (r[0] == ' ' || r[0] == '\U{2502}')
  {
    if isLast then "   " else "\U{2502}  "
  }

  // ---------------------------------------------------------------------
  // `_print_tree`: the lines handed to `writer`, in order
  // ---------------------------------------------------------------------

  /** `_print_tree(v, path, prefix, is_root)` with `len(path) == depth`. */
  function TreeLines(o: WalkOptions, v: Value, depth: nat, prefix: string, isRoot: bool): (r: seq<string>)
    decreases v, 2, 0
  {
    if IsContainer(v) then
      (if isRoot then [NodeTag(v, o.showLengths)] else [])
      + (if AtDepthLimit(o, depth) then []
         else ChildrenLines(o, v, ChildOrder(v, o), |ChildOrder(v, o)|, depth, prefix))
    else [RenderValue(v, o.quoteStrings, o.truncateLen) + TypeSuffix(o, v)]
  }

  /** The lines of the first `n` labelled children, in `order`. */
  function ChildrenLines(o: WalkOptions, parent: Value, order: seq<nat>, n: nat, depth: nat, prefix: string)
    : (r: seq<string>)
    requires IsContainer(parent) && n <= |order|
    requires forall j :: 0 <= j < |order| ==> order[j] < NumChildren(parent)
    decreases parent, 1, n
  {
    if n == 0 then []
    else ChildrenLines(o, parent, order, n - 1, depth, prefix) + ChildBlock(o, parent, order, n - 1, depth, prefix)
  }

  /** The child at position `pos` of a container. */
  function Nth(parent: Value, pos: nat): (r: Value)
    requires IsContainer(parent) && pos < NumChildren(parent)
    ensures r == ChildValue(parent, pos)
  {
    if parent.Map? then parent.items[pos].1 else parent.elems[pos]
  }

  /** The lines of the `j`-th labelled child: its own line, then (for a
      container) its subtree under the extended prefix. */
  function ChildBlock(o: WalkOptions, parent: Value, order: seq<nat>, j: nat, depth: nat, prefix: string)
    : (r: seq<string>)
    requires IsContainer(parent) && j < |order|
    requires forall k :: 0 <= k < |order| ==> order[k] < NumChildren(parent)
    decreases parent, 0, 0
  {
    assert order[j] < NumChildren(parent);
    var child := if parent.Map? then parent.items[order[j]].1 else parent.elems[order[j]];
    var isLast := j == |order| - 1;
    var head := prefix + Connector(isLast) + ChildLabel(parent, j, order[j]);
    if IsContainer(child) then
      [head + " " + NodeTag(child, o.showLengths)]
      + TreeLines(o, child, depth + 1, prefix + Extension(isLast), false)
    else [head + ": " + RenderValue(child, o.quoteStrings, o.truncateLen) + TypeSuffix(o, child)]
  }

  /** `_print_tree`, with `writer` collecting lines. */
  method PrintTree(o: WalkOptions, v: Value, depth: nat, prefix: string, isRoot: bool) returns (lines: seq<string>)
    ensures lines == TreeLines(o, v, depth, prefix, isRoot)
    decreases v, 2
  {
    var tag := NodeTag(v, o.showLengths);
    if tag != "" {
      lines := if isRoot then [tag] else [];
      if !AtDepthLimit(o, depth) {
        var body := PrintChildren(o, v, depth, prefix);
        lines := lines + body;
      }
    } else {
      lines := [RenderValue(v, o.quoteStrings, o.truncateLen) + TypeSuffix(o, v)];
    }
  }

  /** The loop of `_print_tree` over the labelled children. */
  method PrintChildren(o: WalkOptions, v: Value, depth: nat, prefix: string) returns (lines: seq<string>)
    requires IsContainer(v)
    ensures lines == ChildrenLines(o, v, ChildOrder(v, o), |ChildOrder(v, o)|, depth, prefix)
    decreases v, 1
  {
    var order := ChildOrder(v, o);
    assert forall k :: 0 <= k < |order| ==> order[k] < NumChildren(v);
    var children := ChildrenWithLabels(v, o);
    lines := [];
    for idx := 0 to |children|
      invariant lines == ChildrenLines(o, v, order, idx, depth, prefix)
    {
      var block := PrintChild(o, v, order, idx, depth, prefix, children[idx].0, children[idx].1);
      assert ChildrenLines(o, v, order, idx + 1, depth, prefix) == lines + block;
      lines := lines + block;
    }
  }

  /** One iteration: the child's line, then its subtree when it is a container. */
  method PrintChild(o: WalkOptions, v: Value, order: seq<nat>, idx: nat, depth: nat, prefix: string,
                    name: string, child: Value)
    returns (block: seq<string>)
    requires IsContainer(v) && idx < |order|
    requires forall k :: 0 <= k < |order| ==> order[k] < NumChildren(v)
    requires name == ChildLabel(v, idx, order[idx]) && child == ChildValue(v, order[idx])
    ensures block == ChildBlock(o, v, order, idx, depth, prefix)
    decreases v, 0
  {
    assert child == Nth(v, order[idx]);
    var isLast := idx == |order| - 1;
    var connector := Connector(isLast);
    var childTag := NodeTag(child, o.showLengths);
    if childTag != "" {
      var nested := PrintTree(o, child, depth + 1, prefix + Extension(isLast), false);
      block := [prefix + connector + name + " " + childTag] + nested;
    } else {
      var rendered := RenderValue(child, o.quoteStrings, o.truncateLen);
      block := [prefix + connector + name + ": " + rendered + TypeSuffix(o, child)];
    }
  }

  /** `walk(item, path, ...)` with `len(path) == pathLength`: the collected
      copy, and the printed lines when `print_output` is set. */
  method WalkTree(item: Value, pathLength: nat, o: WalkOptions, printOutput: bool)
    returns (collected: Value, lines: seq<string>)
    ensures collected == Collected(o, item, 0)
    ensures lines == if printOutput then TreeLines(o, item, pathLength, "", true) else []
  {
    collected := CollectData(o, item, 0);
    lines := [];
    if printOutput {
      lines := PrintTree(o, item, pathLength, "", true);
    }
  }
}
