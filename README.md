# etlutil container and date helpers in Dafny

This project models the core of the `etlutil` package, the helpers an ETL
pipeline uses to clean nested data and to build date ranges, and proves what
those helpers promise.

- **`prune_data`** walks a nested structure of mappings, lists, tuples, sets
  and frozensets. It drops the mapping keys a key predicate matches (down to
  `max_depth`), the values a value predicate matches, and, with
  `remove_empty`, values that are `None`, `""` or empty containers. It
  rebuilds each container as its own kind.
- **`walk`** makes a copy of a nested value that is cut off at `max_depth`
  and at `max_items_per_container`, with mapping keys turned into their
  `str()` labels. On request it also prints the value as a tree with
  `├─ ` / `└─ ` connectors.
- **`move_unknown_keys_to_extra`** first renames dict keys whose `str()`
  forms collide. It then keeps the whitelisted keys at the top level and
  gathers every other key under one extra key, renaming any key that clashes
  with that extra key. Finally it sorts the output.
- **`format_year_month`** and **`generate_date_array`** parse ISO dates.
  `generate_date_array` steps from a start date towards an end date by days,
  weeks, months, quarters or years, like BigQuery's `GENERATE_DATE_ARRAY`.

## Modules

- **Data.**
  - `Values` holds Python values as a datatype: `None`, `bool`, `int`, `str`,
    other leaves, mappings as item lists, lists and tuples, sets and
    frozensets as element lists in iteration order. It also defines
    `str()`/`repr()`, hashability and the emptiness rule.
  - `Outcomes` holds `Option` and `Result`: a `Result` is a returned value or
    the raised exception.
  - `Dicts` holds Python dicts as insertion-ordered entry lists.
  - `Ordering` holds Python's stable `sorted` with tuple keys and code-point
    string order.
  - `Decimal` holds decimal digit text.
  - `Calendar` holds `datetime.date`, `timedelta` and `relativedelta`
    arithmetic.
- **Operations.**
  - `Prune` models `prune_data` and its inner functions.
  - `Walk` models `walk`, `_collect_data`, `_children_with_labels`,
    `_node_tag`, `_print_tree` and `_render_value`.
  - `Extra` models `move_unknown_keys_to_extra`, `_resolve_key_collisions` and
    `_resolve_extra_key_collision`.
  - `Dates` models `_parse_date`, `format_year_month` and
    `generate_date_array`.
- **Properties.** `WalkProperties`, `ExtraProperties`, `MoveProperties` and
  `DateProperties` prove what the operations promise.

Where the source changes things step by step, the loop is a `method`, proved
equal to a specification function. The functions carry the properties:
- `Process` fills `result_items`, `result_list` and `result_set_items`.
- `CollectData` and `PrintTree` run the collector and the printer.
- `FindFreeName` runs the `while True` counter loop.
- The loops of `move_unknown_keys_to_extra` and `_resolve_key_collisions` are
  methods too.
- `GenerateDateArray` and `StepDates` run the date loop.

The printer's `writer` callback becomes a returned list of lines.

## Model

| member | source | states |
|---|---|---|
| Prune.MakePredicate | etlutil/data_structures.py:61-73 | `None` matches nothing and is empty. A callable is used as is and is not empty. An iterable matches exactly its elements and is empty iff it has none. Anything else raises `TypeError("<label> must be Iterable or Callable")` |
| Prune.PruneErrors | etlutil/data_structures.py:57-73 | `prune_data` raises iff `max_depth` is negative or a removal argument is neither iterable nor callable. The `ValueError` on `max_depth` comes first, then `keys_to_remove`, then `values_to_remove` |
| Prune.PruneNoOp | etlutil/data_structures.py:76-77 | With both predicates empty and `remove_empty` off, the input object itself is returned |
| Prune.Pruned | etlutil/data_structures.py:113-202 | `process` keeps the container kind. A mapping is rebuilt as `dict`, or as its own class when that class accepts a list of pairs. Lists stay lists and tuples stay tuples; sets stay sets and frozensets stay frozensets; a leaf is returned unchanged |
| Prune.Process | etlutil/data_structures.py:113-202 | The recursive kernel computes exactly `Pruned` |
| Prune.ProcessItems | etlutil/data_structures.py:123-155 | The mapping loop builds `result_items`: the surviving entries in order |
| Prune.ProcessElems | etlutil/data_structures.py:158-178 | The list/tuple loop builds `result_list`: the surviving elements in order |
| Prune.ProcessSetElems | etlutil/data_structures.py:182-199 | The set loop builds `result_set_items`. A set-like element is never entered, and only hashable survivors are appended |
| Prune.EmptyLike | etlutil/data_structures.py:204-221 | An empty mapping of the same class (`{}` when the class cannot be built empty). An empty list or tuple, or an empty set or frozenset. `""` for a string; any other leaf unchanged |
| Prune.ProcessRoot | etlutil/data_structures.py:224-228 | Processes the root at depth 0. Under `remove_empty` an empty result is replaced by `empty_like(data)` |
| Prune.PruneData | etlutil/data_structures.py:21-228 | The whole function: its error checks, the no-op shortcut and the processed root, as `PruneResult` specifies |
| Prune.MappingEntries | etlutil/data_structures.py:123-147 | A pruned mapping holds exactly the input entries that survive, each with its key and its processed value. An entry survives when the key filter (at this depth) spares its key, it is not empty under `remove_empty`, and, unless it is a sequence or a set, the value predicate does not match it |
| Prune.SequenceElements | etlutil/data_structures.py:164-175 | A pruned list or tuple holds exactly the processed elements that are neither empty (under `remove_empty`) nor matched |
| Prune.SetElements | etlutil/data_structures.py:183-199 | A pruned set holds exactly the surviving hashable processed elements, without duplicates |
| Prune.EntryOrigin | etlutil/data_structures.py:129-147 | Every entry of a pruned mapping comes from one surviving input entry |
| Prune.ElemOrigin | etlutil/data_structures.py:166-175 | Every element of a pruned list or tuple comes from one surviving input element |
| Prune.SetElemOrigin | etlutil/data_structures.py:185-196 | Every element of a pruned set comes from one surviving input element |
| Prune.SetElementsNotEntered | etlutil/data_structures.py:187-190 | A set or frozenset inside a set is copied as it is, never processed |
| Prune.DepthLimitCopies | etlutil/data_structures.py:125-138 | At or below the depth limit, children are copied unprocessed; the filters alone decide which stay |
| Prune.KeysRemovedToDepth | etlutil/data_structures.py:125-132 | No mapping of the result at depth `<= max_depth` (at any depth without a limit) holds a key the key predicate matches |
| Prune.NoEmptyLeft | etlutil/data_structures.py:139-199 | With `remove_empty` and no depth limit, no node below the root of the result is empty, provided no set directly holds a set |
| Prune.NestedSetKeepsEmptyMember | etlutil/data_structures.py:187-190 | The proviso is needed: `{frozenset({""})}` comes out unchanged, empty member included |
| Prune.RootKind | etlutil/data_structures.py:224-228 | Under `remove_empty` an empty root has the input's kind; otherwise it has the kind `process` gives it |
| Prune.PrunedSetsHashable | etlutil/data_structures.py:195-196 | Without a depth limit, every set in the result holds only hashable elements. With a limit this holds provided the input's sets already did, since subtrees below the limit are copied |
| Prune.PrunedIdempotent | etlutil/data_structures.py:113-202 | Processing a processed value again with the same settings changes nothing |
| Prune.PruneIdempotent | etlutil/data_structures.py:21-228 | `prune_data(prune_data(x, ...), ...) == prune_data(x, ...)` for any arguments on which the first call returns |
| Prune.DeeperPassAbsorbs | etlutil/data_structures.py:113-202 | With only a key predicate and well-formed input (distinct keys, distinct hashable set elements), pruning to a deeper limit after a shallower pass gives what the deeper pass alone gives |
| Prune.PruneDepthMonotone | etlutil/data_structures.py:21-228 | The same for `prune_data` on well-formed data, with `max_depth` `D1 <= D2` |
| Values.Dedup | etlutil/data_structures.py:197-199 | `set(result_set_items)` keeps every element and each only once |
| Values.DedupDistinct | etlutil/data_structures.py:197-199 | A list without repeats becomes a set in the same order |
| Values.HashableIsMapFree | etlutil/data_structures.py:105-111 | A hashable value has no mapping anywhere inside it |
| Walk.Take | etlutil/data_structures.py:487-488 | Python's `s[:n]`: a prefix of at most `min(n, len(s))` elements. `None` keeps all; a negative `n` cuts from the end |
| Walk.SortedPositions | etlutil/data_structures.py:476-480 | Sorting keeps every position exactly once, puts them in non-decreasing order of the key `sorted` uses (the value itself, or `str()` after the `TypeError` fallback), and keeps positions with equal keys in input order |
| Walk.ChildOrder | etlutil/data_structures.py:474-501 | Every returned child is a child of the container |
| Walk.ChildrenWithLabels | etlutil/data_structures.py:461-504 | One labelled child per chosen position. The label is `str(key)` for a mapping entry and `[j]` for the `j`-th returned element |
| Walk.Collected | etlutil/data_structures.py:348-454 | A mapping becomes a `dict`. A list or tuple keeps its kind, and so does a set or frozenset; a leaf is copied |
| Walk.CollectData | etlutil/data_structures.py:348-454 | The collector computes exactly `Collected` |
| Walk.CollectMapping | etlutil/data_structures.py:374-391 | The mapping loop assigns `result[label]` for each labelled child in order |
| Walk.CollectEntry | etlutil/data_structures.py:378-390 | One iteration of the mapping loop |
| Walk.CollectChild | etlutil/data_structures.py:380-390 | A container child is collected one level deeper; a leaf is copied |
| Walk.CollectElements | etlutil/data_structures.py:395-449 | The list and set loops append each labelled child, collected |
| Walk.CollectElement | etlutil/data_structures.py:401-415 | One iteration of the list or set loop |
| Walk.Truncate | etlutil/data_structures.py:627-628 | Text longer than a non-negative limit is cut to the limit plus `…`; otherwise it is unchanged |
| Walk.NodeTag | etlutil/data_structures.py:507-520 | The tag is empty iff the value is not a container. A mapping's tag is `[dict]`, a list's or tuple's `[list]`, a set's or frozenset's `[set]`; with `show_lengths` the word is followed by ` len=` (` size=` for sets) and the number of children in decimal |
| WalkProperties.NodeTagReadBack | etlutil/data_structures.py:507-520 | With `show_lengths`, a container's tag is a ten-character head naming its kind, then the decimal count of its children, then `]` |
| WalkProperties.NodeTagInjective | etlutil/data_structures.py:507-520 | Two containers with the same tag are of the same kind, and with `show_lengths` have the same number of children |
| Walk.Connector | etlutil/data_structures.py:560 | A three-character connector starting with `└` or `├` |
| Walk.Extension | etlutil/data_structures.py:570 | A three-character prefix extension starting with a space or `│` |
| Walk.PrintTree | etlutil/data_structures.py:523-592 | The printer writes exactly the lines `TreeLines` gives |
| Walk.PrintChildren | etlutil/data_structures.py:557-586 | The loop over the labelled children writes each child's block in order |
| Walk.PrintChild | etlutil/data_structures.py:558-586 | One iteration: the child's line, then its subtree under the extended prefix |
| Walk.WalkTree | etlutil/data_structures.py:307-345 | `walk` returns `_collect_data(item)` collected from depth 0. It prints the tree from the root with an empty prefix, at the depth given by `len(path)`, iff `print_output` |
| WalkProperties.EntryOrigin | etlutil/data_structures.py:374-391 | Every collected entry is some child's `str(key)` label with that child's collected value |
| WalkProperties.EntryPresent | etlutil/data_structures.py:374-391 | Every child's label is a key of the collected dict |
| WalkProperties.MappingKeys | etlutil/data_structures.py:374-391 | Within the limit, the collected dict's keys are exactly the `str()` of the original keys, each once |
| WalkProperties.SequencePrefix | etlutil/data_structures.py:395-420 | Within the limit, a list or tuple keeps its kind and its first `max_items_per_container` elements, each collected |
| WalkProperties.SetElements | etlutil/data_structures.py:424-449 | Within the limit, a set keeps its kind. Its elements are distinct collected copies of chosen elements, and with no item limit every element's copy is there |
| WalkProperties.AtLimitEmptied | etlutil/data_structures.py:361-370 | At the depth limit a container is emptied and a leaf is copied |
| WalkProperties.CollectedWithinLimits | etlutil/data_structures.py:348-454 | At every level of the collected copy: nothing deeper than the depth limit, no container over the item limit, and only `dict`s with distinct string keys |
| WalkProperties.EntriesInOrder | etlutil/data_structures.py:374-391 | When the labels are distinct, nothing is overwritten: the entries follow the child order one for one |
| WalkProperties.SortedStringKeys | etlutil/data_structures.py:476-482 | With `sort_keys` and string keys, every entry is kept once with its collected value, and the keys ascend |
| WalkProperties.LinesUnderPrefix | etlutil/data_structures.py:557-586 | Below the root, every line of a subtree starts with its prefix |
| WalkProperties.BlockShape | etlutil/data_structures.py:558-586 | A child's block is its connector line, then (for a container) lines under the extended prefix. A leaf child takes one line |
| WalkProperties.ChildrenConnectors | etlutil/data_structures.py:557-560 | Over the children, `└─ ` appears once, for the last child, and `├─ ` for every other |
| WalkProperties.Connectors | etlutil/data_structures.py:549-560 | A container prints one connector line per labelled child, with exactly one `└─ `. At the depth limit it prints nothing |
| WalkProperties.RootLines | etlutil/data_structures.py:544-592 | At the root a container prints its tag first, and only the tag at the depth limit. A leaf prints its rendered value and type suffix alone |
| WalkProperties.PrintMirrorsCollect | etlutil/data_structures.py:398-400 | The printer shows as many elements of a list as the collector keeps |
| WalkProperties.EscapeRoundTrip | etlutil/data_structures.py:631 | The escaping reads back as the original text |
| WalkProperties.RenderValueMeaning | etlutil/data_structures.py:595-640 | A string is truncated and then, with `quote_strings`, escaped and quoted in a way that reads back as the truncated text. Any other leaf renders as its truncated `str()` |
| WalkProperties.PermutationDistinct | etlutil/data_structures.py:474-501 | An arrangement of the positions holds each one once |
| Extra.FreeName | etlutil/data_structures.py:854-878 | The name returned is not taken, starts with the base name, and is the base name itself when that is free |
| Extra.FreeNameFirst | etlutil/data_structures.py:871-878 | A taken base key is replaced by the first free `_original`, `_original2`, ... candidate |
| Extra.FreeFromFirst | etlutil/data_structures.py:873-878 | The counter loop returns the first free candidate from its counter on |
| Extra.FindFreeName | etlutil/data_structures.py:868-878 | The `while True` counter loop terminates and computes `FreeName` |
| Extra.ResolveExtraKeyCollision | etlutil/data_structures.py:854-878 | The returned name is not a key of `kept_items` |
| Extra.AddToGroup | etlutil/data_structures.py:804-807 | A new `str()` name opens a group of its own at the end; an existing one keeps the number of groups |
| Extra.ResolveGroups | etlutil/data_structures.py:812-849 | The groups yield a dict with distinct keys; `ExtraNames.PlanFold` proves that as written this is the plan of assignments `Plan` applied in order |
| Extra.Resolved | etlutil/data_structures.py:772-851 | The corrected collision resolution yields a dict with distinct keys |
| Extra.ResolvedAsWritten | etlutil/data_structures.py:772-851 | The resolution as written yields a dict with distinct keys |
| Extra.ResolveKeyCollisions | etlutil/data_structures.py:795-851 | The sort, grouping and group loops compute `ResolvedAsWritten`, the resolution as written, with `resolved[suffixed_name] = value` unchecked |
| ExtraNames.GroupsOfItems | etlutil/data_structures.py:799-807 | Every group holds exactly the pairs of the input whose key has the group's `str()` name |
| ExtraNames.GroupPlanNames | etlutil/data_structures.py:812-849 | A group's assignments store each of its pairs' values under the name the rule gives the key: the bare `str()` for a lone key or a string key, `"{str_name}__{type}"` otherwise. Every assignment is of this form |
| ExtraNames.PlanFold | etlutil/data_structures.py:812-849 | As written, the group loop makes exactly the assignments of `Plan`, group after group |
| ExtraNames.AsWrittenFold | etlutil/data_structures.py:772-851 | As written, the resolved dict is what assigning the plan's entries in order to an empty dict gives |
| ExtraNames.AsWrittenNames | etlutil/data_structures.py:772-851 | As written, every input key's intended name (bare, or suffixed with its type) is a key of the result, and every entry of the result is some input pair's value under that pair's intended name |
| ExtraNames.AsWrittenLastAssigned | etlutil/data_structures.py:812-849 | As written, every entry of the result is the last assignment the plan makes to its name |
| ExtraNames.AsWrittenBareKept | etlutil/data_structures.py:812-837 | As written, a string key or a key alone in its `str()` group keeps its own value under its bare `str()`: no later suffixed name can overwrite it |
| ExtraNames.AsWrittenStringKeys | etlutil/data_structures.py:834-837 | As written, a string key's own value is stored under the key itself |
| Extra.AllowedNames | etlutil/data_structures.py:708 | `{str(k) for k in allowed_keys}`, empty for `None` |
| Extra.RenameExtraKey | etlutil/data_structures.py:720-725 | Popping `extra_key` and storing it under a free `_original` name keeps the keys distinct; what it does to each key is stated by `MoveProperties.RenameExtraKeyGet` and `MoveProperties.RenameExtraKeyMoves` |
| Extra.KeysWithPrefix | etlutil/data_structures.py:729-732 | Exactly the keys starting with `{extra_key}_original` |
| Extra.PresentKeys | etlutil/data_structures.py:735-739 | Only keys of the list that the dict holds, in order |
| Extra.RestoreSame | etlutil/data_structures.py:736-738 | A popped key is free, so `_resolve_extra_key_collision` returns the key itself (etlutil/data_structures.py:868-869); storing the value back appends the entry and leaves the value under every key unchanged |
| Extra.RenameCascade | etlutil/data_structures.py:735-739 | Renaming the collected keys keeps the keys distinct and the value under every key unchanged, whether or not the key was there; the names recorded as renamed are the keys the dict held, in order, i.e. each key is stored back under itself |
| Extra.Classify | etlutil/data_structures.py:742-754 | The kept and extra dicts have distinct keys |
| Extra.SortedOutput | etlutil/data_structures.py:763-767 | The sorted output has distinct keys |
| Extra.RenameExtra | etlutil/data_structures.py:720-725 | Step 2's pop-and-store computes `RenameExtraKey` |
| Extra.CollectKeysToRename | etlutil/data_structures.py:729-732 | The loop collects `KeysWithPrefix` |
| Extra.RenameKeys | etlutil/data_structures.py:735-739 | The renaming loop computes `RenameCascade` |
| Extra.ClassifyKeys | etlutil/data_structures.py:742-754 | The classification loop computes `Classify` |
| Extra.Finish | etlutil/data_structures.py:758-767 | Adding the extra dict and sorting computes `SortedOutput` of `WithExtra` |
| Extra.MoveUnknownKeysToExtra | etlutil/data_structures.py:643-769 | The whole function computes `MoveUnknown` over the collision resolution as written |
| Extra.InsertDistinct | etlutil/data_structures.py:763 | Sorting keeps the keys distinct |
| ExtraProperties.GroupsOfNamed | etlutil/data_structures.py:803-807 | Every group is named by some key's `str()`, and every pair in it has that name |
| ExtraProperties.GroupsOfValues | etlutil/data_structures.py:803-807 | The groups hold exactly the values of the sorted pairs |
| ExtraProperties.GroupOfPair | etlutil/data_structures.py:803-807 | Every pair lands in the group named by its key's `str()` |
| ExtraProperties.ResolvedKeepsValues | etlutil/data_structures.py:772-851 | Corrected, the resolved dict holds exactly the input's values, as a multiset, one entry per input key |
| ExtraProperties.ResolvedStringKeys | etlutil/data_structures.py:834-837 | A string key keeps its bare name. With distinct keys, its own value is stored there |
| ExtraProperties.CollidingItemsSorted | etlutil/data_structures.py:799-800 | The sort puts `"1"`, `1` and `"1__int"` in that order |
| ExtraProperties.CollidingItemsGrouped | etlutil/data_structures.py:803-807 | They make the groups `"1"` (`"1"` and `1`) and `"1__int"` |
| ExtraProperties.AsWrittenLosesValue | etlutil/data_structures.py:812-849 | As written, the value of `1` is stored as `"1__int"` and is then overwritten by the value of the key `"1__int"` |
| ExtraProperties.CorrectedKeepsValue | etlutil/data_structures.py:812-849 | Corrected, the same keys keep all three values |
| MoveProperties.ClassifyFilters | etlutil/data_structures.py:742-754 | The classification splits the dict into the entries that stay (whitelisted or renamed) and those that move, each in order. It lists exactly the moved keys |
| MoveProperties.RenameExtraKeyFrees | etlutil/data_structures.py:720-725 | After step 2, `extra_key` is no longer a key |
| MoveProperties.RenameCascadeFinds | etlutil/data_structures.py:735-736 | Over keys the dict holds, every key is still there when its turn comes: the case of a key gone before its pop never arises |
| MoveProperties.PresentKeysAll | etlutil/data_structures.py:729-739 | Keys all held by the dict are all recorded |
| MoveProperties.PrefixKeysPresent | etlutil/data_structures.py:729-732 | The keys collected for renaming are all keys of the dict |
| MoveProperties.RenameExtraKeyMoves | etlutil/data_structures.py:720-725 | With `extra_key` a key, step 2 records exactly the first free `_original` name, and its entries are the old ones with `(extra_key, v)` replaced by `(name, v)`; otherwise nothing changes |
| MoveProperties.RenameExtraKeyGet | etlutil/data_structures.py:720-725 | Step 2 key by key: the `_original` name was not a key before and now holds the popped value, `extra_key` is gone, and every other key keeps its value |
| MoveProperties.RenamedNames | etlutil/data_structures.py:717-739 | The renamed set holds the `_original` name (when `extra_key` was a key) followed by exactly the keys starting with the `_original` prefix, each stored back under its own name |
| MoveProperties.RenamedMovesExtra | etlutil/data_structures.py:720-739 | After both steps, with `extra_key` a key: its value sits under the `_original` name, which was free before; `extra_key` is gone; every other key keeps its value |
| MoveProperties.RenamedKeepsAll | etlutil/data_structures.py:720-739 | After both steps, with `extra_key` not a key: every key keeps its value |
| MoveProperties.RenamedEntries | etlutil/data_structures.py:720-739 | After both steps the multiset of entries is the old one with `(extra_key, v)` replaced by `(name, v)`, or unchanged when `extra_key` was not a key |
| MoveProperties.OriginalStays | etlutil/data_structures.py:720-754 | The popped value stays at the top level under its `_original` name, which is recorded as renamed |
| MoveProperties.RenamedFreesExtra | etlutil/data_structures.py:720-739 | After both renaming steps, no key equals `extra_key` |
| MoveProperties.SortedOutputShape | etlutil/data_structures.py:763-767 | Keys are sorted, every kept entry except the extra key's is unchanged, and nothing is added |
| MoveProperties.SortedOutputExtra | etlutil/data_structures.py:766-767 | The extra dict in the output has its keys sorted |
| MoveProperties.OutputShape | etlutil/data_structures.py:758-767 | The extra key is present iff something moved or `always_add_extra` is set. It then holds the moved entries with sorted keys |
| MoveProperties.ArrangedShape | etlutil/data_structures.py:742-769 | Steps 3 to 5 on a dict without the extra key have the full output shape |
| MoveProperties.MoveUnknownSplits | etlutil/data_structures.py:643-769 | For the collision resolution as written and for the corrected one alike: a non-dict raises `TypeError`. Otherwise: every resolved entry that stays is in the output, and every other output entry is the extra key's. The moved names are the sorted keys that moved. The extra key is present iff something moved or `always_add_extra`, and holds the moved entries sorted. The top-level keys are sorted. When `extra_key` was a resolved key, its value is in the output under the first free `{extra_key}_original` name |
| Dicts.Find | etlutil/data_structures.py:720 | `key in d` finds the entry under the key iff there is one |
| Dicts.Assign | etlutil/data_structures.py:724 | `d[k] = v`: an existing key keeps its place, a new key is appended, and the keys stay distinct |
| Dicts.GetRemove | etlutil/data_structures.py:722 | `d.pop(k)` leaves the value under every other key unchanged |
| Dicts.RemoveMultiset | etlutil/data_structures.py:722 | `d.pop(k)` takes out exactly the entry under `k` |
| Dicts.GetSnoc | etlutil/data_structures.py:724 | Storing under a new key adds it with its value and changes no other key |
| Dicts.Reinsert | etlutil/data_structures.py:736-738 | Popping a key and storing its value back under it leaves the value under every key unchanged |
| Dicts.SameGetMultiset | etlutil/data_structures.py:735-739 | Dicts that agree on every key hold the same entries, as Python's dict equality says |
| Dicts.Get | etlutil/data_structures.py:766 | `d[k]` is the value stored under `k` iff `k` is present |
| Dicts.Remove | etlutil/data_structures.py:722 | `d.pop(k)` removes that entry and keeps every other entry in order |
| Dicts.AssignAll | etlutil/data_structures.py:378-390 | Repeated `d[k] = v` from an empty dict gives distinct keys |
| Dicts.AssignAllOrigin | etlutil/data_structures.py:843-849 | Every entry of the dict that repeated `d[k] = v` builds is the last assignment made to its key |
| Ordering.SortBy | etlutil/data_structures.py:763 | `sorted` returns a permutation of its input |
| Ordering.SortBySorted | etlutil/data_structures.py:763 | `sorted` returns its input in non-decreasing key order |
| Ordering.SortByMembers | etlutil/data_structures.py:769 | Sorting neither adds nor drops an element |
| Ordering.Insert | etlutil/data_structures.py:800 | One insertion step adds exactly one element |
| Ordering.SortByStable | etlutil/data_structures.py:476-480 | `sorted` is stable: of increasing positions, those with equal keys come out in increasing order |
| Ordering.InsertStable | etlutil/data_structures.py:476-480 | An insertion step places a new last position after every element with its key |
| Dates.IsoFormat | etlutil/date.py:14-18 | `isoformat()` is ten characters, `YYYY-MM-DD` |
| Dates.FromIsoFormat | etlutil/date.py:16-17 | `fromisoformat` gives a valid date or raises `ValueError` |
| Dates.ParseDate | etlutil/date.py:14-18 | A date object is returned as is; a string is parsed by `fromisoformat` |
| Dates.FormatYearMonth | etlutil/date.py:21-42 | Raises iff the input does not parse, with the parse error. Otherwise gives `%Y-%m` |
| Dates.IsoRoundTrip | etlutil/date.py:14-18 | Parsing what `isoformat` prints gives the date back |
| Dates.ParsedIsIso | etlutil/date.py:14-18 | A text that parses is the `isoformat` of its date |
| Dates.FromIsoFormatAccepts | etlutil/date.py:16-17 | `fromisoformat` accepts exactly the texts `isoformat` prints |
| Dates.FormatYearMonthOfDate | etlutil/date.py:41-42 | The year-month of a date is the first seven characters of its ISO text |
| Dates.FormatYearMonthOfText | etlutil/date.py:41-42 | A text that parses keeps its `YYYY-MM` prefix |
| Dates.MonthThirteenRefused | etlutil/date.py:16-17 | Month 13 raises `ValueError("month must be in 1..12")` |
| Dates.FebruaryThirtiethRefused | etlutil/date.py:16-17 | 30 February raises `ValueError("day is out of range for month")`, also in 2024 |
| Dates.GarbageRefused | etlutil/date.py:16-17 | `"invalid-date"` raises `ValueError` with its `repr` |
| Dates.Shift | etlutil/date.py:109-119 | A candidate that is computed is a valid date |
| Dates.GenerateDateArray | etlutil/date.py:45-130 | The function as written, with the defaults `interval=1` and `date_part="DAY"`: the zero interval, the parses, the equal dates, the direction check, then the loop |
| Dates.StepDates | etlutil/date.py:104-130 | The `while True` loop terminates and computes `Steps` |
| DateProperties.GeneratedParses | etlutil/date.py:87-92 | A zero `interval` gives `[]` before anything is parsed. Otherwise a text that does not parse raises, the start date first |
| DateProperties.BetweenElements | etlutil/date.py:95-127 | The `k`-th date is the `k`-th candidate, on this side of the end; the first is `date_start`. The list is empty iff the dates are out of order for the sign of `interval` |
| DateProperties.BetweenStops | etlutil/date.py:121-125 | The loop stops at the first candidate past the end, so no date of the range is missing |
| DateProperties.BetweenOrdered | etlutil/date.py:104-130 | The dates strictly rise for a positive `interval` and strictly fall for a negative one |
| DateProperties.BetweenWithin | etlutil/date.py:99-125 | Every date lies between `date_start` and `date_end`, both included |
| DateProperties.BetweenTotal | etlutil/date.py:104-130 | Corrected, two parsed dates always give a list |
| DateProperties.DateArrayErrors | etlutil/date.py:45-130 | Corrected, the function raises only for a text that does not parse |
| DateProperties.BetweenOffsets | etlutil/date.py:109-119 | The `k`-th date is `k * interval` days from the start, or `7 * k * interval` for weeks. Months, quarters (three months each) and years count from the start with the day clamped to the month reached |
| DateProperties.BetweenDaily | etlutil/date.py:104-130 | Daily stepping from a date to a later one gives every day once, `Ordinal(e) - Ordinal(s) + 1` of them |
| DateProperties.YearLength | etlutil/date.py:104-130 | Daily stepping from 1 January to 31 December gives 366 dates in a leap year and 365 otherwise (as written, for every year but 9999) |
| DateProperties.AsWrittenAgrees | etlutil/date.py:104-130 | Where the code as written returns a list, the corrected one returns the same |
| DateProperties.AsWrittenRaises | etlutil/date.py:109-119 | Where the code as written raises, the corrected list stops at a candidate that could not be computed, and the exception is that candidate's |
| DateProperties.LastTwoDaysAsWritten | etlutil/date.py:109-125 | As written, 9999-12-30 to 9999-12-31 by days raises `OverflowError` |
| DateProperties.LastTwoDays | etlutil/date.py:104-130 | Corrected, the same range returns both days |
| DateProperties.EndOfCalendar | etlutil/date.py:45-130 | Both behaviours, for `generate_date_array` itself |
| Calendar.DaysInMonth | etlutil/date.py:115-117 | A month has 28 to 31 days |
| Calendar.NextDay | etlutil/date.py:111 | The next day is valid and one day number later |
| Calendar.PrevDay | etlutil/date.py:111 | The previous day is valid and one day number earlier |
| Calendar.PlusDays | etlutil/date.py:111-113 | `date + timedelta(days=k)` succeeds iff `k` is within the `timedelta` limit and the result is within years 1 to 9999. The result is then `k` day numbers on; otherwise it raises `OverflowError` |
| Calendar.ReplaceYearError | etlutil/date.py:115-119 | `date.replace` with a year outside 1 to 9999 raises `OverflowError` exactly when the year does not fit a C `int`, and the year's `ValueError` otherwise |
| Calendar.PlusMonths | etlutil/date.py:115-117 | `date + relativedelta(months=n)` is `n` months on with the day clamped to the month. It raises iff the year leaves 1 to 9999: `OverflowError` when the year does not fit a C `int`, otherwise the `ValueError` of the range check |
| Calendar.PlusYears | etlutil/date.py:119 | `date + relativedelta(years=n)` keeps the month. It clamps 29 February and raises iff the year leaves 1 to 9999, with the same two errors as `Calendar.PlusMonths` |
| Calendar.OrdinalInjective | etlutil/date.py:95 | Two dates with the same day number are equal |
| Calendar.PlusYearsIsTwelveMonths | etlutil/date.py:117-119 | A year step is twelve month steps |

## Left out

- The other helpers of `etlutil/date.py` (`DateRange` and friends) and `convert_dict_types`, `_convert_value` and `clean_dict` of `etlutil/data_structures.py` are not part of this model.
- I/O: `print` and the `writer` callback. `PrintTree` returns the lines it would write, in order.
- `walk`'s `path`: only its length, the starting depth of the printer, is modelled. The `style` parameter is not modelled.
- `Dates.FromIsoFormat`: accepts only the `YYYY-MM-DD` form. The other forms that Python 3.11+ `date.fromisoformat` accepts (`YYYYMMDD`, week dates, ordinal dates) are not modelled; they raise `ValueError` in the model.
- `Dates.FormatYearMonth`: `%Y` is printed with four digits, which matches CPython on Linux only for years from 1000 on. Smaller years are not modelled exactly.
- `Prune.MakePredicate`: an iterable's membership test is structural equality. Python's `==` also makes `0 == False`, `1 == True` and `1 == 1.0`, and it compares containers by content: mappings regardless of the order of their entries and of their class (`{} == OrderedDict()`), sets regardless of their iteration order and of whether they are frozen (`set() == frozenset()`), and tuples element by element under the same scalar rules (`(1,) == (True,)`). None of this is modelled, so `values_to_remove=[{}]` does not remove an `OrderedDict()` in the model.
- `Values.Dedup`: `set(result_set_items)` merges elements that Python's `==` and hashing treat as equal. The model merges only structurally equal elements, so `(1,)` and `(True,)`, or two frozensets listed in different orders, stay apart.
- `Values.Repr`: an `Other` leaf carries one text, its `str()`, and the model takes its `repr()` to be that same text. For many leaf types the two differ (`repr(date(2024, 1, 1))` is `datetime.date(2024, 1, 1)` and `str` is `2024-01-01`; `Decimal('1.5')` against `1.5`), so the `str()` of a container that holds such a leaf, and the `walk` labels built from it, differ from Python's for those types.
- `Dates.DateInput`: only `date` objects and strings are modelled. A `datetime` is also a `date`; `_parse_date` returns it unchanged, the loop then produces `datetime` values, and comparing a `datetime` with a plain `date` end raises `TypeError` (etlutil/date.py:99-102 and :122-125). None of this is modelled.
- `Values.Lower`: folds only the ASCII letters `A` to `Z`, where `str.lower()` folds every cased letter. It is applied only to `type(k).__name__`, so only class names with non-ASCII capitals are affected.
- Callables passed to `prune_data` are pure total predicates here. Their side effects and exceptions are not modelled.
- `Walk.SortedPositions`: the `sorted()` `TypeError` fallback to `str()` keys is modelled by a predicate over the element kinds. The model sorts natively when there is at most one element, when every element is a `bool` or an `int` (a `bool` counting as 0 or 1, as Python compares them), or when every element is a string; everything else is sorted by `str()`. Python's native ordering of the other comparable values is not modelled, and those values are str-sorted in the model: tuples (which `sorted` compares element by element, so `(2, 0)` comes before `(10, 0)` while the model puts them the other way round), frozensets and sets (which `<` orders by inclusion, a partial order), and other leaf types such as `float`, `date` or `Decimal`, including their mixtures with `int` (Python sorts `[10, 9.5]` to `[9.5, 10]`, the model to `[10, 9.5]`).
- An unrecognised `date_part` (the `match` falls through and `date_current` is unbound) is not modelled: `DatePart` has only the five literals.
- Exception messages follow CPython where the code depends on them. The exact wording of other `datetime` errors is not modelled. The `OverflowError` text for a year that does not fit a C `int` is that of CPython's `int` argument conversion up to 3.12; later versions word it differently. `Values.ReprStr` escapes backslashes and the enclosing quote, but not control or non-printable characters as Python's `repr` does; this affects the text of the `fromisoformat` error and the `str()` of containers that hold such strings.
- `Extra.Resolved`: for the corrected resolution, only that every value is kept once (`ExtraProperties.ResolvedKeepsValues`) and that string keys keep their bare names (`ExtraProperties.ResolvedStringKeys`) are proved. The exact free variant of `"{str_name}__{type}"` that a suffixed key receives is not stated.
- The `generate_date_array` docstring says a zero interval raises `ValueError`. The code returns `[]`, and the model follows the code.
- `Dates.StepDates`: the two `break` tests are merged into one predicate, `Past`. They are mutually exclusive, so nothing is lost.
- Sets and frozensets are element lists in iteration order. Hash-based iteration order is an input, not computed.
- Mapping classes are modelled only by whether they are `dict`, a subclass of `dict` or another class. The subclass's name, the only thing `type(x).__name__` would show, is not modelled.

## Findings

| source | as written | input that shows it | evidently intended | confidence | as-written member | corrected member |
|---|---|---|---|---|---|---|
| etlutil/data_structures.py:840-849 | A suffixed name `"{str_name}__{type}"` is assigned with `resolved[suffixed_name] = value`, even when another key of the dict already has that name | `{"1": a, 1: b, "1__int": c}` gives `{"1": a, "1__int": c}`: the value `b` is lost | Every input value survives under some key | not executed | ExtraProperties.AsWrittenLosesValue | ExtraProperties.CorrectedKeepsValue |
| etlutil/date.py:104-128 | The loop computes the candidate after the last date before testing it against the end. At the end of the calendar that candidate cannot be represented, and the addition raises | `generate_date_array("9999-12-30", "9999-12-31")` raises `OverflowError` | Returns `[date(9999, 12, 30), date(9999, 12, 31)]` | not executed | DateProperties.LastTwoDaysAsWritten | DateProperties.LastTwoDays |

The corrected collision resolution gives a suffixed name the first free
`_original` variant. `ExtraProperties.ResolvedKeepsValues` proves that it
loses no value. `ResolveKeyCollisions` and `MoveUnknownKeysToExtra` compute
the resolution as written; `MoveUnknown` takes the choice as a parameter, and
`MoveProperties.MoveUnknownSplits` holds for both.

For the dates, the corrected loop treats a candidate outside the calendar
like one past the end. All the `DateProperties` lemmas are stated for both
loops. `GenerateDateArray` runs the code as written, and `DateProperties.AsWrittenAgrees`
and `AsWrittenRaises` tell exactly where the two versions differ.
