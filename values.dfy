/** The nested values the container utilities work on: Python's `None`, `bool`,
    `int`, `str`, mappings, lists and tuples, sets and frozensets, and an opaque
    leaf for everything else (bytes, floats, dates, ...). */
module Values {
  import opened Decimal

  /** The class of a mapping, as far as the utilities can observe it:
      - `Dict`: exactly `dict`;
      - `DictSubclass`: a subclass of `dict` (`isinstance(obj, dict)` holds);
      - `Rebuildable`: another `Mapping` class whose constructor accepts a list
        of pairs and no arguments (e.g. `UserDict`);
      - `Unbuildable`: another `Mapping` class whose constructor raises. */
  datatype MapKind = Dict | DictSubclass | Rebuildable | Unbuildable

  datatype Value =
    | Null
    | Bool(b: bool)
    | Int(i: int)
    | Str(s: string)
      /** Any other leaf: its `type(x).__name__`, its `str(x)`, whether `hash(x)` works. */
    | Other(typeName: string, text: string, hashable: bool)
      /** A mapping; its items in iteration order. */
    | Map(kind: MapKind, items: seq<(Value, Value)>)
      /** A list (`isTuple` false) or a tuple. */
    | Seq(isTuple: bool, elems: seq<Value>)
      /** A set (`isFrozen` false) or a frozenset; elements in iteration order. */
    | Set(isFrozen: bool, elems: seq<Value>)

  /** `isinstance(x, Mapping | Sequence | AbcSet)` without `str`/`bytes`. */
  predicate IsContainer(v: Value) {
    v.Map? || v.Seq? || v.Set?
  }

  /** `isinstance(value, Sequence) and not isinstance(value, str | bytes | bytearray)`. */
  predicate IsSequence(v: Value) {
    v.Seq?
  }

  /** `isinstance(value, AbcSet)`. */
  predicate IsSetLike(v: Value) {
    v.Set?
  }

  /** The emptiness rule of `prune_data`: `None`, `""` and empty containers are
      empty; `0`, `False`, non-empty strings and other leaves are not. */
  predicate IsEmpty(v: Value) {
    match v
    case Null => true
    case Str(s) => |s| == 0
    case Map(_, items) => |items| == 0
    case Seq(_, elems) => |elems| == 0
    case Set(_, elems) => |elems| == 0
    case _ => false
  }

  /** Whether `hash(v)` succeeds: lists, dicts and sets never; a tuple or a
      frozenset exactly when all its elements are hashable. */
  predicate Hashable(v: Value) {
    match v
    case Map(_, _) => false
    case Seq(isTuple, elems) => isTuple && forall e | e in elems :: Hashable(e)
    case Set(isFrozen, elems) => isFrozen && forall e | e in elems :: Hashable(e)
    case Other(_, _, h) => h
    case _ => true
  }

  /** A hashable value has no mapping anywhere inside it. */
  predicate MapFree(v: Value) {
    match v
    case Map(_, _) => false
    case Seq(_, elems) => forall e | e in elems :: MapFree(e)
    case Set(_, elems) => forall e | e in elems :: MapFree(e)
    case _ => true
  }

  lemma {:induction false} HashableIsMapFree(v: Value)
    requires Hashable(v)
    ensures MapFree(v)
  {
    match v
    case Seq(_, elems) =>
      forall e | e in elems ensures MapFree(e) {
        HashableIsMapFree(e);
      }
    case Set(_, elems) =>
      forall e | e in elems ensures MapFree(e) {
        HashableIsMapFree(e);
      }
    case _ =>
  }

  predicate Distinct<T(==)>(s: seq<T>) {
    forall i, j :: 0 <= i < j < |s| ==> s[i] != s[j]
  }

  /** Building a set from a list (`set(items)`): later duplicates disappear,
      the first occurrence of each element is kept, in order. */
  function Dedup<T(==)>(s: seq<T>): (r: seq<T>)
    ensures forall i :: 0 <= i < |r| ==> r[i] in s
    ensures forall i :: 0 <= i < |s| ==> s[i] in r
    ensures Distinct(r)
    ensures |r| <= |s|
  {
    if s == [] then []
    else
      var r := Dedup(s[..|s| - 1]);
      assert forall i :: 0 <= i < |s| - 1 ==> s[i] == s[..|s| - 1][i];
      if s[|s| - 1] in s[..|s| - 1] then r else r + [s[|s| - 1]]
  }

  /** A list without duplicates is already a set in iteration order. */
  lemma {:induction false} DedupDistinct<T>(s: seq<T>)
    requires Distinct(s)
    ensures Dedup(s) == s
  {
    if s != [] {
      DedupDistinct(s[..|s| - 1]);
    }
  }

  /** Real Python data: every set holds distinct hashable elements, every
      mapping distinct keys. */
  predicate WellFormed(v: Value) {
    match v
    case Map(_, items) =>
      && (forall i, j :: 0 <= i < j < |items| ==> items[i].0 != items[j].0)
      && (forall i :: 0 <= i < |items| ==> WellFormed(items[i].1))
    case Seq(_, elems) => forall e | e in elems :: WellFormed(e)
    case Set(_, elems) => Distinct(elems) && forall e | e in elems :: Hashable(e) && WellFormed(e)
    case _ => true
  }

  // ---- str() and repr() of values ----

  /** `repr(s)` of a string: single quotes unless the text holds a single quote
      and no double quote. */
  function ReprStr(s: string): string {
    if '\'' in s && '"' !in s then "\"" + EscapeQuoted(s, '"') + "\""
    else "'" + EscapeQuoted(s, '\'') + "'"
  }

  /** Backslashes and the quote character `q` escaped with a backslash. */
  function EscapeQuoted(s: string, q: char): string {
    if s == [] then ""
    else
      (if s[0] == '\\' then "\\\\" else if s[0] == q then ['\\', q] else [s[0]])
      + EscapeQuoted(s[1..], q)
  }

  function BoolText(b: bool): string {
    if b then "True" else "False"
  }

  /** `str(v)`. */
  function PyStr(v: Value): string
    decreases v, 2
  {
    match v
    case Str(s) => s
    case _ => Repr(v)
  }

  /** `repr(v)`, which containers use for their elements. */
  function Repr(v: Value): string
    decreases v, 1
  {
    match v
    case Null => "None"
    case Bool(b) => BoolText(b)
    case Int(i) => IntToString(i)
    case Str(s) => ReprStr(s)
    case Other(_, text, _) => text
    case Map(_, items) => "{" + ReprItems(v, |items|) + "}"
    case Seq(isTuple, elems) =>
      if !isTuple then "[" + ReprElems(v, |elems|) + "]"
      else if |elems| == 1 then "(" + ReprElems(v, 1) + ",)"
      else "(" + ReprElems(v, |elems|) + ")"
    case Set(isFrozen, elems) =>
      if elems == [] then (if isFrozen then "frozenset()" else "set()")
      else if isFrozen then "frozenset({" + ReprElems(v, |elems|) + "})"
      else "{" + ReprElems(v, |elems|) + "}"
  }

  /** `", ".join(repr(e) for e in elems[:n])`. */
  function ReprElems(parent: Value, n: nat): string
    requires (parent.Seq? || parent.Set?) && n <= |parent.elems|
    decreases parent, 0, n
  {
    if n == 0 then ""
    else if n == 1 then Repr(parent.elems[0])
    else ReprElems(parent, n - 1) + ", " + Repr(parent.elems[n - 1])
  }

  /** `", ".join(f"{k!r}: {v!r}" for k, v in items[:n])`. */
  function ReprItems(parent: Value, n: nat): string
    requires parent.Map? && n <= |parent.items|
    decreases parent, 0, n
  {
    if n == 0 then ""
    else
      var entry := Repr(parent.items[n - 1].0) + ": " + Repr(parent.items[n - 1].1);
      if n == 1 then entry else ReprItems(parent, n - 1) + ", " + entry
  }

  /** `type(v).__name__`. Mapping classes other than `dict` are named
      `Mapping` here: their name is never printed or compared by the
      modelled code (they are neither leaves nor keys). */
  function TypeName(v: Value): string {
    match v
    case Null => "NoneType"
    case Bool(_) => "bool"
    case Int(_) => "int"
    case Str(_) => "str"
    case Other(name, _, _) => name
    case Map(kind, _) => if kind == Dict then "dict" else "Mapping"
    case Seq(isTuple, _) => if isTuple then "tuple" else "list"
    case Set(isFrozen, _) => if isFrozen then "frozenset" else "set"
  }

  /** `str.lower()` as far as the type names it is applied to need: only the
      ASCII letters `A` to `Z` are folded. Python also folds other cased
      letters (`"Ä".lower() == "ä"`); the model leaves them as they are. */
  function Lower(s: string): (r: string)
    ensures |r| == |s|
  {
    if s == [] then ""
    else [if 'A' <= s[0] <= 'Z' then (s[0] as int + 32) as char else s[0]] + Lower(s[1..])
  }
}
