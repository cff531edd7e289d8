/**
 * What `CheckedModules::validators` enumerates: every validator definition of
 * every validator module, paired with its module, ordered by the triple
 * (package, module name, handler name).  The sort is stable, so validators
 * with the same triple keep their definition order.
 */
module ValidatorEnumeration {
  import opened Ast
  import opened StringOrder

  /** One enumerated validator and the module that defines it. */
  type Item = (CheckedModule, TypedValidator)

  /** The triple the enumeration is sorted by. */
  type SortKey = (string, string, string)

  function KeyOf(x: Item): (r: SortKey) {
    (x.0.package, x.0.name, x.1.fun.name)
  }

  /** Rust's tuple ordering: the first component that differs decides. */
  predicate KeyLe(a: SortKey, b: SortKey) {
    if a.0 != b.0 then StrLe(a.0, b.0)
    else if a.1 != b.1 then StrLe(a.1, b.1)
    else StrLe(a.2, b.2)
  }

  lemma KeyLeReflexive(a: SortKey)
    ensures KeyLe(a, a)
  {
    StrLeReflexive(a.2);
  }

  lemma KeyLeTotal(a: SortKey, b: SortKey)
    ensures KeyLe(a, b) || KeyLe(b, a)
  {
    StrLeTotal(a.0, b.0);
    StrLeTotal(a.1, b.1);
    StrLeTotal(a.2, b.2);
  }

  lemma KeyLeAntisymmetric(a: SortKey, b: SortKey)
    requires KeyLe(a, b) && KeyLe(b, a)
    ensures a == b
  {
    if a.0 != b.0 {
      StrLeAntisymmetric(a.0, b.0);
    } else if a.1 != b.1 {
      StrLeAntisymmetric(a.1, b.1);
    } else {
      StrLeAntisymmetric(a.2, b.2);
    }
  }

  lemma KeyLeTransitive(a: SortKey, b: SortKey, c: SortKey)
    requires KeyLe(a, b) && KeyLe(b, c)
    ensures KeyLe(a, c)
  {
    StrLeReflexive(a.0);
    StrLeReflexive(b.0);
    StrLeReflexive(a.1);
    StrLeReflexive(b.1);
    if a.0 != b.0 || b.0 != c.0 {
      StrLeTransitive(a.0, b.0, c.0);
      if a.0 == c.0 {
        if a.0 != b.0 { StrLeAntisymmetric(a.0, b.0); }
      }
    } else if a.1 != b.1 || b.1 != c.1 {
      StrLeTransitive(a.1, b.1, c.1);
      if a.1 == c.1 {
        if a.1 != b.1 { StrLeAntisymmetric(a.1, b.1); }
      }
    } else {
      StrLeTransitive(a.2, b.2, c.2);
    }
  }

  ghost predicate Sorted(s: seq<Item>) {
    forall i, j :: 0 <= i < j < |s| ==> KeyLe(KeyOf(s[i]), KeyOf(s[j]))
  }

  /** The items of `s` whose key is `k`, in their order in `s`. */
  function WithKey(s: seq<Item>, k: SortKey): (r: seq<Item>) {
    if s == [] then []
    else WithKey(s[..|s| - 1], k) + (if KeyOf(s[|s| - 1]) == k then [s[|s| - 1]] else [])
  }

  lemma {:induction false} WithKeyAppend(s: seq<Item>, t: seq<Item>, k: SortKey)
    ensures WithKey(s + t, k) == WithKey(s, k) + WithKey(t, k)
    decreases |t|
  {
    if t == [] {
      assert s + t == s;
    } else {
      assert (s + t)[..|s + t| - 1] == s + t[..|t| - 1];
      WithKeyAppend(s, t[..|t| - 1], k);
    }
  }

  lemma {:induction false} WithKeyMembers(s: seq<Item>, k: SortKey, x: Item)
    ensures x in WithKey(s, k) <==> x in s && KeyOf(x) == k
  {
    if s != [] {
      WithKeyMembers(s[..|s| - 1], k, x);
      assert s == s[..|s| - 1] + [s[|s| - 1]];
    }
  }

  lemma {:induction false} WithKeyNone(s: seq<Item>, k: SortKey)
    requires forall x :: x in s ==> KeyOf(x) != k
    ensures WithKey(s, k) == []
  {
    if s != [] {
      assert s[..|s| - 1] <= s;
      WithKeyNone(s[..|s| - 1], k);
    }
  }

  /**
   * Inserts `x` into the sorted `t` after every item whose key is not greater:
   * one step of a stable insertion sort.
   */
  function InsertByKey(t: seq<Item>, x: Item): (r: seq<Item>)
    requires Sorted(t)
    ensures Sorted(r) && multiset(r) == multiset(t) + multiset{x}
    ensures forall k :: WithKey(r, k) == WithKey(t, k) + (if KeyOf(x) == k then [x] else [])
  {
    if t == [] || KeyLe(KeyOf(t[|t| - 1]), KeyOf(x)) then
      InsertAtEnd(t, x);
      t + [x]
    else
      var front, last := t[..|t| - 1], t[|t| - 1];
      assert t == front + [last];
      var r := InsertByKey(front, x) + [last];
      InsertBeforeLast(front, last, x, InsertByKey(front, x));
      r
  }

  lemma InsertAtEnd(t: seq<Item>, x: Item)
    requires Sorted(t) && (t == [] || KeyLe(KeyOf(t[|t| - 1]), KeyOf(x)))
    ensures Sorted(t + [x])
    ensures forall k :: WithKey(t + [x], k) == WithKey(t, k) + (if KeyOf(x) == k then [x] else [])
  {
    AppendSorted(t, x);
    forall k ensures WithKey(t + [x], k) == WithKey(t, k) + (if KeyOf(x) == k then [x] else []) {
      WithKeySnoc(t, x, k);
    }
  }

  lemma AppendSorted(t: seq<Item>, x: Item)
    requires Sorted(t) && (t == [] || KeyLe(KeyOf(t[|t| - 1]), KeyOf(x)))
    ensures Sorted(t + [x])
  {
    var r := t + [x];
    forall i, j | 0 <= i < j < |r| ensures KeyLe(KeyOf(r[i]), KeyOf(r[j])) {
      if j < |t| {
        assert r[i] == t[i] && r[j] == t[j];
      } else if i < |t| - 1 {
        assert r[i] == t[i];
        KeyLeTransitive(KeyOf(t[i]), KeyOf(t[|t| - 1]), KeyOf(x));
      }
    }
  }

  lemma InsertBeforeLast(front: seq<Item>, last: Item, x: Item, r': seq<Item>)
    requires Sorted(front + [last]) && !KeyLe(KeyOf(last), KeyOf(x))
    requires Sorted(r') && multiset(r') == multiset(front) + multiset{x}
    requires forall k :: WithKey(r', k) == WithKey(front, k) + (if KeyOf(x) == k then [x] else [])
    ensures Sorted(r' + [last])
    ensures forall k :: WithKey(r' + [last], k) == WithKey(front + [last], k) + (if KeyOf(x) == k then [x] else [])
  {
    SortedBeforeLast(front, last, x, r');
    KeyLeReflexive(KeyOf(x));
    FiltersBeforeLast(front, last, x, r');
  }

  lemma SortedBeforeLast(front: seq<Item>, last: Item, x: Item, r': seq<Item>)
    requires Sorted(front + [last]) && !KeyLe(KeyOf(last), KeyOf(x))
    requires Sorted(r') && multiset(r') == multiset(front) + multiset{x}
    ensures Sorted(r' + [last])
  {
    KeyLeTotal(KeyOf(last), KeyOf(x));
    if r' != [] {
      var y := r'[|r'| - 1];
      assert y in multiset(r');
      if y != x {
        assert y in multiset(front);
        var j :| 0 <= j < |front| && front[j] == y;
        assert (front + [last])[j] == y && (front + [last])[|front|] == last;
      }
      assert KeyLe(KeyOf(y), KeyOf(last));
    }
    AppendSorted(r', last);
  }

  lemma FiltersBeforeLast(front: seq<Item>, last: Item, x: Item, r': seq<Item>)
    requires KeyOf(last) != KeyOf(x)
    requires forall k :: WithKey(r', k) == WithKey(front, k) + (if KeyOf(x) == k then [x] else [])
    ensures forall k :: WithKey(r' + [last], k) == WithKey(front + [last], k) + (if KeyOf(x) == k then [x] else [])
  {
    forall k ensures WithKey(r' + [last], k) == WithKey(front + [last], k) + (if KeyOf(x) == k then [x] else []) {
      WithKeySnoc(r', last, k);
      WithKeySnoc(front, last, k);
    }
  }

  /** Rust's `sort_by` on the sort key: a stable sort, here as insertion sort. */
  function SortByKey(s: seq<Item>): (r: seq<Item>)
    ensures Sorted(r) && multiset(r) == multiset(s)
    ensures forall k :: WithKey(r, k) == WithKey(s, k)
  {
    if s == [] then []
    else
      assert s == s[..|s| - 1] + [s[|s| - 1]];
      InsertByKey(SortByKey(s[..|s| - 1]), s[|s| - 1])
  }

  /**
   * Two sorted sequences holding the same items, with the items of each key
   * in the same order, are equal: the sort key and the stable order fix the
   * result completely.
   */
  lemma {:induction false} SortedUnique(s: seq<Item>, t: seq<Item>)
    requires Sorted(s) && Sorted(t) && multiset(s) == multiset(t)
    requires forall k :: WithKey(s, k) == WithKey(t, k)
    ensures s == t
    decreases |s|
  {
    assert |s| == |multiset(s)| == |t|;
    if |s| > 0 {
      var n := |s| - 1;
      var s', t' := s[..n], t[..n];
      assert s == s' + [s[n]] && t == t' + [t[n]];
      LastKeysAgree(s, t);
      DropLast(s', s[n], t', t[n]);
      SameItemsDropLast(s', t', s[n]);
      SortedPrefix(s, n);
      SortedPrefix(t, n);
      SortedUnique(s', t');
    }
  }

  lemma SameItemsDropLast(s: seq<Item>, t: seq<Item>, x: Item)
    requires multiset(s + [x]) == multiset(t + [x])
    ensures multiset(s) == multiset(t)
  {
    assert multiset(s) == multiset(s + [x]) - multiset{x};
    assert multiset(t) == multiset(t + [x]) - multiset{x};
  }

  lemma SortedPrefix(s: seq<Item>, n: nat)
    requires Sorted(s) && n <= |s|
    ensures Sorted(s[..n])
  {
  }

  /** The last items of two sorted sequences with the same items have the same key. */
  lemma LastKeysAgree(s: seq<Item>, t: seq<Item>)
    requires Sorted(s) && Sorted(t) && multiset(s) == multiset(t) && |s| == |t| > 0
    ensures KeyOf(s[|s| - 1]) == KeyOf(t[|t| - 1])
  {
    var n := |s| - 1;
    var a, b := KeyOf(s[n]), KeyOf(t[n]);
    KeyLeReflexive(a);
    KeyLeReflexive(b);
    assert s[n] in multiset(t);
    var i :| 0 <= i < |t| && t[i] == s[n];
    assert KeyLe(a, b);
    assert t[n] in multiset(s);
    var j :| 0 <= j < |s| && s[j] == t[n];
    assert KeyLe(b, a);
    KeyLeAntisymmetric(a, b);
  }

  lemma WithKeySnoc(s: seq<Item>, x: Item, k: SortKey)
    ensures WithKey(s + [x], k) == WithKey(s, k) + (if KeyOf(x) == k then [x] else [])
  {
    assert (s + [x])[..|s|] == s;
  }

  /** With equal per-key filters and equal last keys, the last items agree and so do the filters of the rest. */
  lemma DropLast(s: seq<Item>, x: Item, t: seq<Item>, y: Item)
    requires KeyOf(x) == KeyOf(y)
    requires forall k :: WithKey(s + [x], k) == WithKey(t + [y], k)
    ensures x == y
    ensures forall k :: WithKey(s, k) == WithKey(t, k)
  {
    var a := KeyOf(x);
    WithKeySnoc(s, x, a);
    WithKeySnoc(t, y, a);
    var ps, qs := WithKey(s, a) + [x], WithKey(t, a) + [y];
    assert ps == qs;
    assert ps[|ps| - 1] == x && qs[|qs| - 1] == y;
    forall k ensures WithKey(s, k) == WithKey(t, k) {
      WithKeySnoc(s, x, k);
      WithKeySnoc(t, y, k);
      var p, q := WithKey(s, k), WithKey(t, k);
      if k == a {
        assert p + [x] == q + [y];
        assert |p| == |q|;
        assert (p + [x])[..|p|] == p && (q + [y])[..|q|] == q;
      } else {
        assert p + [] == p && q + [] == q;
      }
    }
  }

  /** The pair a single definition contributes: one for a validator, none otherwise. */
  function DefinitionItems(m: CheckedModule, d: Definition): (r: seq<Item>)
    ensures forall x :: x in r ==> x.0 == m
  {
    match d
    case Validator(v) => [(m, v)]
    case _ => []
  }

  /** The pairs the inner loop of `validators` pushes for definitions `defs` of module `m`. */
  function ModuleItems(m: CheckedModule, defs: seq<Definition>): (r: seq<Item>)
    ensures forall x :: x in r ==> x.0 == m
  {
    if defs == [] then []
    else ModuleItems(m, defs[..|defs| - 1]) + DefinitionItems(m, defs[|defs| - 1])
  }

  lemma DefinitionItemsCount(m: CheckedModule, d: Definition, x: Item)
    ensures multiset(DefinitionItems(m, d))[x] == if x.0 == m then multiset{d}[Definition.Validator(x.1)] else 0
  {
    if d.Validator? && x == (m, d.validator) {
      assert DefinitionItems(m, d) == [x];
    } else {
      assert x !in DefinitionItems(m, d);
    }
  }

  lemma {:induction false} ModuleItemsCount(m: CheckedModule, defs: seq<Definition>, x: Item)
    ensures multiset(ModuleItems(m, defs))[x] == if x.0 == m then multiset(defs)[Definition.Validator(x.1)] else 0
  {
    if defs != [] {
      var n := |defs| - 1;
      var front, d := defs[..n], defs[n];
      ModuleItemsCount(m, front, x);
      DefinitionItemsCount(m, d, x);
      assert defs == front + [d];
      assert multiset(defs) == multiset(front) + multiset{d};
      assert multiset(ModuleItems(m, defs)) == multiset(ModuleItems(m, front)) + multiset(DefinitionItems(m, d));
    }
  }

  /**
   * How often `validators` yields the pair `x`: once per copy of validator
   * `x.1` among the definitions of `x.0`, when `x.0` is the validator module
   * stored under its name; otherwise never.
   */
  ghost function ValidatorCount(modules: map<string, CheckedModule>, x: Item): (r: nat) {
    var m := x.0;
    if m.name in modules && modules[m.name] == m && m.kind.IsValidator()
    then multiset(m.definitions)[Definition.Validator(x.1)]
    else 0
  }

  /** The validators with sort key `k`, in definition order: they all come from the module named `k.1`. */
  ghost function KeyItems(modules: map<string, CheckedModule>, k: SortKey): (r: seq<Item>) {
    if k.1 in modules && modules[k.1].kind.IsValidator()
    then WithKey(ModuleItems(modules[k.1], modules[k.1].definitions), k)
    else []
  }

  /** `r` is a possible result of `validators` on `modules`. */
  ghost predicate IsEnumeration(modules: map<string, CheckedModule>, r: seq<Item>) {
    && Sorted(r)
    && (forall x :: multiset(r)[x] == ValidatorCount(modules, x))
    && (forall k :: WithKey(r, k) == KeyItems(modules, k))
  }

  /** The collection loop after visiting the modules stored under `done`. */
  ghost predicate CollectedFrom(modules: map<string, CheckedModule>, done: set<string>, items: seq<Item>) {
    && (forall x :: multiset(items)[x] == if x.0.name in done then ValidatorCount(modules, x) else 0)
    && (forall k :: WithKey(items, k) == if k.1 in done then KeyItems(modules, k) else [])
  }

  /** One outer step of the collection loop: visiting the module under `key` appends its validators. */
  lemma CollectStep(modules: map<string, CheckedModule>, done: set<string>, items: seq<Item>, key: string)
    requires KeyedByName(modules) && key in modules && key !in done && CollectedFrom(modules, done, items)
    ensures var m := modules[key];
      CollectedFrom(modules, done + {key}, items + if m.kind.IsValidator() then ModuleItems(m, m.definitions) else [])
  {
    var m := modules[key];
    var added := if m.kind.IsValidator() then ModuleItems(m, m.definitions) else [];
    CountStep(modules, done, items, key, added);
    FilterStep(modules, done, items, key, added);
  }

  lemma CountStep(modules: map<string, CheckedModule>, done: set<string>, items: seq<Item>, key: string, added: seq<Item>)
    requires KeyedByName(modules) && key in modules && key !in done
    requires forall x :: multiset(items)[x] == if x.0.name in done then ValidatorCount(modules, x) else 0
    requires added == if modules[key].kind.IsValidator() then ModuleItems(modules[key], modules[key].definitions) else []
    ensures forall x :: multiset(items + added)[x] == if x.0.name in done + {key} then ValidatorCount(modules, x) else 0
  {
    var m := modules[key];
    forall x ensures multiset(items + added)[x] == if x.0.name in done + {key} then ValidatorCount(modules, x) else 0 {
      if m.kind.IsValidator() { ModuleItemsCount(m, m.definitions, x); }
    }
  }

  lemma FilterStep(modules: map<string, CheckedModule>, done: set<string>, items: seq<Item>, key: string, added: seq<Item>)
    requires KeyedByName(modules) && key in modules && key !in done
    requires forall k :: WithKey(items, k) == if k.1 in done then KeyItems(modules, k) else []
    requires added == if modules[key].kind.IsValidator() then ModuleItems(modules[key], modules[key].definitions) else []
    ensures forall k :: WithKey(items + added, k) == if k.1 in done + {key} then KeyItems(modules, k) else []
  {
    forall k ensures WithKey(items + added, k) == if k.1 in done + {key} then KeyItems(modules, k) else [] {
      WithKeyAppend(items, added, k);
      if k.1 != key {
        WithKeyNone(added, k);
      }
    }
  }

  /** Sorting what the loop collected from every module gives the enumeration. */
  lemma SortedCollectionIsEnumeration(modules: map<string, CheckedModule>, items: seq<Item>)
    requires CollectedFrom(modules, modules.Keys, items)
    ensures IsEnumeration(modules, SortByKey(items))
  {
  }

  /** The enumeration does not depend on the order in which the modules are visited. */
  lemma EnumerationUnique(modules: map<string, CheckedModule>, r1: seq<Item>, r2: seq<Item>)
    requires IsEnumeration(modules, r1) && IsEnumeration(modules, r2)
    ensures r1 == r2
  {
    assert multiset(r1) == multiset(r2) by {
      forall x ensures multiset(r1)[x] == multiset(r2)[x] {
        assert multiset(r1)[x] == ValidatorCount(modules, x);
      }
    }
    SortedUnique(r1, r2);
  }

  /** Exactly the validator definitions of validator modules are enumerated, each with its module. */
  lemma EnumerationMembers(modules: map<string, CheckedModule>, r: seq<Item>, m: CheckedModule, v: TypedValidator)
    requires IsEnumeration(modules, r)
    ensures (m, v) in r <==>
      m.name in modules && modules[m.name] == m && m.kind.IsValidator() && Definition.Validator(v) in m.definitions
  {
    assert multiset(r)[(m, v)] == ValidatorCount(modules, (m, v));
  }
}
