/** The linker's packed, interned index (crates/wasmi/src/linker.rs). */
module Linkers {
  import opened Prelude
  import opened LenOrders
  import opened Interners
  import opened LinkerSpec

  // ---------- import keys ----------

  /** The two symbols packed into one word: `module << 32 | name`. */
  function Pack(module_: U32, name: U32): U64 {
    module_ * TWO_32 + name
  }

  function KeyModule(key: U64): U32 {
    key / TWO_32
  }

  function KeyName(key: U64): U32 {
    key % TWO_32
  }

  /** Packing loses nothing, and keys are ordered by module first, then by name. */
  lemma PackingIsAnOrderedBijection(a: U32, b: U32, c: U32, d: U32, key: U64)
    ensures KeyModule(Pack(a, b)) == a && KeyName(Pack(a, b)) == b
    ensures Pack(KeyModule(key), KeyName(key)) == key
    ensures Pack(a, b) < Pack(c, d) <==> a < c || (a == c && b < d)
  {
  }

  // ---------- the representation ----------

  /** The packed index `definitions` holds exactly the entries of `table`:
      all names and all symbols are interned, and the entry of two symbols is that of their strings. */
  ghost predicate Represents<D>(strings: seq<Str>, definitions: map<U64, D>, table: map<Names, D>) {
    && (forall names :: names in table ==> names.module_ in strings && names.name in strings)
    && (forall key :: key in definitions ==> KeyModule(key) < |strings| && KeyName(key) < |strings|)
    && (forall m: U32, n: U32 :: m < |strings| && n < |strings| ==> SameEntry(strings, definitions, table, m, n))
  }

  ghost predicate SameEntry<D>(strings: seq<Str>, definitions: map<U64, D>, table: map<Names, D>, m: U32, n: U32)
    requires m < |strings| && n < |strings|
  {
    && (Pack(m, n) in definitions <==> Names(strings[m], strings[n]) in table)
    && (Pack(m, n) in definitions ==> definitions[Pack(m, n)] == table[Names(strings[m], strings[n])])
  }

  lemma InterningKeepsTheRepresentation<D>(strings: seq<Str>, s: Str, definitions: map<U64, D>, table: map<Names, D>)
    requires Represents(strings, definitions, table)
    requires |Interned(strings, s)| <= TWO_32
    ensures Represents(Interned(strings, s), definitions, table)
  {
    var more := Interned(strings, s);
    forall m: U32, n: U32 | m < |more| && n < |more|
      ensures SameEntry(more, definitions, table, m, n)
    {
      PackingIsAnOrderedBijection(m, n, m, n, 0);
      if m < |strings| && n < |strings| {
        assert SameEntry(strings, definitions, table, m, n);
      } else {
        assert s !in strings;
        assert Names(more[m], more[n]) !in table;
      }
    }
  }

  lemma InsertionKeepsTheRepresentation<D>(
    strings: seq<Str>, definitions: map<U64, D>, table: map<Names, D>, m: U32, n: U32, d: D)
    requires Represents(strings, definitions, table) && Distinct(strings)
    requires m < |strings| && n < |strings|
    ensures Represents(strings, definitions[Pack(m, n) := d], table[Names(strings[m], strings[n]) := d])
  {
    PackingIsAnOrderedBijection(m, n, m, n, 0);
    var more, wider := definitions[Pack(m, n) := d], table[Names(strings[m], strings[n]) := d];
    forall i: U32, j: U32 | i < |strings| && j < |strings|
      ensures SameEntry(strings, more, wider, i, j)
    {
      PackingIsAnOrderedBijection(i, j, m, n, 0);
      assert SameEntry(strings, definitions, table, i, j);
    }
  }

  predicate Least(keys: set<nat>, k: nat) {
    k in keys && forall j :: j in keys ==> k <= j
  }

  lemma LeastExists(keys: set<nat>) returns (least: nat)
    requires keys != {}
    ensures Least(keys, least)
  {
    var k :| k in keys;
    var rest := keys - {k};
    least := k;
    if rest != {} {
      var l := LeastExists(rest);
      if l < k {
        least := l;
      }
    }
    forall j | j in keys
      ensures least <= j
    {
      assert j == k || j in rest;
    }
  }

  /** The keys of a B-tree in iteration order. */
  method SortedKeys(keys: set<U64>) returns (sorted: seq<U64>)
    ensures Enumerates(sorted, keys) && Ascending(sorted)
    decreases keys
  {
    if keys == {} {
      return [];
    }
    ghost var least := LeastExists(keys);
    var k :| k in keys && Least(keys, k);
    var rest := SortedKeys(keys - {k});
    sorted := [k] + rest;
    LeastFirst(keys, k, rest);
  }

  ghost predicate Enumerates(s: seq<nat>, keys: set<nat>) {
    forall k :: k in s <==> k in keys
  }

  ghost predicate Ascending(s: seq<nat>) {
    forall i, j :: 0 <= i < j < |s| ==> s[i] < s[j]
  }

  lemma LeastFirst(keys: set<nat>, k: nat, rest: seq<nat>)
    requires Least(keys, k) && Ascending(rest) && Enumerates(rest, keys - {k})
    ensures Ascending([k] + rest) && Enumerates([k] + rest, keys)
  {
    forall i | 0 <= i < |rest|
      ensures k < rest[i]
    {
      assert rest[i] in rest;
    }
  }

  /** The names of the keys of one module, in the order of the keys. */
  function NamesIn(keys: seq<U64>, m: U32): seq<U32> {
    if keys == [] then []
    else
      var front, k := NamesIn(keys[..|keys| - 1], m), keys[|keys| - 1];
      if KeyModule(k) == m then front + [KeyName(k)] else front
  }

  lemma {:induction false} NamesInOrder(keys: seq<U64>, m: U32)
    requires Ascending(keys)
    ensures forall i :: 0 <= i < |NamesIn(keys, m)| ==> Pack(m, NamesIn(keys, m)[i]) in keys
    ensures forall k :: k in keys && KeyModule(k) == m ==> KeyName(k) in NamesIn(keys, m)
    ensures Ascending(NamesIn(keys, m))
  {
    if keys != [] {
      var front, k := keys[..|keys| - 1], keys[|keys| - 1];
      NamesInOrder(front, m);
      assert keys == front + [k];
      PackingIsAnOrderedBijection(0, 0, 0, 0, k);
      var names := NamesIn(front, m);
      forall i | 0 <= i < |names| && KeyModule(k) == m
        ensures names[i] < KeyName(k)
      {
        PackingIsAnOrderedBijection(m, names[i], m, KeyName(k), k);
        assert Pack(m, names[i]) in front;
      }
    }
  }

  /** `names` and `defs` list, in symbol order, what `source` defines under `m`. */
  ghost predicate Lists<D>(names: seq<U32>, defs: seq<D>, strings: seq<Str>, source: map<Names, D>, m: Str) {
    && |names| == |defs|
    && Ascending(names)
    && (forall i :: 0 <= i < |names| ==>
          && names[i] < |strings|
          && Names(m, strings[names[i]]) in source
          && defs[i] == source[Names(m, strings[names[i]])])
    && (forall z :: 0 <= z < |strings| && Names(m, strings[z]) in source ==> z in names)
  }

  /** Where the copying resumes after the first `i` names. */
  ghost function Resume(names: seq<U32>, i: nat): nat
    requires i <= |names|
  {
    if i == 0 then 0 else
      var last: nat := names[i - 1];
      last + 1
  }

  lemma NoNamesBetween<D>(names: seq<U32>, defs: seq<D>, strings: seq<Str>, source: map<Names, D>, m: Str, i: nat)
    requires Lists(names, defs, strings, source, m) && i <= |names|
    ensures var end := if i < |names| then names[i] else |strings|;
            Resume(names, i) <= end <= |strings|
            && forall z :: Resume(names, i) <= z < end ==> Names(m, strings[z]) !in source
  {
    var end := if i < |names| then names[i] else |strings|;
    forall z | Resume(names, i) <= z < end
      ensures Names(m, strings[z]) !in source
    {
      if Names(m, strings[z]) in source {
        var j :| 0 <= j < |names| && names[j] == z;
      }
    }
  }

  /** After the first `i` names, copying the rest into `table` leads to `goal`. */
  ghost predicate Remaining<D>(
    table: map<Names, D>, source: map<Names, D>, shadowing: bool, s: seq<Str>, m: U32, a: U32, names: seq<U32>, i: nat,
    goal: (Option<Names>, map<Names, D>))
  {
    && m < |s| && a < |s| && i <= |names| && Resume(names, i) <= |s|
    && goal == CopiedFrom(table, source, shadowing, s, s[m], s[a], Resume(names, i))
  }

  /** One step of the alias loop is one step of the specification. */
  lemma InsertStep<D>(
    table: map<Names, D>, after: map<Names, D>, error: Option<Names>,
    source: map<Names, D>, shadowing: bool, s: seq<Str>, m: Str, as_: Str, names: seq<U32>, defs: seq<D>, i: nat)
    requires Lists(names, defs, s, source, m) && i < |names|
    requires match Inserted(table, shadowing, Names(as_, s[names[i]]), defs[i])
             case None => error == Some(Names(as_, s[names[i]])) && after == table
             case Some(t) => error == None && after == t
    ensures Resume(names, i) <= |s| && Resume(names, i + 1) <= |s|
    ensures CopiedFrom(table, source, shadowing, s, m, as_, Resume(names, i)) ==
            if error.Some? then (error, after)
            else CopiedFrom(after, source, shadowing, s, m, as_, Resume(names, i + 1))
  {
    NoNamesBetween(names, defs, s, source, m, i);
    SkippingAbsentNames(table, source, shadowing, s, m, as_, Resume(names, i), names[i]);
  }

  lemma NothingLeft<D>(
    table: map<Names, D>, source: map<Names, D>, shadowing: bool, s: seq<Str>, m: Str, as_: Str,
    names: seq<U32>, defs: seq<D>)
    requires Lists(names, defs, s, source, m)
    ensures Resume(names, |names|) <= |s|
    ensures CopiedFrom(table, source, shadowing, s, m, as_, Resume(names, |names|)) == (None, table)
  {
    NoNamesBetween(names, defs, s, source, m, |names|);
    SkippingAbsentNames(table, source, shadowing, s, m, as_, Resume(names, |names|), |s|);
  }

  class Linker<D> {
    const strings: StringInterner
    var definitions: map<U64, D>
    var allowShadowing: bool
    ghost var table: map<Names, D>

    ghost predicate Valid()
      reads this, strings
    {
      strings.Valid() && Represents(strings.strings, definitions, table)
    }

    ghost function View(): Linking<D>
      reads this, strings
    {
      Linking(strings.strings, table, allowShadowing)
    }

    constructor ()
      ensures Valid() && fresh(strings) && View() == Linking([], map[], false)
    {
      strings := new StringInterner();
      definitions, allowShadowing, table := map[], false, map[];
    }

    method AllowShadowing(allow: bool)
      requires Valid()
      modifies this
      ensures Valid() && View() == old(View()).(shadowing := allow)
    {
      allowShadowing := allow;
    }

    method NewImportKey(module_: Str, name: Str) returns (key: U64)
      requires Valid() && |Interned(Interned(strings.strings, module_), name)| <= TWO_32
      modifies strings
      ensures Valid()
      ensures strings.strings == Interned(Interned(old(strings.strings), module_), name)
      ensures module_ in strings.strings && name in strings.strings
      ensures key == Pack(SymbolOf(strings.strings, module_), SymbolOf(strings.strings, name))
    {
      InterningKeepsTheRepresentation(strings.strings, module_, definitions, table);
      InterningKeepsTheRepresentation(Interned(strings.strings, module_), name, definitions, table);
      var m := strings.GetOrInternWithHint(module_, LikelyExists);
      ghost var before := strings.strings;
      var n := strings.GetOrInternWithHint(name, LikelyNew);
      assert strings.strings[m] == before[m];
      key := Pack(m, n);
    }

    /** Lookup is exactly the map's entry. */
    method GetDefinition(module_: Str, name: Str) returns (r: Option<D>)
      requires Valid()
      ensures r == if Names(module_, name) in table then Some(table[Names(module_, name)]) else None
    {
      var m := strings.Get(module_);
      var n := strings.Get(name);
      if m.None? || n.None? {
        return None;
      }
      assert SameEntry(strings.strings, definitions, table, m.value, n.value);
      var key := Pack(m.value, n.value);
      return if key in definitions then Some(definitions[key]) else None;
    }

    /** The error path resolves both symbols of the key: the panic for missing names is unreachable. */
    method Insert(key: U64, item: D) returns (error: Option<Names>)
      requires Valid() && KeyModule(key) < |strings.strings| && KeyName(key) < |strings.strings|
      modifies this
      ensures Valid() && allowShadowing == old(allowShadowing)
      ensures var names := Names(strings.strings[KeyModule(key)], strings.strings[KeyName(key)]);
              match Inserted(old(table), allowShadowing, names, item)
              case None => error == Some(names) && table == old(table)
              case Some(t) => error == None && table == t
    {
      ghost var i, j := KeyModule(key), KeyName(key);
      PackingIsAnOrderedBijection(0, 0, 0, 0, key);
      assert SameEntry(strings.strings, definitions, table, i, j);
      if key in definitions && !allowShadowing {
        var m := strings.Resolve(KeyModule(key));
        var n := strings.Resolve(KeyName(key));
        assert m.Some? && n.Some?;
        return Some(Names(m.value, n.value));
      }
      InsertionKeepsTheRepresentation(strings.strings, definitions, table, i, j, item);
      table := table[Names(strings.strings[i], strings.strings[j]) := item];
      definitions := definitions[key := item];
      return None;
    }

    method Define(module_: Str, name: Str, item: D) returns (error: Option<Names>)
      requires Valid() && |Interned(Interned(strings.strings, module_), name)| <= TWO_32
      modifies this, strings
      ensures Valid()
      ensures (error, View()) == Defined(old(View()), Names(module_, name), item)
    {
      var key := NewImportKey(module_, name);
      PackingIsAnOrderedBijection(SymbolOf(strings.strings, module_), SymbolOf(strings.strings, name), 0, 0, 0);
      error := Insert(key, item);
    }

    /** Collects the definitions under a module in the order of the B-tree, which is that of the name symbols. */
    method Items(m: U32) returns (names: seq<U32>, defs: seq<D>)
      requires Valid() && m < |strings.strings|
      ensures Lists(names, defs, strings.strings, table, strings.strings[m])
    {
      var keys := SortedKeys(definitions.Keys);
      NamesInOrder(keys, m);
      names := NamesIn(keys, m);
      defs := seq(|names|, i requires 0 <= i < |names| && Pack(m, names[i]) in definitions reads this =>
        definitions[Pack(m, names[i])]);
      ItemsListTheTable(m, names, defs);
    }

    lemma ItemsListTheTable(m: U32, names: seq<U32>, defs: seq<D>)
      requires Valid() && m < |strings.strings|
      requires |names| == |defs|
      requires Ascending(names)
      requires forall i :: 0 <= i < |names| ==>
                 Pack(m, names[i]) in definitions && defs[i] == definitions[Pack(m, names[i])]
      requires forall key :: key in definitions && KeyModule(key) == m ==> KeyName(key) in names
      ensures Lists(names, defs, strings.strings, table, strings.strings[m])
    {
      var s := strings.strings;
      forall i | 0 <= i < |names|
        ensures names[i] < |s| && Names(s[m], s[names[i]]) in table && defs[i] == table[Names(s[m], s[names[i]])]
      {
        PackingIsAnOrderedBijection(m, names[i], 0, 0, 0);
        assert SameEntry(s, definitions, table, m, names[i]);
      }
      forall z | 0 <= z < |s| && Names(s[m], s[z]) in table
        ensures z in names
      {
        PackingIsAnOrderedBijection(m, z, 0, 0, 0);
        assert SameEntry(s, definitions, table, m, z);
        assert KeyModule(Pack(m, z)) == m;
      }
    }

    method AliasModule(module_: Str, asModule: Str) returns (error: Option<Names>)
      requires Valid() && |Interned(Interned(strings.strings, module_), asModule)| <= TWO_32
      modifies this, strings
      ensures Valid()
      ensures (error, View()) == Aliased(old(View()), module_, asModule)
    {
      ghost var source := table;
      InterningKeepsTheRepresentation(strings.strings, module_, definitions, table);
      InterningKeepsTheRepresentation(Interned(strings.strings, module_), asModule, definitions, table);
      var m := strings.GetOrInternWithHint(module_, LikelyExists);
      ghost var before := strings.strings;
      var a := strings.GetOrInternWithHint(asModule, LikelyNew);
      assert strings.strings[m] == before[m];
      var names, defs := Items(m);
      error := InsertItems(m, a, names, defs, source);
    }

    /** One turn of the loop: `goal` is reached, or still what remains to be done. */
    method InsertNext(
      ghost m: U32, a: U32, names: seq<U32>, defs: seq<D>, ghost source: map<Names, D>, i: nat,
      ghost goal: (Option<Names>, map<Names, D>))
      returns (error: Option<Names>)
      requires Valid() && m < |strings.strings| && a < |strings.strings| && i < |names|
      requires Lists(names, defs, strings.strings, source, strings.strings[m])
      requires Remaining(table, source, allowShadowing, strings.strings, m, a, names, i, goal)
      modifies this
      ensures Valid() && allowShadowing == old(allowShadowing)
      ensures if error.Some? then goal == (error, table)
              else Remaining(table, source, allowShadowing, strings.strings, m, a, names, i + 1, goal)
    {
      ghost var s, here := strings.strings, table;
      PackingIsAnOrderedBijection(a, names[i], 0, 0, 0);
      error := Insert(Pack(a, names[i]), defs[i]);
      InsertStep(here, table, error, source, allowShadowing, s, s[m], s[a], names, defs, i);
    }

    method InsertItems(ghost m: U32, a: U32, names: seq<U32>, defs: seq<D>, ghost source: map<Names, D>)
      returns (error: Option<Names>)
      requires Valid() && m < |strings.strings| && a < |strings.strings| && table == source
      requires Lists(names, defs, strings.strings, source, strings.strings[m])
      modifies this
      ensures Valid() && allowShadowing == old(allowShadowing)
      ensures (error, table) ==
              CopiedFrom(source, source, allowShadowing, strings.strings, strings.strings[m], strings.strings[a], 0)
    {
      ghost var s, shadowing := strings.strings, allowShadowing;
      ghost var goal := CopiedFrom(source, source, shadowing, s, s[m], s[a], 0);
      for i := 0 to |names|
        invariant Valid() && allowShadowing == shadowing
        invariant Remaining(table, source, shadowing, s, m, a, names, i, goal)
      {
        error := InsertNext(m, a, names, defs, source, i, goal);
        if error.Some? {
          return;
        }
      }
      assert goal == (None, table) by {
        NothingLeft(table, source, shadowing, s, s[m], s[a], names, defs);
      }
      return None;
    }
  }
}
