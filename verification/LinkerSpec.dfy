/** The linker as its users see it: a map from (module, name) to definitions
    (crates/wasmi/src/linker.rs). The interned strings are kept because their numbering decides
    in which order `alias_module` works. */
module LinkerSpec {
  import opened Prelude
  import opened LenOrders
  import opened Interners

  datatype Names = Names(module_: Str, name: Str)

  datatype Linking<D> = Linking(strings: seq<Str>, table: map<Names, D>, shadowing: bool)
  {
    /** Distinct strings; every defined name is interned. */
    ghost predicate Valid() {
      && Distinct(strings)
      && forall key :: key in table ==> key.module_ in strings && key.name in strings
    }
  }

  /** Defining one item; an occupied name is an error unless shadowing is allowed. */
  ghost function Inserted<D>(table: map<Names, D>, shadowing: bool, key: Names, d: D): Option<map<Names, D>> {
    if key in table && !shadowing then None else Some(table[key := d])
  }

  /** `Linker::define`, `func_new` and `func_wrap`: the error carries the occupied name. */
  ghost function Defined<D>(l: Linking<D>, key: Names, d: D): (Option<Names>, Linking<D>) {
    var strings := Interned(Interned(l.strings, key.module_), key.name);
    match Inserted(l.table, l.shadowing, key, d)
    case None => (Some(key), l.(strings := strings))
    case Some(table) => (None, l.(strings := strings, table := table))
  }

  /** Copies the definitions of `source` under `m` to `as_`, in the order of the names' symbols from `x` on,
      stopping at the first occupied name. */
  ghost function CopiedFrom<D>(
    table: map<Names, D>, source: map<Names, D>, shadowing: bool,
    strings: seq<Str>, m: Str, as_: Str, x: nat): (Option<Names>, map<Names, D>)
    requires x <= |strings|
    decreases |strings| - x
  {
    if x == |strings| then (None, table)
    else if Names(m, strings[x]) !in source then CopiedFrom(table, source, shadowing, strings, m, as_, x + 1)
    else
      match Inserted(table, shadowing, Names(as_, strings[x]), source[Names(m, strings[x])])
      case None => (Some(Names(as_, strings[x])), table)
      case Some(next) => CopiedFrom(next, source, shadowing, strings, m, as_, x + 1)
  }

  /** `Linker::alias_module`. */
  ghost function Aliased<D>(l: Linking<D>, m: Str, as_: Str): (Option<Names>, Linking<D>) {
    var strings := Interned(Interned(l.strings, m), as_);
    var (error, table) := CopiedFrom(l.table, l.table, l.shadowing, strings, m, as_, 0);
    (error, l.(strings := strings, table := table))
  }

  lemma {:induction false} SkippingAbsentNames<D>(
    table: map<Names, D>, source: map<Names, D>, shadowing: bool,
    strings: seq<Str>, m: Str, as_: Str, x: nat, y: nat)
    requires x <= y <= |strings|
    requires forall z :: x <= z < y ==> Names(m, strings[z]) !in source
    ensures CopiedFrom(table, source, shadowing, strings, m, as_, x) ==
            CopiedFrom(table, source, shadowing, strings, m, as_, y)
    decreases y - x
  {
    if x < y {
      SkippingAbsentNames(table, source, shadowing, strings, m, as_, x + 1, y);
    }
  }

  // ---------- what aliasing does ----------

  /** Every name under `m`, copied to `as_`. */
  ghost function FullCopy<D>(table: map<Names, D>, m: Str, as_: Str): map<Names, D> {
    map key | key in (set k | k in table && k.module_ == m :: Names(as_, k.name)) :: table[Names(m, key.name)]
  }

  /** The names under `m` with a symbol below `bound`, copied to `as_`. */
  ghost function PartialCopy<D>(table: map<Names, D>, strings: seq<Str>, m: Str, as_: Str, bound: nat): map<Names, D> {
    map key | key in FullCopy(table, m, as_) && key.name in strings && SymbolOf(strings, key.name) < bound
      :: FullCopy(table, m, as_)[key]
  }

  lemma FullCopyIs<D>(table: map<Names, D>, m: Str, as_: Str)
    ensures forall key :: key in FullCopy(table, m, as_) <==> key.module_ == as_ && Names(m, key.name) in table
    ensures forall key :: key in FullCopy(table, m, as_) ==> FullCopy(table, m, as_)[key] == table[Names(m, key.name)]
  {
    forall key: Names | key.module_ == as_ && Names(m, key.name) in table
      ensures key in FullCopy(table, m, as_)
    {
      assert key == Names(as_, Names(m, key.name).name);
    }
  }

  lemma NoCopies<D>(table: map<Names, D>, strings: seq<Str>, m: Str, as_: Str)
    ensures PartialCopy(table, strings, m, as_, 0) == map[]
  {
  }

  lemma OneMoreCopy<D>(table: map<Names, D>, strings: seq<Str>, m: Str, as_: Str, x: nat)
    requires Distinct(strings) && x < |strings|
    ensures PartialCopy(table, strings, m, as_, x + 1) ==
            var c := PartialCopy(table, strings, m, as_, x);
            if Names(m, strings[x]) in table then c[Names(as_, strings[x]) := table[Names(m, strings[x])]] else c
    ensures Names(as_, strings[x]) !in PartialCopy(table, strings, m, as_, x)
  {
    FullCopyIs(table, m, as_);
    assert SymbolOf(strings, strings[x]) == x;
  }

  lemma AddingOneMore<D>(table: map<Names, D>, c: map<Names, D>, key: Names, d: D)
    ensures table + c[key := d] == (table + c)[key := d]
  {
  }

  ghost predicate Conflict<D>(table: map<Names, D>, strings: seq<Str>, m: Str, as_: Str, x: nat) {
    x < |strings| && Names(m, strings[x]) in table && Names(as_, strings[x]) in table
  }

  /** The tables `stages[x]` in which exactly the copies of symbols below x are in place. */
  ghost predicate Stages<D>(
    stages: seq<map<Names, D>>, source: map<Names, D>, strings: seq<Str>, m: Str, as_: Str)
  {
    && |stages| == |strings| + 1
    && forall x, y :: 0 <= x < y < |stages| && y == x + 1 ==> Staged(stages[x], stages[y], source, m, as_, strings[x])
  }

  ghost predicate Staged<D>(
    table: map<Names, D>, next: map<Names, D>, source: map<Names, D>, m: Str, as_: Str, n: Str)
  {
    && (Names(as_, n) in table <==> Names(as_, n) in source)
    && next == if Names(m, n) in source then table[Names(as_, n) := source[Names(m, n)]] else table
  }

  /** Copying stops at the first symbol whose name is defined in both modules, or at the end;
      exactly the earlier names are in place then. */
  lemma {:induction false} CopyingFrom<D>(
    stages: seq<map<Names, D>>, source: map<Names, D>, shadowing: bool,
    strings: seq<Str>, m: Str, as_: Str, x: nat) returns (stop: nat)
    requires Stages(stages, source, strings, m, as_) && x <= |strings|
    ensures x <= stop <= |strings|
    ensures CopiedFrom(stages[x], source, shadowing, strings, m, as_, x) ==
            (if stop == |strings| then None else Some(Names(as_, strings[stop])), stages[stop])
    ensures stop < |strings| ==> !shadowing && Conflict(source, strings, m, as_, stop)
    ensures !shadowing ==> forall i :: x <= i < stop ==> !Conflict(source, strings, m, as_, i)
    decreases |strings| - x
  {
    if x == |strings| {
      stop := x;
    } else {
      assert Staged(stages[x], stages[x + 1], source, m, as_, strings[x]);
      if !shadowing && Conflict(source, strings, m, as_, x) {
        stop := x;
      } else {
        stop := CopyingFrom(stages, source, shadowing, strings, m, as_, x + 1);
      }
    }
  }

  ghost predicate Copying<D>(c: map<Names, D>, next: map<Names, D>, source: map<Names, D>, m: Str, as_: Str, n: Str) {
    && Names(as_, n) !in c
    && next == if Names(m, n) in source then c[Names(as_, n) := source[Names(m, n)]] else c
  }

  lemma CopyByCopy<D>(source: map<Names, D>, strings: seq<Str>, m: Str, as_: Str) returns (copies: seq<map<Names, D>>)
    requires Distinct(strings)
    ensures |copies| == |strings| + 1 && copies[0] == map[]
    ensures forall x :: 0 <= x <= |strings| ==> copies[x] == PartialCopy(source, strings, m, as_, x)
    ensures forall x, y :: 0 <= x < y < |copies| && y == x + 1 ==>
               Copying(copies[x], copies[y], source, m, as_, strings[x])
  {
    copies := seq(|strings| + 1, x requires 0 <= x <= |strings| => PartialCopy(source, strings, m, as_, x));
    NoCopies(source, strings, m, as_);
    forall x, y | 0 <= x < y < |copies| && y == x + 1
      ensures Copying(copies[x], copies[y], source, m, as_, strings[x])
    {
      OneMoreCopy(source, strings, m, as_, x);
    }
  }

  lemma CopiesMakeStages<D>(
    copies: seq<map<Names, D>>, source: map<Names, D>, strings: seq<Str>, m: Str, as_: Str)
    returns (stages: seq<map<Names, D>>)
    requires |copies| == |strings| + 1 && copies[0] == map[]
    requires forall x, y :: 0 <= x < y < |copies| && y == x + 1 ==>
               Copying(copies[x], copies[y], source, m, as_, strings[x])
    ensures Stages(stages, source, strings, m, as_)
    ensures stages[0] == source
    ensures forall x :: 0 <= x < |copies| ==> stages[x] == source + copies[x]
  {
    stages := seq(|copies|, x requires 0 <= x < |copies| => source + copies[x]);
    forall x, y | 0 <= x < y < |stages| && y == x + 1
      ensures Staged(stages[x], stages[y], source, m, as_, strings[x])
    {
      assert Copying(copies[x], copies[y], source, m, as_, strings[x]);
      if Names(m, strings[x]) in source {
        AddingOneMore(source, copies[x], Names(as_, strings[x]), source[Names(m, strings[x])]);
      }
    }
    assert source + copies[0] == source;
  }

  lemma WholeCopy<D>(l: Linking<D>, strings: seq<Str>, m: Str, as_: Str)
    requires l.Valid() && Distinct(strings) && l.strings <= strings
    ensures PartialCopy(l.table, strings, m, as_, |strings|) == FullCopy(l.table, m, as_)
  {
    FullCopyIs(l.table, m, as_);
    forall k | k in l.table
      ensures k.name in strings
    {
      assert k.name in l.strings;
    }
  }

  lemma InterningKeepsDistinct(strings: seq<Str>, s: Str)
    requires Distinct(strings)
    ensures Distinct(Interned(strings, s)) && strings <= Interned(strings, s) && s in Interned(strings, s)
  {
    if s !in strings {
      assert (strings + [s])[|strings|] == s;
    }
  }

  /** ALIASING: it succeeds exactly when shadowing is allowed or no name is defined in both modules;
      then every name of `m` is also defined, or overridden, under `as_`. Otherwise the error is the
      common name with the least symbol, and exactly the names with smaller symbols were copied. */
  lemma AliasContract<D>(l: Linking<D>, m: Str, as_: Str)
    requires l.Valid()
    ensures var (error, l') := Aliased(l, m, as_);
            && l.strings <= l'.strings && Distinct(l'.strings) && l'.shadowing == l.shadowing
            && (error.None? <==> l.shadowing || !exists n :: Names(m, n) in l.table && Names(as_, n) in l.table)
            && (error.None? ==> l'.table == l.table + FullCopy(l.table, m, as_))
            && (error.Some? ==>
                  && error.value.module_ == as_
                  && error.value.name in l'.strings
                  && error.value in l.table && Names(m, error.value.name) in l.table
                  && var first := SymbolOf(l'.strings, error.value.name);
                     && l'.table == l.table + PartialCopy(l.table, l'.strings, m, as_, first)
                     && forall n :: n in l'.strings && Names(m, n) in l.table && Names(as_, n) in l.table ==>
                          first <= SymbolOf(l'.strings, n))
  {
    InterningKeepsDistinct(l.strings, m);
    InterningKeepsDistinct(Interned(l.strings, m), as_);
    var strings := Interned(Interned(l.strings, m), as_);
    var copies := CopyByCopy(l.table, strings, m, as_);
    var stages := CopiesMakeStages(copies, l.table, strings, m, as_);
    var stop := CopyingFrom(stages, l.table, l.shadowing, strings, m, as_, 0);
    WholeCopy(l, strings, m, as_);
    forall n | Names(m, n) in l.table && Names(as_, n) in l.table
      ensures n in strings && Conflict(l.table, strings, m, as_, SymbolOf(strings, n))
    {
      assert Names(m, n).name in l.strings;
    }
    if stop < |strings| {
      assert SymbolOf(strings, strings[stop]) == stop;
    }
  }

  /** A failed definition may intern strings but changes no lookup; a successful one changes exactly one. */
  lemma DefineContract<D>(l: Linking<D>, key: Names, d: D)
    requires l.Valid()
    ensures var (error, l') := Defined(l, key, d);
            && l'.Valid() && l.strings <= l'.strings && l'.shadowing == l.shadowing
            && (error.Some? <==> key in l.table && !l.shadowing)
            && (error.Some? ==> error.value == key && l'.table == l.table)
            && (error.None? ==> l'.table == l.table[key := d])
  {
    InterningKeepsDistinct(l.strings, key.module_);
    InterningKeepsDistinct(Interned(l.strings, key.module_), key.name);
  }

  lemma AliasingKeepsValidity<D>(l: Linking<D>, m: Str, as_: Str)
    requires l.Valid()
    ensures Aliased(l, m, as_).1.Valid()
  {
    AliasContract(l, m, as_);
    FullCopyIs(l.table, m, as_);
    InterningKeepsDistinct(l.strings, m);
    InterningKeepsDistinct(Interned(l.strings, m), as_);
    var (error, l') := Aliased(l, m, as_);
    forall key | key in l'.table
      ensures key.module_ in l'.strings && key.name in l'.strings
    {
      if key !in l.table {
        assert key.module_ == as_ && Names(m, key.name) in l.table;
        assert Names(m, key.name).name in l.strings;
      }
    }
  }

  // ---------- whole runs ----------

  datatype LinkOp<D> = Define(key: Names, d: D) | Alias(m: Str, as_: Str) | AllowShadowing(allow: bool)

  ghost function LinkStep<D>(l: Linking<D>, op: LinkOp<D>): Linking<D> {
    match op
    case Define(key, d) => Defined(l, key, d).1
    case Alias(m, as_) => Aliased(l, m, as_).1
    case AllowShadowing(allow) => l.(shadowing := allow)
  }

  ghost function LinkRun<D>(l: Linking<D>, ops: seq<LinkOp<D>>): Linking<D>
    decreases |ops|
  {
    if ops == [] then l else LinkRun(LinkStep(l, ops[0]), ops[1..])
  }

  /** Over any run: symbols never change their meaning, strings stay distinct,
      names once defined stay defined, and every defined name can be resolved. */
  lemma {:induction false} RunsOnlyExtend<D>(l: Linking<D>, ops: seq<LinkOp<D>>)
    requires l.Valid()
    ensures var l' := LinkRun(l, ops);
            l'.Valid() && l.strings <= l'.strings && l.table.Keys <= l'.table.Keys
    decreases |ops|
  {
    if ops != [] {
      match ops[0] {
        case Define(key, d) => DefineContract(l, key, d);
        case Alias(m, as_) => AliasContract(l, m, as_); AliasingKeepsValidity(l, m, as_);
        case AllowShadowing(allow) =>
      }
      RunsOnlyExtend(LinkStep(l, ops[0]), ops[1..]);
    }
  }

  lemma RunOfThree<D>(l: Linking<D>, x: LinkOp<D>, y: LinkOp<D>, z: LinkOp<D>)
    ensures LinkRun(l, [x, y, z]) == LinkStep(LinkStep(LinkStep(l, x), y), z)
  {
    assert [x, y, z][1..] == [y, z] && [y, z][1..] == [z] && [z][1..] == [];
    assert LinkRun(LinkStep(l, x), [y, z]) == LinkRun(LinkStep(LinkStep(l, x), y), [z]);
  }

  lemma HalfACopy(source: map<Names, int>, m: Str, n: Str, a: Str, b: Str)
    requires source == map[Names(m, a) := 1, Names(m, b) := 2, Names(n, b) := 3]
    requires m != n && a != b && m != a && m != b
    ensures CopiedFrom(source, source, false, [m, a, b, n], m, n, 0) ==
            (Some(Names(n, b)), source[Names(n, a) := 1])
  {
    var strings, copied := [m, a, b, n], source[Names(n, a) := 1];
    assert CopiedFrom(copied, source, false, strings, m, n, 2) == (Some(Names(n, b)), copied);
    assert CopiedFrom(source, source, false, strings, m, n, 1) == (Some(Names(n, b)), copied);
  }

  lemma HalfwayFor(m: Str, n: Str, a: Str, b: Str)
    requires m != n && a != b && m != a && m != b && n != a && n != b
    ensures var l := LinkRun(Linking([], map[], false),
                             [Define(Names(m, a), 1), Define(Names(m, b), 2), Define(Names(n, b), 3)]);
            var (error, l') := Aliased(l, m, n);
            && error == Some(Names(n, b))
            && Names(n, a) !in l.table && Names(n, a) in l'.table
  {
    RunOfThree(Linking([], map[], false), Define(Names(m, a), 1), Define(Names(m, b), 2), Define(Names(n, b), 3));
    ThreeDefinitions(m, n, a, b);
    HalfACopy(map[Names(m, a) := 1, Names(m, b) := 2, Names(n, b) := 3], m, n, a, b);
  }

  /** Modules "m" = {a, b} and "n" = {b}: aliasing "m" as "n" fails on b and leaves a behind. */
  lemma AliasingCanStopHalfway()
    ensures var m, n, a, b := [109], [110], [97], [98];
            var l := LinkRun(Linking([], map[], false),
                             [Define(Names(m, a), 1), Define(Names(m, b), 2), Define(Names(n, b), 3)]);
            var (error, l') := Aliased(l, m, n);
            && error == Some(Names(n, b))
            && Names(n, a) !in l.table && Names(n, a) in l'.table
  {
    var m: Str, n: Str, a: Str, b: Str := [109], [110], [97], [98];
    assert m[0] != n[0] && m[0] != a[0] && m[0] != b[0] && a[0] != b[0] && n[0] != a[0] && n[0] != b[0];
    HalfwayFor(m, n, a, b);
  }

  lemma ThreeDefinitions(m: Str, n: Str, a: Str, b: Str)
    requires m != n && a != b && m != a && m != b && n != a && n != b
    ensures var empty: Linking<int> := Linking([], map[], false);
            var two := LinkStep(LinkStep(empty, Define(Names(m, a), 1)), Define(Names(m, b), 2));
            LinkStep(two, Define(Names(n, b), 3)) ==
            Linking([m, a, b, n], map[Names(m, a) := 1, Names(m, b) := 2, Names(n, b) := 3], false)
  {
    var empty: Linking<int> := Linking([], map[], false);
    var l1 := LinkStep(empty, Define(Names(m, a), 1));
    assert l1 == Linking([m, a], map[Names(m, a) := 1], false);
    var l2 := LinkStep(l1, Define(Names(m, b), 2));
    assert l2 == Linking([m, a, b], map[Names(m, a) := 1, Names(m, b) := 2], false);
  }
}
