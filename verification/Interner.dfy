/** The ordered string interner (crates/collections/src/string_interner/detail.rs). */
module Interners {
  import opened Prelude
  import opened LenOrders

  datatype InternHint = NoHint | LikelyExists | LikelyNew

  // ---------- the abstract interner: a sequence of distinct strings, numbered by position ----------

  ghost function Interned(strings: seq<Str>, s: Str): seq<Str> {
    if s in strings then strings else strings + [s]
  }

  ghost function SymbolOf(strings: seq<Str>, s: Str): (i: nat)
    requires s in strings
    ensures i < |strings| && strings[i] == s
  {
    var i :| 0 <= i < |strings| && strings[i] == s;
    i
  }

  // ---------- the index: a sorted association list searched with `Cmp` ----------

  datatype Entry = Entry(key: Str, symbol: U32)

  ghost predicate Sorted(index: seq<Entry>) {
    forall i, j :: 0 <= i < j < |index| ==> Compare(index[i].key, index[j].key) == Less
  }

  /** `p` is where `key` is, or where it belongs. */
  ghost predicate Located(index: seq<Entry>, key: Str, found: bool, p: nat) {
    && p <= |index|
    && (forall i :: 0 <= i < p ==> Compare(index[i].key, key) == Less)
    && (found ==> p < |index| && index[p].key == key)
    && (!found ==> forall i :: p <= i < |index| ==> Compare(key, index[i].key) == Less)
  }

  method Search(index: seq<Entry>, key: Str) returns (found: bool, p: nat)
    requires Sorted(index)
    ensures Located(index, key, found, p)
  {
    var lo, hi := 0, |index|;
    while lo < hi
      invariant 0 <= lo <= hi <= |index|
      invariant forall i :: 0 <= i < lo ==> Compare(index[i].key, key) == Less
      invariant forall i :: hi <= i < |index| ==> Compare(key, index[i].key) == Less
    {
      var mid := (lo + hi) / 2;
      var c := Cmp(index[mid].key, key);
      CompareIsATotalOrder(index[mid].key, key, key);
      match c
      case Equal =>
        return true, mid;
      case Less =>
        Below(index, mid, key);
        lo := mid + 1;
      case Greater =>
        Above(index, mid, key);
        hi := mid;
    }
    return false, lo;
  }

  lemma Below(index: seq<Entry>, mid: nat, key: Str)
    requires Sorted(index) && mid < |index| && Compare(index[mid].key, key) == Less
    ensures forall i :: 0 <= i <= mid ==> Compare(index[i].key, key) == Less
  {
    forall i | 0 <= i < mid
      ensures Compare(index[i].key, key) == Less
    {
      CompareIsATotalOrder(index[i].key, index[mid].key, key);
    }
  }

  lemma Above(index: seq<Entry>, mid: nat, key: Str)
    requires Sorted(index) && mid < |index| && Compare(key, index[mid].key) == Less
    ensures forall i :: mid <= i < |index| ==> Compare(key, index[i].key) == Less
  {
    forall i | mid < i < |index|
      ensures Compare(key, index[i].key) == Less
    {
      CompareIsATotalOrder(key, index[mid].key, index[i].key);
    }
  }

  /** The index and the string list are inverse to each other. */
  ghost predicate Inverse(index: seq<Entry>, strings: seq<Str>) {
    && (forall e :: e in index ==> e.symbol < |strings| && strings[e.symbol] == e.key)
    && (forall i :: 0 <= i < |strings| <= TWO_32 ==> Entry(strings[i], i) in index)
  }

  lemma SymbolsAreUnique(index: seq<Entry>, strings: seq<Str>)
    requires Sorted(index) && Inverse(index, strings) && |strings| <= TWO_32
    ensures Distinct(strings)
  {
    forall i, j | 0 <= i < j < |strings|
      ensures strings[i] != strings[j]
    {
      if strings[i] == strings[j] {
        assert Entry(strings[i], i) in index && Entry(strings[j], j) in index;
        var p :| 0 <= p < |index| && index[p] == Entry(strings[i], i);
        var q :| 0 <= q < |index| && index[q] == Entry(strings[j], j);
        CompareIsATotalOrder(index[p].key, index[q].key, index[q].key);
      }
    }
  }

  lemma SearchDecidesMembership(index: seq<Entry>, strings: seq<Str>, key: Str, found: bool, p: nat)
    requires Sorted(index) && Inverse(index, strings) && |strings| <= TWO_32
    requires Located(index, key, found, p)
    ensures found <==> key in strings
    ensures found ==> SymbolOf(strings, key) == index[p].symbol
  {
    if found {
      assert index[p] in index;
      SymbolsAreUnique(index, strings);
    } else if key in strings {
      var i := SymbolOf(strings, key);
      assert Entry(strings[i], i) in index;
      var q :| 0 <= q < |index| && index[q] == Entry(strings[i], i);
      CompareIsATotalOrder(key, key, key);
    }
  }

  lemma InsertionKeepsOrderAndInverse(index: seq<Entry>, strings: seq<Str>, key: Str, p: nat)
    requires Sorted(index) && Inverse(index, strings) && |strings| < TWO_32
    requires Located(index, key, false, p)
    ensures var index' := index[..p] + [Entry(key, |strings|)] + index[p..];
            Sorted(index') && Inverse(index', strings + [key])
  {
    var e := Entry(key, |strings|);
    var index' := index[..p] + [e] + index[p..];
    assert forall x :: x in index' <==> x in index || x == e;
  }

  /** There is no other index of these strings. */
  ghost predicate OnlyIndex(index: seq<Entry>, strings: seq<Str>) {
    forall other :: Sorted(other) && Inverse(other, strings) ==> other == index
  }

  lemma IndexIsDetermined(index: seq<Entry>, strings: seq<Str>)
    requires Sorted(index) && Inverse(index, strings) && |strings| <= TWO_32
    ensures OnlyIndex(index, strings)
  {
    forall other | Sorted(other) && Inverse(other, strings)
      ensures other == index
    {
      forall e
        ensures e in index <==> e in other
      {
        if e in index {
          assert Entry(strings[e.symbol], e.symbol) in other;
        }
        if e in other {
          assert Entry(strings[e.symbol], e.symbol) in index;
        }
      }
      EntriesDecideTheOrder(other, index);
    }
  }

  lemma {:induction false} EntriesDecideTheOrder(a: seq<Entry>, b: seq<Entry>)
    requires Sorted(a) && Sorted(b) && forall e :: e in a <==> e in b
    ensures a == b
  {
    SameEmptiness(a, b);
    if a != [] {
      assert a[0] in b && b[0] in a;
      LeastEntry(a, b[0]);
      LeastEntry(b, a[0]);
      CompareIsATotalOrder(a[0].key, b[0].key, b[0].key);
      forall e
        ensures e in a[1..] <==> e in b[1..]
      {
        FirstOccursOnce(a, e);
        FirstOccursOnce(b, e);
      }
      EntriesDecideTheOrder(a[1..], b[1..]);
    }
  }

  lemma SameEmptiness(a: seq<Entry>, b: seq<Entry>)
    requires forall e :: e in a <==> e in b
    ensures a == [] <==> b == []
  {
    if a != [] {
      assert a[0] in b;
    }
    if b != [] {
      assert b[0] in a;
    }
  }

  lemma LeastEntry(index: seq<Entry>, e: Entry)
    requires Sorted(index) && e in index
    ensures index[0] == e || Compare(index[0].key, e.key) == Less
  {
    var i :| 0 <= i < |index| && index[i] == e;
  }

  lemma FirstOccursOnce(index: seq<Entry>, e: Entry)
    requires Sorted(index) && index != []
    ensures e in index[1..] <==> e in index && e != index[0]
  {
    CompareIsATotalOrder(e.key, e.key, e.key);
    if e in index[1..] {
      var i :| 0 <= i < |index[1..]| && index[1..][i] == e;
      assert index[i + 1] == e;
    }
    if e in index && e != index[0] {
      var i :| 0 <= i < |index| && index[i] == e;
      assert index[1..][i - 1] == e;
    }
  }

  class StringInterner {
    var string2symbol: seq<Entry>
    var strings: seq<Str>

    ghost predicate Valid()
      reads this
    {
      Sorted(string2symbol) && Inverse(string2symbol, strings) && |strings| <= TWO_32 && Distinct(strings)
    }

    constructor ()
      ensures Valid() && strings == []
    {
      string2symbol, strings := [], [];
    }

    method Get(s: Str) returns (symbol: Option<U32>)
      requires Valid()
      ensures symbol == if s in strings then Some(SymbolOf(strings, s)) else None
    {
      var found, p := Search(string2symbol, s);
      SearchDecidesMembership(string2symbol, strings, s, found, p);
      return if found then Some(string2symbol[p].symbol) else None;
    }

    /** The inverse of `Get`: succeeds exactly on the symbols in use, with the string interned as that symbol. */
    method Resolve(symbol: U32) returns (s: Option<Str>)
      requires Valid()
      ensures s.Some? <==> exists t :: t in strings && SymbolOf(strings, t) == symbol
      ensures s.Some? ==> s.value in strings && SymbolOf(strings, s.value) == symbol
    {
      if symbol < |strings| {
        assert strings[symbol] in strings && SymbolOf(strings, strings[symbol]) == symbol;
      }
      return if symbol < |strings| then Some(strings[symbol]) else None;
    }

    /** Both hints lead to the same symbol and the same state. The symbol space is exhausted,
        and the source panics, exactly when a new string would be the 2^32 + 1st. */
    method GetOrInternWithHint(s: Str, hint: InternHint) returns (symbol: U32)
      requires Valid() && |Interned(strings, s)| <= TWO_32
      modifies this
      ensures Valid()
      ensures strings == Interned(old(strings), s) && OnlyIndex(string2symbol, strings)
      ensures symbol == SymbolOf(strings, s)
    {
      match hint
      case LikelyExists => symbol := HintExisting(s);
      case NoHint => symbol := HintNew(s);
      case LikelyNew => symbol := HintNew(s);
    }

    method HintNew(s: Str) returns (symbol: U32)
      requires Valid() && |Interned(strings, s)| <= TWO_32
      modifies this
      ensures Valid()
      ensures strings == Interned(old(strings), s) && OnlyIndex(string2symbol, strings)
      ensures symbol == SymbolOf(strings, s)
    {
      var found, p := Search(string2symbol, s);
      SearchDecidesMembership(string2symbol, strings, s, found, p);
      if found {
        IndexIsDetermined(string2symbol, strings);
        return string2symbol[p].symbol;
      }
      symbol := |strings|;
      InsertionKeepsOrderAndInverse(string2symbol, strings, s, p);
      strings := strings + [s];
      string2symbol := string2symbol[..p] + [Entry(s, symbol)] + string2symbol[p..];
      IndexIsDetermined(string2symbol, strings);
    }

    method HintExisting(s: Str) returns (symbol: U32)
      requires Valid() && |Interned(strings, s)| <= TWO_32
      modifies this
      ensures Valid()
      ensures strings == Interned(old(strings), s) && OnlyIndex(string2symbol, strings)
      ensures symbol == SymbolOf(strings, s)
    {
      var known := Get(s);
      if known.Some? {
        IndexIsDetermined(string2symbol, strings);
        return known.value;
      }
      symbol := Intern(s);
    }

    /** Interns a new string; the assertion that it replaced nothing never fires. */
    method Intern(s: Str) returns (symbol: U32)
      requires Valid() && s !in strings && |strings| < TWO_32
      modifies this
      ensures Valid()
      ensures strings == old(strings) + [s] && OnlyIndex(string2symbol, strings)
      ensures symbol == SymbolOf(strings, s)
    {
      symbol := |strings|;
      var replaced, p := Search(string2symbol, s);
      SearchDecidesMembership(string2symbol, strings, s, replaced, p);
      assert !replaced;
      InsertionKeepsOrderAndInverse(string2symbol, strings, s, p);
      string2symbol := string2symbol[..p] + [Entry(s, symbol)] + string2symbol[p..];
      strings := strings + [s];
      IndexIsDetermined(string2symbol, strings);
    }
  }

  /** THE HINTS DO NOT SHOW: equal interners that take different paths return the same symbol
      and stay equal, index included. */
  method BothPaths(a: StringInterner, b: StringInterner, s: Str, hintA: InternHint, hintB: InternHint)
    returns (x: U32, y: U32)
    requires a != b && a.Valid() && b.Valid()
    requires a.strings == b.strings && |Interned(a.strings, s)| <= TWO_32
    modifies a, b
    ensures x == y && a.Valid() && b.Valid()
    ensures a.strings == b.strings && a.string2symbol == b.string2symbol
  {
    x := a.GetOrInternWithHint(s, hintA);
    y := b.GetOrInternWithHint(s, hintB);
  }
}
