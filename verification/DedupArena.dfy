/** The deduplicating arena (crates/collections/src/arena). */
module DedupArenas {
  import opened Prelude

  datatype ArenaError = OutOfSystemMemory | NotEnoughKeys | KeyOutOfBounds

  // ---------- keys ----------

  /** The four key types an arena can be indexed with. */
  datatype KeyType = UsizeKey | U32Key | NonZeroUsizeKey | NonZeroU32Key
  {
    /** `ArenaKey::from_usize`: the raw key of a position, if the type can represent it. */
    function FromUsize(value: U64): Option<U64> {
      match this
      case UsizeKey => Some(value)
      case U32Key => if value < TWO_32 then Some(value) else None
      case NonZeroUsizeKey => if (value + 1) % TWO_64 == 0 then None else Some((value + 1) % TWO_64)
      case NonZeroU32Key =>
        if value >= TWO_32 then None
        else if (value + 1) % TWO_32 == 0 then None
        else Some((value + 1) % TWO_32)
    }

    /** A raw key is one `FromUsize` can return. */
    predicate IsKey(key: U64) {
      match this
      case UsizeKey => true
      case U32Key => key < TWO_32
      case NonZeroUsizeKey => key != 0
      case NonZeroU32Key => 0 < key < TWO_32
    }

    /** `ArenaKey::into_usize`. */
    function IntoUsize(key: U64): U64
      requires IsKey(key)
    {
      match this
      case UsizeKey => key
      case U32Key => key
      case _ => key - 1
    }
  }

  /** Keys and positions convert back and forth without loss, in every key type. */
  lemma KeysRoundTrip(t: KeyType, value: U64, key: U64)
    ensures t.FromUsize(value).Some? ==>
              t.IsKey(t.FromUsize(value).value) && t.IntoUsize(t.FromUsize(value).value) == value
    ensures t.IsKey(key) ==> t.FromUsize(t.IntoUsize(key)) == Some(key)
  {
    match t
    case UsizeKey =>
    case U32Key =>
    case NonZeroUsizeKey =>
    case NonZeroU32Key =>
  }

  /** How many positions each key type can number: the non-zero ones lack the last. */
  lemma KeySpace(t: KeyType, value: U64)
    ensures t.FromUsize(value).Some? <==>
            match t
            case UsizeKey => true
            case U32Key => value < 0x1_0000_0000
            case NonZeroUsizeKey => value < 0xFFFF_FFFF_FFFF_FFFF
            case NonZeroU32Key => value < 0xFFFF_FFFF
  {
  }

  // ---------- values ----------

  datatype ArenaState<!T> = ArenaState(item2key: map<T, U64>, items: seq<T>)

  /** The index is the exact inverse of the items. */
  ghost predicate Indexed<T>(t: KeyType, a: ArenaState<T>) {
    && |a.items| < TWO_64
    && (forall i :: 0 <= i < |a.items| ==>
          a.items[i] in a.item2key && Some(a.item2key[a.items[i]]) == t.FromUsize(i))
    && (forall x :: x in a.item2key ==> x in a.items)
  }

  /** What `alloc` does, given the allocator's answer. */
  ghost function Allocated<T>(t: KeyType, a: ArenaState<T>, item: T, granted: bool)
    : (Result<U64, ArenaError>, ArenaState<T>)
    requires |a.items| < TWO_64
  {
    if item in a.item2key then (Ok(a.item2key[item]), a)
    else match t.FromUsize(|a.items|)
      case None => (Err(NotEnoughKeys), a)
      case Some(key) =>
        if granted then (Ok(key), ArenaState(a.item2key[item := key], a.items + [item]))
        else (Err(OutOfSystemMemory), a)
  }

  class DedupArena<T(==)> {
    const keyType: KeyType
    var item2key: map<T, U64>
    var items: seq<T>

    ghost predicate Valid()
      reads this
    {
      Indexed(keyType, View())
    }

    ghost function View(): ArenaState<T>
      reads this
    {
      ArenaState(item2key, items)
    }

    constructor (keyType: KeyType)
      ensures Valid() && View() == ArenaState(map[], []) && this.keyType == keyType
    {
      this.keyType := keyType;
      this.item2key, this.items := map[], [];
    }

    method Alloc(item: T, granted: bool) returns (r: Result<U64, ArenaError>)
      requires Valid() && |items| + 1 < TWO_64
      modifies this
      ensures Valid() && (r, View()) == Allocated(keyType, old(View()), item, granted)
    {
      AllocationKeepsTheIndex(keyType, View(), item, granted);
      if item in item2key {
        return Ok(item2key[item]);
      }
      var key := keyType.FromUsize(|items|);
      if key.None? {
        return Err(NotEnoughKeys);
      }
      if !granted {
        return Err(OutOfSystemMemory);
      }
      items := items + [item];
      item2key := item2key[item := key.value];
      return Ok(key.value);
    }

    /** The inverse of the index: succeeds exactly on the keys in use, with the item that has the key. */
    method Get(key: U64) returns (r: Result<T, ArenaError>)
      requires Valid() && keyType.IsKey(key)
      ensures r.Ok? <==> key in item2key.Values
      ensures r.Ok? ==> r.value in item2key && item2key[r.value] == key
      ensures r.Err? ==> r.error == KeyOutOfBounds
    {
      var index := keyType.IntoUsize(key);
      KeysInUse(keyType, View(), key);
      return if index < |items| then Ok(items[index]) else Err(KeyOutOfBounds);
    }
  }

  lemma AllocationKeepsTheIndex<T>(t: KeyType, a: ArenaState<T>, item: T, granted: bool)
    requires Indexed(t, a) && |a.items| + 1 < TWO_64
    ensures Indexed(t, Allocated(t, a, item, granted).1)
    ensures var (r, a') := Allocated(t, a, item, granted);
            && (r.Err? ==> a' == a)
            && (r.Ok? ==>
                  && t.IsKey(r.value) && t.IntoUsize(r.value) < |a'.items|
                  && a'.items[t.IntoUsize(r.value)] == item)
            && a.items <= a'.items
  {
    var (r, a') := Allocated(t, a, item, granted);
    if item in a.item2key {
      var i :| 0 <= i < |a.items| && a.items[i] == item;
      KeysRoundTrip(t, i, 0);
    } else {
      KeysRoundTrip(t, |a.items|, 0);
    }
  }

  /** Allocation succeeds exactly for an item that is there or can be numbered and stored, and appends it
      if it is new. */
  lemma AllocationContract<T>(t: KeyType, a: ArenaState<T>, item: T, granted: bool)
    requires Indexed(t, a)
    ensures var (r, a') := Allocated(t, a, item, granted);
            && (r.Ok? <==> item in a.items || (t.FromUsize(|a.items|).Some? && granted))
            && (r.Err? ==> r.error == if t.FromUsize(|a.items|).None? then NotEnoughKeys else OutOfSystemMemory)
            && a'.items == (if r.Ok? && item !in a.items then a.items + [item] else a.items)
  {
    assert item in a.items <==> item in a.item2key;
  }

  /** A key is in the index exactly when its position holds an item, which then has that key. */
  lemma KeysInUse<T>(t: KeyType, a: ArenaState<T>, key: U64)
    requires Indexed(t, a) && t.IsKey(key)
    ensures key in a.item2key.Values <==> t.IntoUsize(key) < |a.items|
    ensures t.IntoUsize(key) < |a.items| ==>
              a.items[t.IntoUsize(key)] in a.item2key && a.item2key[a.items[t.IntoUsize(key)]] == key
  {
    KeysRoundTrip(t, 0, key);
    if key in a.item2key.Values {
      var x :| x in a.item2key && a.item2key[x] == key;
      var i :| 0 <= i < |a.items| && a.items[i] == x;
      KeysRoundTrip(t, i, key);
    }
  }

  lemma IndexedItemsAreDistinct<T>(t: KeyType, a: ArenaState<T>)
    requires Indexed(t, a)
    ensures Distinct(a.items)
  {
    forall i, j | 0 <= i < j < |a.items|
      ensures a.items[i] != a.items[j]
    {
      KeysRoundTrip(t, i, 0);
      KeysRoundTrip(t, j, 0);
    }
  }

  // ---------- building from a sequence ----------

  /** `from_iter`: all items are kept, and of equal items the last one is indexed. */
  ghost function Collected<T>(t: KeyType, s: seq<T>): ArenaState<T>
    requires |s| < TWO_64 && forall i :: 0 <= i < |s| ==> t.FromUsize(i).Some?
  {
    if s == [] then ArenaState(map[], [])
    else
      var last := |s| - 1;
      var front := Collected(t, s[..last]);
      ArenaState(front.item2key[s[last] := t.FromUsize(last).value], s)
  }

  /** `alloc` of each item in turn, with an allocator that never refuses. */
  ghost function Folded<T>(t: KeyType, s: seq<T>): ArenaState<T>
    requires |s| < TWO_64
    ensures |Folded(t, s).items| <= |s|
  {
    if s == [] then ArenaState(map[], [])
    else Allocated(t, Folded(t, s[..|s| - 1]), s[|s| - 1], true).1
  }

  lemma {:induction false} FoldingKeepsTheIndex<T>(t: KeyType, s: seq<T>)
    requires |s| < TWO_64
    ensures Indexed(t, Folded(t, s))
    decreases |s|
  {
    if s != [] {
      FoldingKeepsTheIndex(t, s[..|s| - 1]);
      AllocationKeepsTheIndex(t, Folded(t, s[..|s| - 1]), s[|s| - 1], true);
    }
  }

  lemma {:induction false} CollectedItems<T>(t: KeyType, s: seq<T>)
    requires |s| < TWO_64 && forall i :: 0 <= i < |s| ==> t.FromUsize(i).Some?
    ensures Collected(t, s).items == s
    ensures forall x :: x in Collected(t, s).item2key <==> x in s
    decreases |s|
  {
    if s != [] {
      CollectedItems(t, s[..|s| - 1]);
      assert s == s[..|s| - 1] + [s[|s| - 1]];
    }
  }

  lemma {:induction false} DistinctInputsAgree<T>(t: KeyType, s: seq<T>)
    requires |s| < TWO_64 && forall i :: 0 <= i < |s| ==> t.FromUsize(i).Some?
    requires Distinct(s)
    ensures Collected(t, s) == Folded(t, s)
    decreases |s|
  {
    if s != [] {
      var front, x := s[..|s| - 1], s[|s| - 1];
      DistinctInputsAgree(t, front);
      CollectedItems(t, front);
      assert x !in front;
      assert front + [x] == s;
    }
  }

  /** Of equal items the last one is indexed. */
  lemma {:induction false} LastOneIsIndexed<T>(t: KeyType, s: seq<T>, i: nat)
    requires |s| < TWO_64 && forall i :: 0 <= i < |s| ==> t.FromUsize(i).Some?
    requires i < |s| && forall j :: i < j < |s| ==> s[j] != s[i]
    ensures s[i] in Collected(t, s).item2key && Some(Collected(t, s).item2key[s[i]]) == t.FromUsize(i)
    decreases |s|
  {
    var last := |s| - 1;
    if i < last {
      LastOneIsIndexed(t, s[..last], i);
    }
  }

  /** Two equal items are two items when collected, and one when allocated. */
  lemma DuplicatesAreKept()
    ensures Collected(U32Key, [7, 7]).items == [7, 7] && Folded(U32Key, [7, 7]).items == [7]
  {
    assert [7, 7][..1] == [7] && [7][..0] == [];
    assert Folded(U32Key, [7]) == ArenaState(map[7 := 0], [7]);
  }

  /** BULK CONSTRUCTION equals allocating one by one exactly when the input has no duplicates. */
  lemma CollectingIsFoldingExactly<T>(t: KeyType, s: seq<T>)
    requires |s| < TWO_64 && forall i :: 0 <= i < |s| ==> t.FromUsize(i).Some?
    ensures Collected(t, s) == Folded(t, s) <==> Distinct(s)
  {
    if Distinct(s) {
      DistinctInputsAgree(t, s);
    } else if Collected(t, s) == Folded(t, s) {
      CollectedItems(t, s);
      FoldingKeepsTheIndex(t, s);
      IndexedItemsAreDistinct(t, Folded(t, s));
    }
  }
}
