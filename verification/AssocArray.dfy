/** assocarray.c: an associative array, kept sorted by key in two parallel arrays. */
module AssocArray {
  import opened Machine
  import opened MapSpec
  import opened Ordering

  const INITIAL_SIZE := 8
  const ASSOC_ARRAY_MAX_SIZE := SSIZE_MAX / 8

  /** `key` belongs behind the first `lo` entries, and before those from `hi` on. */
  ghost predicate Within<K, V>(cmp: (K, K) -> int, s: seq<Entry<K, V>>, key: K, lo: int, hi: int) {
    && (forall i :: 0 <= i < lo && i < |s| ==> cmp(key, s[i].key) > 0)
    && (forall i :: 0 <= i && hi <= i < |s| ==> cmp(key, s[i].key) < 0)
  }

  /** Where a search for `key` ended: on an equivalent key, or next to where it belongs. */
  ghost predicate Located<K, V>(cmp: (K, K) -> int, s: seq<Entry<K, V>>, key: K, index: int, result: int) {
    && 0 <= index < |s|
    && (result == 0 ==> cmp(key, s[index].key) == 0)
    && (result < 0 ==> Within(cmp, s, key, index, index))
    && (result > 0 ==> Within(cmp, s, key, index + 1, index + 1))
  }

  /** Comparing with the entry at `i` settles the side of all entries before or behind it. */
  lemma Halved<K(!new), V>(cmp: (K, K) -> int, s: seq<Entry<K, V>>, key: K, i: nat)
    requires TotalOrder(cmp) && Sorted(cmp, s) && i < |s|
    ensures cmp(key, s[i].key) > 0 ==> Within(cmp, s, key, i + 1, |s|)
    ensures cmp(key, s[i].key) < 0 ==> Within(cmp, s, key, 0, i)
  {
    var a, b := s[..i], s[i + 1..];
    assert s == a + [s[i]] + b;
    KeySide(cmp, a, s[i], b, key);
    assert forall j :: 0 <= j < i ==> s[j] == a[j];
    assert forall j :: i < j < |s| ==> s[j] == b[j - i - 1];
  }

  /** How a sequence divides at the place where `key` belongs. */
  lemma Divided<K, V>(cmp: (K, K) -> int, s: seq<Entry<K, V>>, key: K, place: nat)
    requires place <= |s| && Within(cmp, s, key, place, place)
    ensures Above(cmp, key, s[..place]) && Below(cmp, key, s[place..]) && s == s[..place] + s[place..]
  {
  }

  lemma Opened<E>(s: seq<E>, e: E, place: nat)
    requires place <= |s|
    ensures var t := s[..place] + [e] + s[place..];
            |t| == |s| + 1 && forall i :: 0 <= i < |t| ==> t[i] == if i < place then s[i] else if i == place then e else s[i - 1]
  {
  }

  lemma Exchanged<E>(s: seq<E>, e: E, place: nat)
    requires place < |s|
    ensures s == s[..place] + [s[place]] + s[place + 1..]
    ensures s[place := e] == s[..place] + [e] + s[place + 1..]
  {
  }

  lemma Closed<E>(s: seq<E>, place: nat)
    requires place < |s|
    ensures var t := s[..place] + s[place + 1..];
            |t| == |s| - 1 && forall i :: 0 <= i < |t| ==> t[i] == if i < place then s[i] else s[i + 1]
  {
  }

  /** memmove(): `n` elements move from `src` to `dst`; the ranges may overlap. */
  method Memmove<T>(a: array<T>, dst: nat, src: nat, n: nat)
    requires src + n <= a.Length && dst + n <= a.Length
    modifies a
    ensures forall i :: dst <= i < dst + n ==> a[i] == old(a[src + (i - dst)])
    ensures forall i :: 0 <= i < a.Length && !(dst <= i < dst + n) ==> a[i] == old(a[i])
  {
    forall i | 0 <= i < n {
      a[dst + i] := a[src + i];
    }
  }

  /** realloc(): a larger array with the same elements in front. */
  method Realloc<T(0)>(a: array<T>, size: nat) returns (b: array<T>)
    requires a.Length <= size
    ensures fresh(b) && b.Length == size && b[..a.Length] == a[..]
  {
    b := new T[size];
    forall i | 0 <= i < a.Length {
      b[i] := a[i];
    }
  }

  class AssocArray<K(!new, 0), V(0)> {
    const compareKeys: (K, K) -> int
    var keys: array<K>
    var values: array<V>
    var size: nat
    var count: nat

    ghost var entries: seq<Entry<K, V>>

    /** The arrays begin with the entries `s`. */
    ghost predicate Holds(s: seq<Entry<K, V>>)
      reads this`keys, this`values, keys, values
    {
      && |s| <= keys.Length && |s| <= values.Length
      && forall i :: 0 <= i < |s| ==> s[i] == Entry(keys[i], values[i])
    }

    ghost predicate Sized()
      reads this`keys, this`values, this`size
    {
      && keys.Length == values.Length == size && INITIAL_SIZE <= size <= ASSOC_ARRAY_MAX_SIZE
      && (keys as object) != values
    }

    /** The keys ascend strictly, and `count` of the `size` slots are in use. */
    ghost predicate Valid()
      reads this, keys, values
    {
      && Sized() && Holds(entries) && count == |entries|
      && TotalOrder(compareKeys) && Sorted(compareKeys, entries)
    }

    /** The map that the array stands for. */
    ghost function Entries(): set<Entry<K, V>>
      reads this`entries
    {
      EntrySet(entries)
    }

    ghost predicate Knows(key: K)
      reads this`entries
    {
      Has(Entries(), SameKey(compareKeys), key)
    }

    constructor (compareKeys: (K, K) -> int)
      requires TotalOrder(compareKeys)
      ensures Valid() && Entries() == {} && count == 0 && fresh(keys) && fresh(values)
      ensures this.compareKeys == compareKeys
    {
      this.compareKeys, size, count := compareKeys, INITIAL_SIZE, 0;
      keys := new K[INITIAL_SIZE];
      values := new V[INITIAL_SIZE];
      entries := [];
    }

    /** _assoc_array_binary_search: finds `key`, or the entry next to where it belongs. */
    method BinarySearch(key: K) returns (result: int, index: nat)
      requires Valid() && count > 0
      ensures Located(compareKeys, entries, key, index, result)
    {
      ghost var s := entries;
      result, index := 0, 0;
      if count == 1 {
        result := compareKeys(key, keys[0]);
        Halved(compareKeys, s, key, 0);
      } else {
        var begin, end := 0, count - 1;
        while begin <= end
          invariant 0 <= begin <= end + 1 <= count && index < count
          invariant Within(compareKeys, s, key, begin, end + 1)
          invariant (begin == 0 && end == count - 1)
                    || (result > 0 && begin == index + 1) || (result < 0 && end == index - 1)
        {
          index := (begin + end) / 2;
          result := compareKeys(key, keys[index]);
          Halved(compareKeys, s, key, index);
          if result > 0 {
            begin := index + 1;
          } else if result < 0 {
            end := index - 1;
          } else {
            break;
          }
        }
      }
    }

    /** _assoc_array_resize_if_necessary: a full array grows, but never beyond the limit. */
    method ResizeIfNecessary()
      requires Sized() && Holds(entries) && count == |entries| && count < ASSOC_ARRAY_MAX_SIZE
      modifies this`size, this`keys, this`values
      ensures Sized() && Holds(entries) && count < size
      ensures size == if count < old(size) then old(size) else if old(size) > ASSOC_ARRAY_MAX_SIZE / 2 then ASSOC_ARRAY_MAX_SIZE else 2 * old(size)
      ensures keys == old(keys) || fresh(keys)
      ensures values == old(values) || fresh(values)
    {
      if count == size {
        if size > ASSOC_ARRAY_MAX_SIZE / 2 {
          size := ASSOC_ARRAY_MAX_SIZE;
        } else {
          size := size * 2;
        }
        keys := Realloc(keys, size);
        values := Realloc(values, size);
      }
    }

    /** Room for an entry at `offset`, and the entry. */
    method Open(key: K, value: V, offset: nat)
      requires Sized() && Holds(entries) && offset <= |entries| == count < size
      modifies keys, values
      ensures Holds(entries[..offset] + [Entry(key, value)] + entries[offset..])
    {
      Opened(entries, Entry(key, value), offset);
      if offset < count {
        Memmove(keys, offset + 1, offset, count - offset);
        Memmove(values, offset + 1, offset, count - offset);
      }
      keys[offset] := key;
      values[offset] := value;
    }

    /** _assoc_array_insert_before_offset and _assoc_array_insert_after_offset, after the
        search that came out with `cmp`. */
    method InsertNear(cmp: int, key: K, value: V, offset: nat, overwriteKey: bool)
      requires Valid() && count < size && cmp != 0 && Located(compareKeys, entries, key, offset, cmp)
      modifies this`count, this`entries, keys, values
      ensures Valid() && !old(Knows(key))
      ensures Entries() == Put(old(Entries()), SameKey(compareKeys), key, value, overwriteKey)
    {
      var place := if cmp < 0 then offset else offset + 1;
      ghost var a, b := entries[..place], entries[place..];
      Divided(compareKeys, entries, key, place);
      Absent(compareKeys, a, b, key);
      InsertedBetween(compareKeys, a, b, key, value, overwriteKey);
      Open(key, value, place);
      entries := a + [Entry(key, value)] + b;
      count := count + 1;
    }

    /** _assoc_array_replace: another value, and perhaps an equivalent key, in place. */
    method Replace(key: K, value: V, offset: nat, overwriteKey: bool)
      requires Valid() && Located(compareKeys, entries, key, offset, 0)
      modifies this`entries, keys, values
      ensures Valid() && old(Knows(key))
      ensures Entries() == Put(old(Entries()), SameKey(compareKeys), key, value, overwriteKey)
    {
      ghost var a, e, b := entries[..offset], entries[offset], entries[offset + 1..];
      Exchanged(entries, e, offset);
      assert e in Entries();
      ReplacedAt(compareKeys, a, e, b, key, value, overwriteKey);
      Exchanged(entries, Entry(if overwriteKey then key else e.key, value), offset);
      if overwriteKey {
        keys[offset] := key;
      }
      values[offset] := value;
      entries := entries[offset := Entry(if overwriteKey then key else e.key, value)];
    }

    /** assoc_array_set: the map is updated at `key`; a new key needs room below the limit. */
    method Set(key: K, value: V, overwriteKey: bool) returns (result: SetResult)
      requires Valid() && (count < ASSOC_ARRAY_MAX_SIZE || Knows(key))
      modifies this, keys, values
      ensures Valid() && (keys == old(keys) || fresh(keys)) && (values == old(values) || fresh(values))
      ensures result == if old(Knows(key)) then Replaced else New
      ensures size == if result == Replaced || old(count) < old(size) then old(size)
                      else if old(size) > ASSOC_ARRAY_MAX_SIZE / 2 then ASSOC_ARRAY_MAX_SIZE else 2 * old(size)
      ensures Entries() == Put(old(Entries()), SameKey(compareKeys), key, value, overwriteKey)
    {
      if count > 0 {
        var cmp, offset := BinarySearch(key);
        if cmp != 0 {
          result := New;
          LocatedAbsent(key, offset, cmp);
          ResizeIfNecessary();
          InsertNear(cmp, key, value, offset, overwriteKey);
        } else {
          result := Replaced;
          Replace(key, value, offset, overwriteKey);
        }
      } else {
        result := New;
        InsertedBetween(compareKeys, [], [], key, value, overwriteKey);
        assert entries == [] + [];
        keys[0] := key;
        values[0] := value;
        entries := [] + [Entry(key, value)] + [];
        count := count + 1;
      }
    }

    /** A search that ends next to a key tells that the map does not have it. */
    lemma LocatedAbsent(key: K, index: nat, result: int)
      requires Valid() && result != 0 && Located(compareKeys, entries, key, index, result)
      ensures !Knows(key)
    {
      var place := if result < 0 then index else index + 1;
      Divided(compareKeys, entries, key, place);
      Absent(compareKeys, entries[..place], entries[place..], key);
    }

    lemma LocatedFound(key: K, index: nat)
      requires Valid() && Located(compareKeys, entries, key, index, 0)
      ensures Finds(Entries(), SameKey(compareKeys), key, Some(entries[index]))
    {
      assert entries[index] in Entries();
    }

    /** The entries behind `offset` move up over it. */
    method Close(offset: nat)
      requires Sized() && Holds(entries) && offset < |entries| == count
      modifies keys, values
      ensures Holds(entries[..offset] + entries[offset + 1..])
    {
      Closed(entries, offset);
      if offset < count - 1 {
        Memmove(keys, offset, offset + 1, count - 1 - offset);
        Memmove(values, offset, offset + 1, count - 1 - offset);
      }
    }

    /** assoc_array_remove: the map loses `key`; a map without it stays as it is. */
    method Remove(key: K)
      requires Valid()
      modifies this`count, this`entries, keys, values
      ensures Valid() && Entries() == Without(old(Entries()), SameKey(compareKeys), key)
    {
      if count > 0 {
        var cmp, offset := BinarySearch(key);
        if cmp == 0 {
          ghost var a, e, b := entries[..offset], entries[offset], entries[offset + 1..];
          assert entries == a + [e] + b;
          RemovedAt(compareKeys, a, e, b, key);
          Close(offset);
          entries := a + b;
          count := count - 1;
        } else {
          LocatedAbsent(key, offset, cmp);
        }
      }
    }

    /** assoc_array_lookup: the entry under `key`, if the map has one. */
    method Lookup(key: K) returns (result: Option<Entry<K, V>>)
      requires Valid()
      ensures Finds(Entries(), SameKey(compareKeys), key, result)
    {
      if count > 0 {
        var cmp, offset := BinarySearch(key);
        if cmp == 0 {
          LocatedFound(key, offset);
          return Some(Entry(keys[offset], values[offset]));
        }
        LocatedAbsent(key, offset, cmp);
      }
      return None;
    }

    /** assoc_array_key_exists */
    method KeyExists(key: K) returns (found: bool)
      requires Valid()
      ensures found == Knows(key)
    {
      if count > 0 {
        var cmp, offset := BinarySearch(key);
        if cmp == 0 {
          LocatedFound(key, offset);
        } else {
          LocatedAbsent(key, offset, cmp);
        }
        return cmp == 0;
      }
      return false;
    }

    method Clear()
      requires Valid()
      modifies this`count, this`entries
      ensures Valid() && Entries() == {} && count == 0
    {
      count := 0;
      entries := [];
    }

    lemma CountsEntries()
      requires Valid()
      ensures count == |Entries()| && Unique(Entries(), SameKey(compareKeys))
    {
      SortedIsUnique(compareKeys, entries);
    }

    /** The iterator of assocarray.c:453-470: every entry once, in the order of the keys. */
    method Collect() returns (visited: seq<Entry<K, V>>)
      requires Valid()
      ensures visited == entries
    {
      visited := [];
      var offset := -1;
      offset := offset + 1;
      while offset < count
        invariant 0 <= offset <= count && visited == entries[..offset]
      {
        visited := visited + [Entry(keys[offset], values[offset])];
        offset := offset + 1;
      }
    }
  }
}
