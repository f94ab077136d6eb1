/** String keys, as the shared map tests use them: the functions of compare.c and
    hash.c, and strcmp(), meet what the maps expect of their callers.
 */
module StringKeys {
  import opened Machine
  import opened MapSpec
  import opened Ordering
  import opened MapClients
  import HashTable
  import opened AssocArray

  // A plain char, and the characters before the terminating 0 of a C string.
  type Char = c: int | -128 <= c < 128

  type CString = s: seq<Char> | forall i :: 0 <= i < |s| ==> s[i] != 0

  /** What `*(s + i)` reads: 0 at the end. */
  function CharAt(s: CString, i: nat): Char {
    if i < |s| then s[i] else 0
  }

  function Unsigned(c: Char): nat {
    if c < 0 then c + 256 else c
  }

  /** strcmp() (section 7.24.4.2 of ISO/IEC 9899:2011): the first characters that differ
      decide, read as unsigned char. */
  function StrCompare(s: CString, t: CString): int {
    if s != [] && t != [] && s[0] == t[0] then StrCompare(s[1..], t[1..])
    else Unsigned(CharAt(s, 0)) - Unsigned(CharAt(t, 0))
  }

  predicate StrEqual(s: CString, t: CString) {
    s == t
  }

  lemma {:induction false} CompareIsOrder(s: CString, t: CString)
    ensures StrCompare(s, t) == 0 <==> s == t
    ensures StrCompare(t, s) == -StrCompare(s, t)
  {
    if s != [] && t != [] && s[0] == t[0] {
      CompareIsOrder(s[1..], t[1..]);
      assert s == [s[0]] + s[1..] && t == [t[0]] + t[1..];
    }
  }

  lemma {:induction false} CompareIsTransitive(s: CString, t: CString, u: CString)
    requires StrCompare(s, t) <= 0 && StrCompare(t, u) <= 0
    ensures StrCompare(s, u) <= 0
  {
    if s != [] && t != [] && u != [] && s[0] == t[0] == u[0] {
      CompareIsTransitive(s[1..], t[1..], u[1..]);
    }
  }

  lemma CompareIsTotalOrder()
    ensures TotalOrder(StrCompare) && Agree(StrCompare, StrEqual)
  {
    forall s, t ensures Antisymmetric(StrCompare, s, t) && (StrEqual(s, t) <==> StrCompare(s, t) == 0) {
      CompareIsOrder(s, t);
    }
    forall s, t, u ensures Transitive(StrCompare, s, t, u) {
      if StrCompare(s, t) <= 0 && StrCompare(t, u) <= 0 {
        CompareIsTransitive(s, t, u);
      }
    }
  }

  /** str_equal */
  method Equal(s: CString, t: CString) returns (equal: bool)
    ensures equal <==> StrEqual(s, t)
  {
    var i := 0;
    while CharAt(s, i) != 0 && CharAt(t, i) != 0
      invariant i <= |s| && i <= |t| && s[..i] == t[..i]
      decreases |s| - i
    {
      if CharAt(s, i) != CharAt(t, i) {
        return false;
      }
      i := i + 1;
    }
    assert CharAt(s, i) == CharAt(t, i) ==> s == s[..i] && t == t[..i];
    return CharAt(s, i) == CharAt(t, i);
  }

  const UINT32_LIMIT := 0x1_0000_0000

  /** The hash of the first `n` characters. */
  function HashOf(s: CString, n: nat): (h: nat)
    requires n <= |s|
    ensures h < UINT32_LIMIT
  {
    if n == 0 then 0 else (s[n - 1] + 65599 * HashOf(s, n - 1)) % UINT32_LIMIT
  }

  function StrHash(s: CString): nat {
    HashOf(s, |s|)
  }

  lemma SameRest(x: int, k: int)
    ensures (x - UINT32_LIMIT * k) % UINT32_LIMIT == x % UINT32_LIMIT
  {
  }

  lemma ShiftsMultiply(c: int, h: nat)
    ensures (c + h * 64 % UINT32_LIMIT + h * 65536 % UINT32_LIMIT - h) % UINT32_LIMIT == (c + 65599 * h) % UINT32_LIMIT
  {
    var a, b := h * 64 / UINT32_LIMIT, h * 65536 / UINT32_LIMIT;
    assert h * 64 % UINT32_LIMIT == h * 64 - UINT32_LIMIT * a;
    assert h * 65536 % UINT32_LIMIT == h * 65536 - UINT32_LIMIT * b;
    SameRest(c + 65599 * h, a + b);
  }

  /** str_hash: shifts and a subtraction that wrap around amount to a product. */
  method Hash(s: CString) returns (hash: nat)
    ensures hash == StrHash(s) < UINT32_LIMIT
  {
    hash := 0;
    var i := 0;
    while CharAt(s, i) != 0
      invariant i <= |s| && hash == HashOf(s, i)
      decreases |s| - i
    {
      var shifted6, shifted16 := hash * 64 % UINT32_LIMIT, hash * 65536 % UINT32_LIMIT;
      ShiftsMultiply(CharAt(s, i), hash);
      hash := (CharAt(s, i) + shifted6 + shifted16 - hash) % UINT32_LIMIT;
      i := i + 1;
    }
  }

  /** The maps of the tests, with string keys: no assumption about the caller is left. */
  method RunStrings<V(0)>(size: nat, ops: seq<Op<CString, V>>)
    returns (tree: seq<Answer<CString, V>>, table: seq<Answer<CString, V>>, array_: seq<Answer<CString, V>>)
    requires |ops| <= if size == 0 then MAX_CALLS else ASSOC_ARRAY_MAX_SIZE
    ensures tree == table == array_ && |tree| == |ops| && Correct(SameKey(StrCompare), ops, tree)
  {
    CompareIsTotalOrder();
    tree, table, array_ := RunAll(StrCompare, StrEqual, size, StrHash, ops);
  }
}
