/** Linked lists as values.  `Cells` mirrors the items from one link to the end of a
    list and `Passed` those that a walk has left behind, the last of them first.
    `N` is the identity of an item and `T` what it stores.
 */
module ListShape {
  import opened Ordering

  datatype Cells<+N, +T> = Nil | Cell(item: N, value: T, rest: Cells<N, T>)

  datatype Passed<+N, +T> = Start | Past(before: Passed<N, T>, item: N, value: T)

  // The item behind a link, the one before it, and the last of a list; `none` where there is none.
  ghost function First<N, T>(c: Cells<N, T>, none: N): N {
    if c.Nil? then none else c.item
  }

  ghost function Top<N, T>(p: Passed<N, T>, none: N): N {
    if p.Start? then none else p.item
  }

  ghost function Last<N, T>(c: Cells<N, T>, none: N): N {
    if c.Nil? then none else if c.rest.Nil? then c.item else Last(c.rest, none)
  }

  /** The whole list. */
  function Zip<N, T>(p: Passed<N, T>, c: Cells<N, T>): Cells<N, T> {
    match p
    case Start => c
    case Past(b, n, v) => Zip(b, Cell(n, v, c))
  }

  /** A walk over all of the list. */
  function WalkAll<N, T>(p: Passed<N, T>, c: Cells<N, T>): Passed<N, T>
    decreases c
  {
    match c
    case Nil => p
    case Cell(n, v, rest) => WalkAll(Past(p, n, v), rest)
  }

  lemma {:induction false} WalkAllZip<N, T>(p: Passed<N, T>, c: Cells<N, T>)
    ensures Zip(WalkAll(p, c), Nil) == Zip(p, c)
    decreases c
  {
    if c.Cell? {
      WalkAllZip(Past(p, c.item, c.value), c.rest);
    }
  }

  // ----- contents

  function Values<N, T>(c: Cells<N, T>): seq<T> {
    match c
    case Nil => []
    case Cell(_, v, rest) => [v] + Values(rest)
  }

  /** The items in their order. */
  ghost function Order<N, T>(c: Cells<N, T>): (s: seq<N>)
    ensures |s| == |Values(c)|
  {
    match c
    case Nil => []
    case Cell(n, _, rest) => [n] + Order(rest)
  }

  function PassedValues<N, T>(p: Passed<N, T>): seq<T> {
    match p
    case Start => []
    case Past(b, _, v) => PassedValues(b) + [v]
  }

  lemma {:induction false} ZipValues<N, T>(p: Passed<N, T>, c: Cells<N, T>)
    ensures Values(Zip(p, c)) == PassedValues(p) + Values(c)
  {
    if p.Past? {
      ZipValues(p.before, Cell(p.item, p.value, c));
    }
  }

  // ----- item identities

  ghost function Items<N, T>(c: Cells<N, T>): set<N> {
    match c
    case Nil => {}
    case Cell(n, _, rest) => {n} + Items(rest)
  }

  ghost function PassedItems<N, T>(p: Passed<N, T>): set<N> {
    match p
    case Start => {}
    case Past(b, n, _) => PassedItems(b) + {n}
  }

  ghost predicate Distinct<N, T>(c: Cells<N, T>) {
    c.Cell? ==> c.item !in Items(c.rest) && Distinct(c.rest)
  }

  ghost predicate PassedDistinct<N, T>(p: Passed<N, T>) {
    p.Past? ==> p.item !in PassedItems(p.before) && PassedDistinct(p.before)
  }

  ghost predicate Apart<N, T>(p: Passed<N, T>, c: Cells<N, T>) {
    PassedDistinct(p) && Distinct(c) && PassedItems(p) !! Items(c)
  }

  lemma {:induction false} ZipItems<N, T>(p: Passed<N, T>, c: Cells<N, T>)
    ensures Items(Zip(p, c)) == PassedItems(p) + Items(c)
    ensures Distinct(Zip(p, c)) <==> Apart(p, c)
  {
    if p.Past? {
      ZipItems(p.before, Cell(p.item, p.value, c));
    }
  }

  // ----- what the operations mean for the list's values

  ghost predicate Ascending<T>(cmp: (T, T) -> int, s: seq<T>) {
    forall i, j :: 0 <= i < j < |s| ==> cmp(s[i], s[j]) <= 0
  }

  /** The list without an item. */
  ghost function WithoutItem<N, T>(c: Cells<N, T>, item: N): Cells<N, T> {
    match c
    case Nil => Nil
    case Cell(n, v, rest) => if n == item then rest else Cell(n, v, WithoutItem(rest, item))
  }

  /** Where a list is cut before the item, only the item is left out. */
  lemma {:induction false} WithoutItemAt<N, T>(p: Passed<N, T>, c: Cells<N, T>, item: N)
    requires item !in PassedItems(p)
    ensures WithoutItem(Zip(p, c), item) == Zip(p, WithoutItem(c, item))
    ensures c.Cell? && c.item == item ==> WithoutItem(Zip(p, c), item) == Zip(p, c.rest)
  {
    if p.Past? {
      WithoutItemAt(p.before, Cell(p.item, p.value, c), item);
    }
  }

  /** An item that is not in the list leaves nothing out. */
  lemma {:induction false} WithoutNoItem<N, T>(c: Cells<N, T>, item: N)
    requires item !in Items(c)
    ensures WithoutItem(c, item) == c
  {
    if c.Cell? {
      WithoutNoItem(c.rest, item);
    }
  }

  /** A list can be cut before each of its items. */
  lemma {:induction false} CutBefore<N, T>(p: Passed<N, T>, c: Cells<N, T>, item: N) returns (q: Passed<N, T>, d: Cells<N, T>)
    requires item in Items(c)
    ensures Zip(q, d) == Zip(p, c) && d.Cell? && d.item == item
    decreases c
  {
    if c.item == item {
      q, d := p, c;
    } else {
      q, d := CutBefore(Past(p, c.item, c.value), c.rest, item);
    }
  }

  /** The list without the values that match. */
  ghost function WithoutAll<N, T>(cmp: (T, T) -> int, c: Cells<N, T>, data: T): Cells<N, T> {
    match c
    case Nil => Nil
    case Cell(n, v, rest) => if cmp(v, data) == 0 then WithoutAll(cmp, rest, data) else Cell(n, v, WithoutAll(cmp, rest, data))
  }

  /** The list without the first value that matches. */
  ghost function WithoutFirst<N, T>(cmp: (T, T) -> int, c: Cells<N, T>, data: T): Cells<N, T> {
    match c
    case Nil => Nil
    case Cell(n, v, rest) => if cmp(v, data) == 0 then rest else Cell(n, v, WithoutFirst(cmp, rest, data))
  }

  // ----- what is left, place by place

  /** The place `j` of `c` goes to the place `to[j]` of `d`, with its item and its value,
      or is left out if the next place goes there as well. */
  ghost predicate Goes<N, T>(c: Cells<N, T>, d: Cells<N, T>, to: seq<nat>, j: nat)
    requires j < |Values(c)| && |to| == |Values(c)| + 1
  {
    && to[j] <= to[j + 1] <= to[j] + 1
    && (to[j] < to[j + 1] ==>
          to[j] < |Values(d)| && Order(d)[to[j]] == Order(c)[j] && Values(d)[to[j]] == Values(c)[j])
  }

  /** `d` is left of `c`: some places are left out and the others move up in their order. */
  ghost predicate LeftOf<N, T>(c: Cells<N, T>, d: Cells<N, T>, to: seq<nat>) {
    && |to| == |Values(c)| + 1 && to[0] == 0 && to[|Values(c)|] == |Values(d)|
    && forall j: nat {:trigger Goes(c, d, to, j)} :: j < |Values(c)| ==> Goes(c, d, to, j)
  }

  /** Exactly the values that match are left out. */
  ghost predicate LeavesOut<N, T>(cmp: (T, T) -> int, c: Cells<N, T>, to: seq<nat>, data: T)
    requires |to| == |Values(c)| + 1
  {
    forall j :: 0 <= j < |Values(c)| ==> (to[j] == to[j + 1] <==> cmp(Values(c)[j], data) == 0)
  }

  /** The places behind one more place in front. */
  ghost function Further(to: seq<nat>, shift: nat): (s: seq<nat>)
    ensures |s| == |to| + 1 && s[0] == 0 && forall j :: 0 < j < |s| ==> s[j] == to[j - 1] + shift
  {
    [0] + seq(|to|, j requires 0 <= j < |to| => to[j] + shift)
  }

  lemma LeftOfBehind<N, T>(n: N, v: T, c: Cells<N, T>, d: Cells<N, T>, to: seq<nat>, keep: bool)
    requires LeftOf(c, d, to)
    ensures LeftOf(Cell(n, v, c), if keep then Cell(n, v, d) else d, Further(to, if keep then 1 else 0))
  {
    var c', d', to' := Cell(n, v, c), if keep then Cell(n, v, d) else d, Further(to, if keep then 1 else 0);
    forall j: nat | j < |Values(c')| ensures Goes(c', d', to', j) {
      if j > 0 {
        assert Goes(c, d, to, j - 1);
      }
    }
  }

  /** Removing all matches leaves out exactly the values that match. */
  lemma {:induction false} WithoutAllLeaves<N, T>(cmp: (T, T) -> int, c: Cells<N, T>, data: T) returns (to: seq<nat>)
    ensures LeftOf(c, WithoutAll(cmp, c, data), to) && LeavesOut(cmp, c, to, data)
  {
    to := [0];
    if c.Cell? {
      var keep := cmp(c.value, data) != 0;
      to := WithoutAllLeaves(cmp, c.rest, data);
      LeftOfBehind(c.item, c.value, c.rest, WithoutAll(cmp, c.rest, data), to, keep);
      to := Further(to, if keep then 1 else 0);
    }
  }

  /** At `j` is the first value that matches. */
  ghost predicate FirstMatch<T>(cmp: (T, T) -> int, s: seq<T>, data: T, j: nat)
    requires j < |s|
  {
    cmp(s[j], data) == 0 && forall i :: 0 <= i < j ==> cmp(s[i], data) != 0
  }

  /** Exactly the first value that matches is left out. */
  ghost predicate LeavesFirstOut<N, T>(cmp: (T, T) -> int, c: Cells<N, T>, to: seq<nat>, data: T)
    requires |to| == |Values(c)| + 1
  {
    forall j :: 0 <= j < |Values(c)| ==> (to[j] == to[j + 1] <==> FirstMatch(cmp, Values(c), data, j))
  }

  lemma {:induction false} NothingLeftOut<N, T>(c: Cells<N, T>) returns (to: seq<nat>)
    ensures LeftOf(c, c, to) && forall j :: 0 <= j < |Values(c)| ==> to[j] < to[j + 1]
  {
    to := [0];
    if c.Cell? {
      to := NothingLeftOut(c.rest);
      LeftOfBehind(c.item, c.value, c.rest, c.rest, to, true);
      to := Further(to, 1);
    }
  }

  lemma {:induction false} WithoutFirstLeaves<N, T>(cmp: (T, T) -> int, c: Cells<N, T>, data: T) returns (to: seq<nat>)
    ensures LeftOf(c, WithoutFirst(cmp, c, data), to) && LeavesFirstOut(cmp, c, to, data)
  {
    to := [0];
    if c.Cell? {
      assert Values(c)[0] == c.value;
      if cmp(c.value, data) == 0 {
        to := NothingLeftOut(c.rest);
        LeftOfBehind(c.item, c.value, c.rest, c.rest, to, false);
        to := Further(to, 0);
      } else {
        to := WithoutFirstLeaves(cmp, c.rest, data);
        FirstMatchBehind(cmp, c.value, Values(c.rest), data);
        LeftOfBehind(c.item, c.value, c.rest, WithoutFirst(cmp, c.rest, data), to, true);
        to := Further(to, 1);
      }
    }
  }

  lemma FirstMatchBehind<T>(cmp: (T, T) -> int, v: T, s: seq<T>, data: T)
    requires cmp(v, data) != 0
    ensures forall j :: 0 < j < |s| + 1 ==> (FirstMatch(cmp, [v] + s, data, j) <==> FirstMatch(cmp, s, data, j - 1))
  {
    var t := [v] + s;
    forall j | 0 < j < |t| ensures FirstMatch(cmp, t, data, j) <==> FirstMatch(cmp, s, data, j - 1) {
      if FirstMatch(cmp, t, data, j) {
        forall i | 0 <= i < j - 1 ensures cmp(s[i], data) != 0 {
          assert t[i + 1] == s[i];
        }
      }
    }
  }

  lemma PlacesLeft<N, T>(cmp: (T, T) -> int, c: Cells<N, T>, data: T, removeAll: bool) returns (to: seq<nat>)
    ensures LeftOf(c, if removeAll then WithoutAll(cmp, c, data) else WithoutFirst(cmp, c, data), to)
    ensures if removeAll then LeavesOut(cmp, c, to, data) else LeavesFirstOut(cmp, c, to, data)
  {
    if removeAll {
      to := WithoutAllLeaves(cmp, c, data);
    } else {
      to := WithoutFirstLeaves(cmp, c, data);
    }
  }

  /** Removing all matches keeps every other value as often as it was there. */
  lemma {:induction false} WithoutAllCount<N, T>(cmp: (T, T) -> int, c: Cells<N, T>, data: T, x: T)
    ensures multiset(Values(WithoutAll(cmp, c, data)))[x] == if cmp(x, data) == 0 then 0 else multiset(Values(c))[x]
  {
    if c.Cell? {
      WithoutAllCount(cmp, c.rest, data, x);
      assert multiset(Values(c)) == multiset{c.value} + multiset(Values(c.rest));
      if cmp(c.value, data) != 0 {
        var r := WithoutAll(cmp, c.rest, data);
        assert multiset([c.value] + Values(r)) == multiset{c.value} + multiset(Values(r));
      }
    }
  }

  /** And it keeps them in their order. */
  lemma {:induction false} WithoutAllOrder<N, T>(cmp: (T, T) -> int, c: Cells<N, T>, data: T)
    requires Ascending(cmp, Values(c))
    ensures Ascending(cmp, Values(WithoutAll(cmp, c, data)))
  {
    if c.Cell? {
      var r := WithoutAll(cmp, c.rest, data);
      AscendingParts(cmp, c.value, Values(c.rest));
      WithoutAllOrder(cmp, c.rest, data);
      forall x | x in Values(r) ensures x in Values(c.rest) {
        WithoutAllCount(cmp, c.rest, data, x);
        assert multiset(Values(r))[x] > 0;
        assert multiset(Values(c.rest))[x] > 0;
      }
      AscendingParts(cmp, c.value, Values(r));
    }
  }

  lemma AscendingParts<T>(cmp: (T, T) -> int, v: T, s: seq<T>)
    ensures Ascending(cmp, [v] + s) <==> Ascending(cmp, s) && forall x :: x in s ==> cmp(v, x) <= 0
  {
    var t := [v] + s;
    assert forall i :: 0 <= i < |s| ==> s[i] == t[i + 1];
    if Ascending(cmp, t) {
      forall x | x in s ensures cmp(v, x) <= 0 {
        var i :| 0 <= i < |s| && s[i] == x;
        assert cmp(t[0], t[i + 1]) <= 0;
      }
    }
  }

  /** Removing the first match removes that one value, and nothing if there is none. */
  lemma {:induction false} WithoutFirstLaws<N, T>(cmp: (T, T) -> int, c: Cells<N, T>, data: T) returns (a: seq<T>, b: seq<T>)
    ensures forall x :: x in a ==> cmp(x, data) != 0
    ensures if b == [] then Values(c) == a && WithoutFirst(cmp, c, data) == c
            else Values(c) == a + b && cmp(b[0], data) == 0 && Values(WithoutFirst(cmp, c, data)) == a + b[1..]
  {
    if c.Cell? && cmp(c.value, data) != 0 {
      a, b := WithoutFirstLaws(cmp, c.rest, data);
      Consed(c.value, a, b);
      if b != [] {
        Consed(c.value, a, b[1..]);
      }
      a := [c.value] + a;
    } else {
      a, b := [], Values(c);
    }
  }

  lemma Consed<T>(v: T, a: seq<T>, b: seq<T>)
    ensures [v] + (a + b) == ([v] + a) + b
  {
  }

  /** Where a value goes into a list: before the first that is not smaller, or to the
      end if the last is not larger. */
  ghost predicate SortedPlace<T>(cmp: (T, T) -> int, s: seq<T>, data: T, k: nat) {
    && k <= |s|
    && (k == |s| <==> s == [] || cmp(s[|s| - 1], data) <= 0)
    && (k < |s| ==> cmp(s[k], data) >= 0 && forall i :: 0 <= i < k ==> cmp(s[i], data) < 0)
  }

  /** The list with a new item before the first value that is not smaller. */
  ghost function Inserted<N, T>(cmp: (T, T) -> int, c: Cells<N, T>, item: N, data: T): Cells<N, T> {
    if c.Cell? && cmp(c.value, data) < 0 then Cell(c.item, c.value, Inserted(cmp, c.rest, item, data)) else Cell(item, data, c)
  }

  /** The last value is larger than `data`. */
  ghost predicate EndsAbove<N, T>(cmp: (T, T) -> int, c: Cells<N, T>, data: T) {
    c.Cell? && if c.rest.Nil? then cmp(c.value, data) > 0 else EndsAbove(cmp, c.rest, data)
  }

  lemma {:induction false} LastAbove<N, T>(cmp: (T, T) -> int, c: Cells<N, T>, data: T)
    requires c.Cell?
    ensures EndsAbove(cmp, c, data) <==> cmp(Values(c)[|Values(c)| - 1], data) > 0
  {
    if c.rest.Cell? {
      LastAbove(cmp, c.rest, data);
    }
  }

  lemma {:induction false} InsertedPlace<N, T>(cmp: (T, T) -> int, c: Cells<N, T>, item: N, data: T) returns (k: nat)
    requires EndsAbove(cmp, c, data)
    ensures k < |Values(c)| && cmp(Values(c)[k], data) >= 0 && forall i :: 0 <= i < k ==> cmp(Values(c)[i], data) < 0
    ensures Values(Inserted(cmp, c, item, data)) == Values(c)[..k] + [data] + Values(c)[k..]
  {
    k := 0;
    if cmp(c.value, data) < 0 {
      k := InsertedPlace(cmp, c.rest, item, data);
      k := k + 1;
    }
  }

  lemma InsertKeepsOrder<T(!new)>(cmp: (T, T) -> int, s: seq<T>, data: T, k: nat)
    requires TotalOrder(cmp) && Ascending(cmp, s) && SortedPlace(cmp, s, data, k)
    ensures Ascending(cmp, s[..k] + [data] + s[k..])
  {
    forall i | 0 <= i < k ensures cmp(s[i], data) <= 0 {
      if k == |s| {
        CompareZero(cmp, s[|s| - 1], s[|s| - 1]);
        CompareChain(cmp, s[i], s[|s| - 1], data);
      }
    }
    forall i | k <= i < |s| ensures cmp(data, s[i]) <= 0 {
      CompareZero(cmp, s[k], data);
      CompareZero(cmp, s[k], s[k]);
      CompareChain(cmp, data, s[k], s[i]);
    }
    Between(cmp, s, data, k);
  }

  lemma Between<T>(cmp: (T, T) -> int, s: seq<T>, data: T, k: nat)
    requires Ascending(cmp, s) && k <= |s|
    requires forall i :: 0 <= i < k ==> cmp(s[i], data) <= 0
    requires forall i :: k <= i < |s| ==> cmp(data, s[i]) <= 0
    ensures Ascending(cmp, s[..k] + [data] + s[k..])
  {
    var t := s[..k] + [data] + s[k..];
    assert forall i :: 0 <= i < |t| ==> t[i] == if i < k then s[i] else if i == k then data else s[i - 1];
  }
}
