/** list.c: a doubly-linked list.  The links `next` and `prev` stay inverse to each
    other; the two-ended search relies on that.
 */
module List {
  import opened Machine
  import opened MapSpec
  import opened ListShape

  class ListItem<T> {
    var data: T
    var next: ListItem?<T>
    var prev: ListItem?<T>

    constructor (data: T)
      ensures this.data == data && next == null && prev == null
    {
      this.data, next, prev := data, null, null;
    }
  }

  type Rest<T> = Cells<ListItem<T>, T>

  type Walked<T> = Passed<ListItem<T>, T>

  /** Only an empty list has no last item. */
  lemma {:induction false} LastExists<T>(c: Rest<T>)
    ensures Last(c, null) == null <==> c.Nil?
  {
    if c.Cell? {
      LastExists(c.rest);
    }
  }

  /** From `link` on, the items are those of `c`, and `prev` leads from each back to
      the one before, from the first to `prev`. */
  ghost predicate Rep<T>(link: ListItem?<T>, prev: ListItem?<T>, c: Rest<T>)
    reads Items(c)
    decreases c
  {
    match c
    case Nil => link == null
    case Cell(n, v, rest) => link == n && n.data == v && n.prev == prev && Rep(n.next, n, rest)
  }

  /** From `head`, the items of `p` lead to a link that holds `hole`, and back. */
  ghost predicate RepPassed<T>(head: ListItem?<T>, p: Walked<T>, hole: ListItem?<T>)
    reads PassedItems(p)
  {
    match p
    case Start => head == hole
    case Past(b, n, v) => n.data == v && n.next == hole && n.prev == Top(b, null) && RepPassed(head, b, n)
  }

  lemma {:induction false} RepZip<T>(head: ListItem?<T>, p: Walked<T>, c: Rest<T>)
    ensures Items(Zip(p, c)) == PassedItems(p) + Items(c)
    ensures Rep(head, null, Zip(p, c)) <==> RepPassed(head, p, First(c, null)) && Rep(First(c, null), Top(p, null), c)
    ensures Last(Zip(p, c), null) == if c.Nil? then Top(p, null) else Last(c, null)
  {
    ZipItems(p, c);
    if p.Past? {
      RepZip(head, p.before, Cell(p.item, p.value, c));
    } else {
      assert Rep(head, null, c) ==> head == First(c, null);
    }
  }

  ghost function Closer(front: int, back: int): int {
    if front < back then front else back
  }

  // ----- items by their place

  ghost function ItemAt<T>(c: Rest<T>, i: int): ListItem?<T>
    decreases c
  {
    if c.Nil? || i < 0 then null else if i == 0 then c.item else ItemAt(c.rest, i - 1)
  }

  /** At each place, `next` and `prev` lead to the neighbours. */
  lemma {:induction false} RepAt<T>(link: ListItem?<T>, prev: ListItem?<T>, c: Rest<T>, i: nat)
    requires Rep(link, prev, c) && i < |Values(c)|
    ensures var n := ItemAt(c, i);
            && n != null && n in Items(c) && n.data == Values(c)[i]
            && n.next == ItemAt(c, i + 1) && n.prev == if i == 0 then prev else ItemAt(c, i - 1)
    decreases c
  {
    if i > 0 {
      RepAt(c.item.next, c.item, c.rest, i - 1);
    }
  }

  lemma {:induction false} ItemAtLaws<T>(c: Rest<T>, i: int)
    ensures ItemAt(c, i) == null <==> !(0 <= i < |Values(c)|)
    ensures ItemAt(c, i) != null ==> ItemAt(c, i) in Items(c)
    ensures Last(c, null) == ItemAt(c, |Values(c)| - 1)
    decreases c
  {
    if c.Cell? {
      ItemAtLaws(c.rest, i - 1);
    }
  }

  lemma {:induction false} ItemAtDistinct<T>(c: Rest<T>, i: int, j: int)
    requires Distinct(c) && 0 <= i < j
    ensures ItemAt(c, i) == ItemAt(c, j) ==> ItemAt(c, j) == null
    decreases c
  {
    if c.Cell? {
      ItemAtLaws(c.rest, j - 1);
      if i > 0 {
        ItemAtDistinct(c.rest, i - 1, j - 1);
      }
    }
  }

  class List<T> {
    const compare: (T, T) -> int
    var head: ListItem?<T>
    var tail: ListItem?<T>
    var count: nat

    ghost var cells: Rest<T>
    ghost var items: set<ListItem<T>>

    /** The links from `head` lead through `cells` and back. */
    ghost predicate Sound()
      reads this`head, this`cells, this`items, items
    {
      Items(cells) == items && Distinct(cells) && Rep(head, null, cells)
    }

    /** `head`, `tail` and `count` describe the chain of items. */
    ghost predicate Valid()
      reads this, items
    {
      Sound() && tail == Last(cells, null) && count == |Values(cells)| <= SIZE_MAX
    }

    ghost function Contents(): seq<T>
      reads this`cells
    {
      Values(cells)
    }

    constructor (compare: (T, T) -> int)
      ensures Valid() && Contents() == [] && items == {} && this.compare == compare
    {
      this.compare, head, tail, count := compare, null, null, 0;
      cells, items := Nil, {};
    }

    /** The same, cut at the link behind the items of `p`. */
    ghost predicate Cut(p: Walked<T>, c: Rest<T>)
      reads this`head, this`items, items
    {
      PassedItems(p) + Items(c) == items && Apart(p, c) && RepPassed(head, p, First(c, null)) && Rep(First(c, null), Top(p, null), c)
    }

    lemma CutList(p: Walked<T>, c: Rest<T>)
      requires Sound() && cells == Zip(p, c)
      ensures Cut(p, c) && Last(cells, null) == if c.Nil? then Top(p, null) else Last(c, null)
      ensures Contents() == PassedValues(p) + Values(c)
    {
      RepZip(head, p, c);
      ZipItems(p, c);
      ZipValues(p, c);
    }

    ghost method JoinList(p: Walked<T>, c: Rest<T>)
      requires Cut(p, c)
      modifies this`cells
      ensures Sound() && cells == Zip(p, c) && Last(cells, null) == if c.Nil? then Top(p, null) else Last(c, null)
      ensures Contents() == PassedValues(p) + Values(c)
    {
      RepZip(head, p, c);
      ZipItems(p, c);
      ZipValues(p, c);
      cells := Zip(p, c);
    }

    /** list.c:144-152: `item` behind the last item, which `p` ends with. */
    method LinkLast(item: ListItem<T>, ghost p: Walked<T>)
      requires RepPassed(head, p, null) && PassedDistinct(p) && tail == Top(p, null) && item !in PassedItems(p)
      requires head == null <==> p.Start?
      modifies this`head, PassedItems(p), item`prev
      ensures RepPassed(head, p, item) && item.prev == (if p.Start? then old(item.prev) else tail)
    {
      if head != null {
        tail.next := item;
        item.prev := tail;
      } else {
        head := item;
      }
    }

    /** list.c:144-154: `item` behind all others. */
    method Behind(item: ListItem<T>)
      requires Sound() && tail == Last(cells, null) && item !in items && item.next == null && item.prev == null
      modifies this`head, this`cells, this`items, items, item`prev
      ensures Sound() && items == old(items) + {item} && item == Last(cells, null) && item.data == old(item.data)
      ensures Contents() == old(Contents()) + [item.data]
    {
      ghost var p := WalkAll(Start, cells);
      WalkAllZip(Start, cells);
      CutList(p, Nil);
      LinkLast(item, p);
      items := items + {item};
      JoinList(p, Cell(item, item.data, Nil));
    }

    /** list_append */
    method Append(data: T) returns (item: ListItem?<T>)
      requires Valid()
      modifies this, items
      ensures Valid() && fresh(items - old(items)) && (item == null <==> old(count) == SIZE_MAX)
      ensures Contents() == old(Contents()) + if item == null then [] else [data]
      ensures item != null ==> fresh(item) && tail == item && item.data == data
    {
      item := null;
      if count < SIZE_MAX {
        item := new ListItem(data);
        Behind(item);
        tail := item;
        count := count + 1;
      }
    }

    /** list_prepend */
    method Prepend(data: T) returns (item: ListItem?<T>)
      requires Valid()
      modifies this, items
      ensures Valid() && fresh(items - old(items)) && (item == null <==> old(count) == SIZE_MAX)
      ensures Contents() == (if item == null then [] else [data]) + old(Contents())
      ensures item != null ==> fresh(item) && head == item && item.data == data
    {
      item := null;
      if count < SIZE_MAX {
        item := new ListItem(data);
        item.next := head;
        if head != null {
          head.prev := item;
        } else {
          tail := item;
        }
        head := item;
        count := count + 1;
        items := items + {item};
        cells := Cell(item, data, cells);
      }
    }

    lemma Ends()
      requires Valid() && count > 0
      ensures head != null && head in items && head.data == Contents()[0] && head.prev == null
      ensures tail != null && tail in items && tail.data == Contents()[count - 1]
    {
      var p := WalkAll(Start, cells);
      WalkAllZip(Start, cells);
      CutList(p, Nil);
    }

    /** Where list_insert_sorted can put a value: behind the last or before the first. */
    ghost predicate AtAnEnd(s: seq<T>, data: T) {
      s == [] || compare(s[|s| - 1], data) <= 0 || compare(s[0], data) >= 0
    }

    /** list_insert_sorted.  If the first value is smaller and the last one larger, list.c:218
        reads `(*ptr)->prev->next` for the head, whose `prev` is null: `fault`. */
    method InsertSorted(data: T) returns (item: ListItem?<T>, fault: bool)
      requires Valid()
      modifies this, items
      ensures Valid() && fresh(items - old(items))
      ensures fault <==> old(count) < SIZE_MAX && !AtAnEnd(old(Contents()), data)
      ensures item == null <==> fault || old(count) == SIZE_MAX
      ensures item == null ==> Contents() == old(Contents())
      ensures item != null && (old(Contents()) == [] || compare(old(Contents())[old(count) - 1], data) <= 0) ==>
                Contents() == old(Contents()) + [data]
      ensures item != null && old(Contents()) != [] && compare(old(Contents())[old(count) - 1], data) > 0 ==>
                compare(old(Contents())[0], data) >= 0 && Contents() == [data] + old(Contents())
    {
      item, fault := null, false;
      if count < SIZE_MAX {
        if count > 0 {
          Ends();
          if compare(tail.data, data) <= 0 {
            item := Append(data);
          } else if compare(head.data, data) >= 0 {
            item := new ListItem(data);
            item.next := head;
            item.prev := head.prev;
            head.prev := item;
            head := item;
            count := count + 1;
            items, cells := items + {item}, Cell(item, data, cells);
          } else {
            fault := head.prev == null;
          }
        } else {
          item := new ListItem(data);
          head, tail, count := item, item, 1;
          items, cells := items + {item}, Cell(item, data, Nil);
        }
      }
    }

    /** _list_detach: the neighbours of `item` become neighbours. */
    method Detach(item: ListItem<T>, ghost p: Walked<T>, ghost c: Rest<T>)
      requires Sound() && tail == Last(cells, null) && cells == Zip(p, c) && c.Cell? && c.item == item
      modifies this`head, this`tail, this`cells, this`items, items
      ensures Sound() && tail == Last(cells, null) && cells == Zip(p, c.rest) && items == old(items) - {item}
      ensures Contents() == PassedValues(p) + Values(c.rest)
    {
      CutList(p, c);
      assert Rep(item.next, item, c.rest);
      var next, prev := item.next, item.prev;
      if prev != null {
        prev.next := next;
      } else {
        head := next;
      }
      if next != null {
        next.prev := prev;
      } else {
        tail := prev;
      }
      items := items - {item};
      JoinList(p, c.rest);
    }

    /** list_remove: exactly this item leaves the list. */
    method Remove(item: ListItem<T>, ghost p: Walked<T>, ghost c: Rest<T>)
      requires Valid() && cells == Zip(p, c) && c.Cell? && c.item == item
      modifies this, items
      ensures Valid() && cells == Zip(p, c.rest) && items == old(items) - {item}
      ensures Contents() == PassedValues(p) + Values(c.rest)
    {
      CutList(p, c);
      Detach(item, p, c);
      count := count - 1;
    }

    /** list_remove_by_data: all values that match leave the list, or the first of them.
        Every other keeps its item and its order; `to` tells its new place. */
    method RemoveByData(data: T, removeAll: bool) returns (ghost to: seq<nat>)
      requires Valid()
      modifies this, items
      ensures Valid() && items <= old(items)
      ensures cells == if removeAll then WithoutAll(compare, old(cells), data) else WithoutFirst(compare, old(cells), data)
      ensures LeftOf(old(cells), cells, to)
      ensures if removeAll then LeavesOut(compare, old(cells), to, data) else LeavesFirstOut(compare, old(cells), to, data)
    {
      ghost var all := cells;
      var iter, completed := head, false;
      ghost var p: Walked<T>, c := Start, cells;
      while iter != null && !completed
        invariant Valid() && iter == First(c, null) && cells == Zip(p, c) && items <= old(items)
        invariant removeAll ==> !completed && WithoutAll(compare, all, data) == Zip(p, WithoutAll(compare, c, data))
        invariant !removeAll && !completed ==> WithoutFirst(compare, all, data) == Zip(p, WithoutFirst(compare, c, data))
        invariant completed ==> cells == WithoutFirst(compare, all, data)
        decreases !completed, c
      {
        CutList(p, c);
        assert Rep(iter.next, iter, c.rest);
        var next := iter.next;
        if compare(iter.data, data) == 0 {
          completed := !removeAll;
          Remove(iter, p, c);
          c := c.rest;
        } else {
          p, c := Past(p, c.item, c.value), c.rest;
        }
        iter := next;
      }
      CutList(p, c);
      to := PlacesLeft(compare, all, data, removeAll);
    }

    /** list_pop: the first value. */
    method Pop() returns (data: Option<T>)
      requires Valid()
      modifies this, items
      ensures Valid() && items <= old(items)
      ensures match data
              case None => old(Contents()) == [] == Contents()
              case Some(v) => old(Contents()) == [v] + Contents()
    {
      data := None;
      var item := head;
      if item != null {
        LastExists(cells.rest);
        assert Rep(item.next, item, cells.rest);
        head := item.next;
        if head != null {
          head.prev := null;
        } else {
          tail := null;
        }
        data := Some(item.data);
        count := count - 1;
        items := items - {item};
        cells := cells.rest;
      }
    }

    // ----- the two-ended search

    /** The values from place `from` on that lie before `lo` or behind `hi` fail the test. */
    ghost predicate Missed(test: T --> bool, from: nat, lo: int, hi: int)
      requires forall i :: from <= i < |Contents()| ==> test.requires(Contents()[i])
      reads this`cells
    {
      forall i {:trigger Contents()[i]} :: from <= i < |Contents()| && (i < lo || hi < i) ==> !test(Contents()[i])
    }

    lemma Place(i: int)
      requires Valid()
      ensures ItemAt(cells, i) == null <==> !(0 <= i < count)
      ensures tail == ItemAt(cells, count - 1) && head == ItemAt(cells, 0)
      ensures 0 <= i < count ==>
                var n := ItemAt(cells, i);
                n.data == Contents()[i] && n.next == ItemAt(cells, i + 1) && n.prev == ItemAt(cells, i - 1) && n in items
    {
      ItemAtLaws(cells, i);
      ItemAtLaws(cells, 0);
      if 0 <= i < count {
        RepAt(head, null, cells, i);
      }
      if cells.Cell? {
        RepAt(head, null, cells, 0);
      }
    }

    lemma SamePlace(i: int, j: int)
      requires Valid() && ItemAt(cells, i) == ItemAt(cells, j) && 0 <= j < count
      ensures i == j
    {
      Place(i);
      Place(j);
      if i < j {
        ItemAtDistinct(cells, i, j);
      } else if j < i {
        ItemAtDistinct(cells, j, i);
      }
    }

    /** No value from place `from` on that passes the test is nearer to an end than the
        one at `i`, or as near and before it. */
    ghost predicate Nearest(test: T --> bool, from: nat, i: nat)
      requires from <= i < |Contents()| && forall j :: from <= j < |Contents()| ==> test.requires(Contents()[j])
      reads this`cells
    {
      forall j {:trigger Contents()[j]} :: from <= j < |Contents()| && test(Contents()[j]) ==>
        var last := |Contents()| - 1;
        var a, b := Closer(i - from, last - i), Closer(j - from, last - j);
        a < b || (a == b && i <= j)
    }

    /** What one end holds when the search from both ends has missed everything outside. */
    lemma NearestEnd(test: T --> bool, from: nat, lo: nat, hi: int, i: nat)
      requires forall j :: from <= j < |Contents()| ==> test.requires(Contents()[j])
      requires Missed(test, from, lo, hi) && from <= lo < |Contents()| && lo + hi == from + |Contents()| - 1
      requires from <= i < |Contents()| && (i == lo || (i == hi && !test(Contents()[lo])))
      requires test(Contents()[i])
      ensures Nearest(test, from, i)
    {
    }

    /** _list_find with any test in the place of `compare(_, data) == 0`: an item from
        `offset` on that passes it, if there is one, and of several the one at the place `at`
        nearest to an end.  Both ends move inwards and, over an odd number of items, past each
        other; they never meet null early.  The test need not be defined for values before
        `offset`, so that none of them is looked at. */
    method FindBy(offset: ListItem?<T>, ghost from: nat, test: T --> bool) returns (found: ListItem?<T>, ghost at: nat)
      requires Valid() && if offset == null then from == 0 else offset == ItemAt(cells, from)
      requires forall i :: from <= i < |Contents()| ==> test.requires(Contents()[i])
      ensures found == null <==> forall i :: from <= i < |Contents()| ==> !test(Contents()[i])
      ensures found != null ==> from <= at < |Contents()| && found == ItemAt(cells, at) && test(Contents()[at]) && Nearest(test, from, at)
    {
      Place(from);
      at := 0;
      var begin := if offset != null then offset else head;
      var end := tail;
      ghost var lo, hi := from, count - 1;
      while begin != null
        invariant from <= lo <= count && lo + hi == from + count - 1
        invariant begin == ItemAt(cells, lo) && (lo < count ==> end == ItemAt(cells, hi))
        invariant Missed(test, from, lo, hi)
        decreases count - lo
      {
        Place(lo);
        Place(hi);
        if test(begin.data) {
          NearestEnd(test, from, lo, hi, lo);
          return begin, lo;
        }
        if test(end.data) {
          NearestEnd(test, from, lo, hi, hi);
          return end, hi;
        }
        begin := begin.next;
        if begin == end {
          SamePlace(lo + 1, hi);
          assert Missed(test, from, lo + 1, hi - 1);
          return null, 0;
        }
        end := end.prev;
        lo, hi := lo + 1, hi - 1;
      }
      Place(lo);
      return null, 0;
    }

    ghost function Matching(data: T): T -> bool {
      x => compare(x, data) == 0
    }

    /** _list_find: an item from `offset` on that matches, if there is one, and of several
        the one nearest to an end. */
    method Find(offset: ListItem?<T>, ghost from: nat, data: T) returns (found: ListItem?<T>, ghost at: nat)
      requires Valid() && if offset == null then from == 0 else offset == ItemAt(cells, from)
      ensures found == null <==> forall i :: from <= i < |Contents()| ==> compare(Contents()[i], data) != 0
      ensures found != null ==> found in items && compare(found.data, data) == 0
      ensures found != null ==> from <= at < |Contents()| && found == ItemAt(cells, at) && Nearest(Matching(data), from, at)
    {
      found, at := FindBy(offset, from, x => compare(x, data) == 0);
      Place(at);
    }

    /** list_contains */
    method Contains(data: T) returns (found: bool)
      requires Valid()
      ensures found <==> exists i :: 0 <= i < |Contents()| && compare(Contents()[i], data) == 0
    {
      var item;
      ghost var at;
      item, at := Find(null, 0, data);
      return item != null;
    }
  }

  /** The smallest case of that: 2 between 1 and 3. */
  method MiddleValueFaults() returns (list: List<int>, fault: bool)
    ensures fresh(list) && list.Valid() && list.Contents() == [1, 3] && fault
    ensures !list.AtAnEnd(list.Contents(), 2)
  {
    list := new List((a, b) => a - b);
    var item := list.Append(1);
    item := list.Append(3);
    item, fault := list.InsertSorted(2);
  }
}
