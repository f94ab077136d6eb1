/** slist.c: a singly-linked list with a tail pointer.  The source walks with a
    pointer to the link that leads to an item (`SListItem **ptr`); here that is the
    item before it, or null for the list's own link `head`.
 */
module SList {
  import opened Machine
  import opened MapSpec
  import opened Ordering
  import opened ListShape

  class SListItem<T> {
    var data: T
    var next: SListItem?<T>

    constructor (data: T)
      ensures this.data == data && next == null
    {
      this.data, next := data, null;
    }
  }

  type Rest<T> = Cells<SListItem<T>, T>

  type Walked<T> = Passed<SListItem<T>, T>

  /** Only an empty list has no last item. */
  lemma {:induction false} LastExists<T>(c: Rest<T>)
    ensures Last(c, null) == null <==> c.Nil?
  {
    if c.Cell? {
      LastExists(c.rest);
    }
  }

  /** From `link` on, the items are those of `c`. */
  ghost predicate Rep<T>(link: SListItem?<T>, c: Rest<T>)
    reads Items(c)
  {
    match c
    case Nil => link == null
    case Cell(n, v, rest) => link == n && n.data == v && Rep(n.next, rest)
  }

  /** From `head`, the items of `p` lead to a link that holds `hole`. */
  ghost predicate RepPassed<T>(head: SListItem?<T>, p: Walked<T>, hole: SListItem?<T>)
    reads PassedItems(p)
  {
    match p
    case Start => head == hole
    case Past(b, n, v) => n.data == v && n.next == hole && RepPassed(head, b, n)
  }

  lemma {:induction false} RepZip<T>(head: SListItem?<T>, p: Walked<T>, c: Rest<T>)
    ensures Items(Zip(p, c)) == PassedItems(p) + Items(c)
    ensures Rep(head, Zip(p, c)) <==> RepPassed(head, p, First(c, null)) && Rep(First(c, null), c)
    ensures Last(Zip(p, c), null) == if c.Nil? then Top(p, null) else Last(c, null)
  {
    ZipItems(p, c);
    if p.Past? {
      RepZip(head, p.before, Cell(p.item, p.value, c));
    } else {
      assert Rep(head, c) ==> head == First(c, null);
    }
  }

  class SList<T(!new)> {
    const compare: (T, T) -> int
    var head: SListItem?<T>
    var tail: SListItem?<T>
    var count: nat

    ghost var cells: Rest<T>
    ghost var items: set<SListItem<T>>

    /** The links from `head` lead through `cells`. */
    ghost predicate Sound()
      reads this`head, this`cells, this`items, items
    {
      Items(cells) == items && Distinct(cells) && Rep(head, cells)
    }

    /** `head`, `tail` and `count` describe the chain of items. */
    ghost predicate Valid()
      reads this, items
    {
      Sound() && tail == Last(cells, null) && count == |Values(cells)| <= SIZE_MAX
    }

    ghost function Contents(): seq<T>
      reads this`cells
    {
      Values(cells)
    }

    constructor (compare: (T, T) -> int)
      ensures Valid() && Contents() == [] && items == {} && this.compare == compare
    {
      this.compare, head, tail, count := compare, null, null, 0;
      cells, items := Nil, {};
    }

    /** The same, cut at the link behind `p`. */
    ghost predicate Cut(p: Walked<T>, c: Rest<T>)
      reads this`head, this`items, items
    {
      PassedItems(p) + Items(c) == items && Apart(p, c) && RepPassed(head, p, First(c, null)) && Rep(First(c, null), c)
    }

    lemma CutList(p: Walked<T>, c: Rest<T>)
      requires Sound() && cells == Zip(p, c)
      ensures Cut(p, c) && Last(cells, null) == if c.Nil? then Top(p, null) else Last(c, null)
      ensures Contents() == PassedValues(p) + Values(c)
    {
      RepZip(head, p, c);
      ZipItems(p, c);
      ZipValues(p, c);
    }

    ghost method JoinList(p: Walked<T>, c: Rest<T>)
      requires Cut(p, c)
      modifies this`cells
      ensures Sound() && cells == Zip(p, c) && Last(cells, null) == if c.Nil? then Top(p, null) else Last(c, null)
      ensures Contents() == PassedValues(p) + Values(c)
    {
      RepZip(head, p, c);
      ZipItems(p, c);
      ZipValues(p, c);
      cells := Zip(p, c);
    }

    /** `*ptr`, where `ptr` is the link behind `prev`. */
    function Link(prev: SListItem?<T>): SListItem?<T>
      reads this`head, prev
    {
      if prev == null then head else prev.next
    }

    /** `*ptr = to` */
    method SetLink(prev: SListItem?<T>, to: SListItem?<T>, ghost p: Walked<T>, ghost hole: SListItem?<T>)
      requires RepPassed(head, p, hole) && PassedDistinct(p) && prev == Top(p, null)
      modifies this`head, PassedItems(p)
      ensures RepPassed(head, p, to)
    {
      if prev == null {
        head := to;
      } else {
        prev.next := to;
      }
    }

    /** slist.c:204-205: a new item goes into the link behind `prev`. */
    method LinkIn(prev: SListItem?<T>, item: SListItem<T>, ghost p: Walked<T>, ghost c: Rest<T>)
      requires Sound() && cells == Zip(p, c) && prev == Top(p, null) && item !in items && c.Cell?
      modifies this`head, this`cells, this`items, items, item`next
      ensures Sound() && cells == Zip(p, Cell(item, item.data, c)) && items == old(items) + {item} && item.data == old(item.data)
      ensures Contents() == PassedValues(p) + ([item.data] + Values(c)) && Last(cells, null) == old(Last(cells, null))
    {
      CutList(p, c);
      item.next := Link(prev);
      SetLink(prev, item, p, First(c, null));
      items := items + {item};
      JoinList(p, Cell(item, item.data, c));
    }

    /** slist.c:144-151: `item` behind the last item, which `p` ends with. */
    method LinkLast(item: SListItem<T>, ghost p: Walked<T>)
      requires RepPassed(head, p, null) && PassedDistinct(p) && tail == Top(p, null) && item !in PassedItems(p)
      requires head == null <==> p.Start?
      modifies this`head, PassedItems(p)
      ensures RepPassed(head, p, item)
    {
      if head != null {
        tail.next := item;
      } else {
        head := item;
      }
    }

    /** slist.c:144-153: `item` behind all others. */
    method Behind(item: SListItem<T>)
      requires Sound() && tail == Last(cells, null) && item !in items && item.next == null
      modifies this`head, this`cells, this`items, items
      ensures Sound() && items == old(items) + {item} && item == Last(cells, null) && item.data == old(item.data)
      ensures Contents() == old(Contents()) + [item.data]
    {
      ghost var p := WalkAll(Start, cells);
      WalkAllZip(Start, cells);
      CutList(p, Nil);
      LinkLast(item, p);
      items := items + {item};
      JoinList(p, Cell(item, item.data, Nil));
    }

    /** slist_append */
    method Append(data: T) returns (item: SListItem?<T>)
      requires Valid()
      modifies this, items
      ensures Valid() && fresh(items - old(items)) && (item == null <==> old(count) == SIZE_MAX)
      ensures Contents() == old(Contents()) + if item == null then [] else [data]
      ensures item != null ==> fresh(item) && tail == item && item in items && item.data == data
    {
      item := null;
      if count < SIZE_MAX {
        item := new SListItem(data);
        Behind(item);
        tail := item;
        count := count + 1;
      }
    }

    /** slist_prepend */
    method Prepend(data: T) returns (item: SListItem?<T>)
      requires Valid()
      modifies this
      ensures Valid() && fresh(items - old(items)) && (item == null <==> old(count) == SIZE_MAX)
      ensures Contents() == (if item == null then [] else [data]) + old(Contents())
      ensures item != null ==> fresh(item) && head == item && item.data == data
    {
      item := null;
      if count < SIZE_MAX {
        LastExists(cells);
        item := new SListItem(data);
        if tail == null {
          tail := item;
        }
        item.next := head;
        head := item;
        count := count + 1;
        items := items + {item};
        cells := Cell(item, data, cells);
      }
    }

    /** The loop of slist.c:198-211: `item` goes before the first value that is not smaller. */
    method LinkSorted(item: SListItem<T>, data: T)
      requires Sound() && item !in items && item.data == data && EndsAbove(compare, cells, data)
      modifies this`head, this`cells, this`items, items, item`next
      ensures Sound() && items == old(items) + {item} && item.data == data
      ensures cells == Inserted(compare, old(cells), item, data) && Last(cells, null) == old(Last(cells, null))
    {
      ghost var all := cells;
      var prev: SListItem?<T>, inserted := null, false;
      ghost var p: Walked<T>, c := Start, cells;
      while Link(prev) != null && !inserted
        invariant Sound() && item.data == data && Last(cells, null) == old(Last(cells, null))
        invariant !inserted ==> prev == Top(p, null) && cells == Zip(p, c) == all && items == old(items) && EndsAbove(compare, c, data)
        invariant !inserted ==> Inserted(compare, all, item, data) == Zip(p, Inserted(compare, c, item, data))
        invariant inserted ==> cells == Inserted(compare, all, item, data) && items == old(items) + {item}
        decreases !inserted, c
      {
        CutList(p, c);
        var at := Link(prev);
        if compare(at.data, data) >= 0 {
          inserted := true;
          LinkIn(prev, item, p, c);
        } else {
          prev := at;
          p, c := Past(p, c.item, c.value), c.rest;
        }
      }
      if !inserted {
        CutList(p, c);
        assert false;
      }
    }

    /** _slist_prepend_new_sorted, for a value smaller than the last one. */
    method PrependNewSorted(data: T) returns (item: SListItem<T>, ghost k: nat)
      requires Valid() && count < SIZE_MAX && EndsAbove(compare, cells, data)
      modifies this, items
      ensures Valid() && fresh(items - old(items)) && cells == Inserted(compare, old(cells), item, data)
      ensures fresh(item) && item in items && item.data == data
      ensures SortedPlace(compare, old(Contents()), data, k)
      ensures Contents() == old(Contents()[..k]) + [data] + old(Contents()[k..])
    {
      item := new SListItem(data);
      k := InsertedPlace(compare, cells, item, data);
      LastAbove(compare, cells, data);
      LinkSorted(item, data);
      count := count + 1;
    }

    /** slist_insert_sorted: the value goes to its place, and every other stays where it was. */
    method InsertSorted(data: T) returns (item: SListItem?<T>, ghost k: nat)
      requires Valid()
      modifies this, items
      ensures Valid() && fresh(items - old(items)) && (item == null <==> old(count) == SIZE_MAX)
      ensures item == null ==> Contents() == old(Contents())
      ensures item != null ==> fresh(item) && item in items && item.data == data
      ensures item != null ==> SortedPlace(compare, old(Contents()), data, k)
      ensures item != null ==> Contents() == old(Contents()[..k]) + [data] + old(Contents()[k..])
    {
      item, k := null, |Contents()|;
      if count < SIZE_MAX {
        if count > 0 {
          LastValue();
          if compare(tail.data, data) <= 0 {
            item := Append(data);
          } else {
            LastAbove(compare, cells, data);
            item, k := PrependNewSorted(data);
          }
        } else {
          item := new SListItem(data);
          cells, items := Cell(item, data, Nil), items + {item};
          head, tail, count := item, item, 1;
        }
      }
    }

    lemma LastValue()
      requires Valid() && count > 0
      ensures tail in items && tail.data == Contents()[count - 1]
    {
      var p := WalkAll(Start, cells);
      WalkAllZip(Start, cells);
      CutList(p, Nil);
    }

    /** slist.c:270-278 and 304-314: the item behind `prev` leaves the list. */
    method Unlink(prev: SListItem?<T>, ghost p: Walked<T>, ghost c: Rest<T>)
      requires Valid() && cells == Zip(p, c) && c.Cell? && prev == Top(p, null)
      modifies this, items
      ensures Valid() && items == old(items) - {c.item} && cells == Zip(p, c.rest)
      ensures Contents() == PassedValues(p) + Values(c.rest)
    {
      CutList(p, c);
      var item := Link(prev);
      assert item == c.item && Rep(item.next, c.rest);
      var next := item.next;
      if next == null {
        tail := prev;
      }
      SetLink(prev, next, p, item);
      count := count - 1;
      items := items - {item};
      JoinList(p, c.rest);
    }

    /** slist_remove: exactly this item leaves the list, if it is there. */
    method Remove(item: SListItem<T>)
      requires Valid() && head != null
      modifies this, items
      ensures Valid() && items == old(items) - {item} && cells == WithoutItem(old(cells), item)
      ensures item !in old(items) ==> cells == old(cells)
      ensures forall p: Walked<T>, c: Rest<T> {:trigger Zip(p, c)} :: old(cells) == Zip(p, c) && c.Cell? && c.item == item ==>
                cells == Zip(p, c.rest) && Contents() == PassedValues(p) + Values(c.rest)
    {
      ghost var all := cells;
      var prev: SListItem?<T>, found := null, false;
      ghost var p: Walked<T>, c := Start, cells;
      while Link(prev) != null && !found
        invariant Valid()
        invariant !found ==> prev == Top(p, null) && item !in PassedItems(p) && cells == Zip(p, c) && items == old(items)
        invariant !found ==> WithoutItem(all, item) == Zip(p, WithoutItem(c, item))
        invariant found ==> cells == WithoutItem(all, item) && items == old(items) - {item}
        decreases !found, c
      {
        CutList(p, c);
        if Link(prev) == item {
          found := true;
          Unlink(prev, p, c);
        } else {
          prev := Link(prev);
          p, c := Past(p, c.item, c.value), c.rest;
        }
      }
      if !found {
        CutList(p, c);
      }
      RemovedItem(all, item);
    }

    /** What `WithoutItem` leaves. */
    lemma RemovedItem(all: Rest<T>, item: SListItem<T>)
      requires Distinct(all)
      ensures item !in Items(all) ==> WithoutItem(all, item) == all
      ensures forall p: Walked<T>, c: Rest<T> {:trigger Zip(p, c)} :: all == Zip(p, c) && c.Cell? && c.item == item ==>
                WithoutItem(all, item) == Zip(p, c.rest) && Values(Zip(p, c.rest)) == PassedValues(p) + Values(c.rest)
    {
      if item !in Items(all) {
        WithoutNoItem(all, item);
      }
      forall p: Walked<T>, c: Rest<T> {:trigger Zip(p, c)} | all == Zip(p, c) && c.Cell? && c.item == item
        ensures WithoutItem(all, item) == Zip(p, c.rest) && Values(Zip(p, c.rest)) == PassedValues(p) + Values(c.rest)
      {
        ZipItems(p, c);
        WithoutItemAt(p, c, item);
        ZipValues(p, c.rest);
      }
    }

    /** slist_remove_by_data: all values that match leave the list, or the first of them.
        Every other keeps its item and its order; `to` tells its new place. */
    method RemoveByData(data: T, removeAll: bool) returns (ghost to: seq<nat>)
      requires Valid()
      modifies this, items
      ensures Valid() && items <= old(items)
      ensures cells == if removeAll then WithoutAll(compare, old(cells), data) else WithoutFirst(compare, old(cells), data)
      ensures LeftOf(old(cells), cells, to)
      ensures if removeAll then LeavesOut(compare, old(cells), to, data) else LeavesFirstOut(compare, old(cells), to, data)
    {
      ghost var all := cells;
      var prev: SListItem?<T>, completed := null, false;
      ghost var p: Walked<T>, c := Start, cells;
      while Link(prev) != null && !completed
        invariant Valid() && prev == Top(p, null) && cells == Zip(p, c) && items <= old(items)
        invariant removeAll ==> !completed && WithoutAll(compare, all, data) == Zip(p, WithoutAll(compare, c, data))
        invariant !removeAll && !completed ==> WithoutFirst(compare, all, data) == Zip(p, WithoutFirst(compare, c, data))
        invariant completed ==> cells == WithoutFirst(compare, all, data)
        decreases !completed, c
      {
        CutList(p, c);
        var at := Link(prev);
        if compare(at.data, data) == 0 {
          completed := !removeAll;
          Unlink(prev, p, c);
          c := c.rest;
        } else {
          prev := at;
          p, c := Past(p, c.item, c.value), c.rest;
        }
      }
      CutList(p, c);
      to := PlacesLeft(compare, all, data, removeAll);
    }

    /** slist_pop: the first value. */
    method Pop() returns (data: Option<T>)
      requires Valid()
      modifies this
      ensures Valid() && items <= old(items)
      ensures match data
              case None => old(Contents()) == [] == Contents()
              case Some(v) => old(Contents()) == [v] + Contents()
    {
      data := None;
      var item := head;
      if item != null {
        LastExists(cells.rest);
        head := item.next;
        if head == null {
          tail := null;
        }
        data := Some(item.data);
        count := count - 1;
        items := items - {item};
        cells := cells.rest;
      }
    }

    /** stack_pop, which is queue_pop: the first value, or word that there is none. */
    method QueuePop() returns (success: bool, data: Option<T>)
      requires Valid()
      modifies this
      ensures Valid() && items <= old(items) && (success <==> old(Contents()) != []) && (success <==> data.Some?)
      ensures old(Contents()) == (if success then [data.value] else []) + Contents()
    {
      success, data := false, None;
      if count > 0 {
        data := Pop();
        success := true;
      }
    }
  }
}
