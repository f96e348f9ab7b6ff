/**
  The adapter's device list: kept sorted by the device comparator, a device
  that compares equal to one already listed replaces it in place, any other
  device is inserted where a binary search says it belongs.
 */
module Adapter {
  import opened Devices
  import opened Ordering

  /** Every listed device compares with `item`: the comparator never throws on them. */
  predicate AllComparable(items: seq<Device>, item: Device, resolve: Resolver)
  {
    forall i :: 0 <= i < |items| ==> Comparable(items[i], item, resolve)
  }

  /** Ascending order under the comparator, as Collections.binarySearch demands. */
  ghost predicate Sorted(items: seq<Device>, resolve: Resolver)
  {
    forall i, j :: 0 <= i < j < |items| ==>
      Comparable(items[i], items[j], resolve) && Compare(items[i], items[j], resolve) <= 0
  }

  /** Ascending order with no two comparator-equal devices. */
  ghost predicate StrictlySorted(items: seq<Device>, resolve: Resolver)
  {
    forall i, j :: 0 <= i < j < |items| ==>
      Comparable(items[i], items[j], resolve) && Compare(items[i], items[j], resolve) < 0
  }

  /**
    Collections.binarySearch over a list in ascending order: the index of a
    device that compares equal to `key`, or `-(p + 1)` where `p` is the
    position at which `key` would have to be inserted.
   */
  method BinarySearch(items: seq<Device>, key: Device, resolve: Resolver) returns (index: int)
    requires AllComparable(items, key, resolve)
    requires Sorted(items, resolve)
    ensures 0 <= index ==> index < |items| && Compare(items[index], key, resolve) == 0
    ensures index < 0 ==> -index - 1 <= |items|
    ensures index < 0 ==> forall k :: 0 <= k < -index - 1 ==> Compare(items[k], key, resolve) < 0
    ensures index < 0 ==> forall k :: -index - 1 <= k < |items| ==> Compare(items[k], key, resolve) > 0
  {
    var low, high := 0, |items| - 1;
    while low <= high
      invariant 0 <= low <= high + 1 <= |items|
      invariant forall k :: 0 <= k < low ==> Compare(items[k], key, resolve) < 0
      invariant forall k :: high < k < |items| ==> Compare(items[k], key, resolve) > 0
    {
      // the JDK computes `(low + high) >>> 1`, the same value for every list size Java allows
      var mid := (low + high) / 2;
      var cmp := Compare(items[mid], key, resolve);
      if cmp < 0 {
        forall k | low <= k <= mid
          ensures Compare(items[k], key, resolve) < 0
        {
          if k < mid {
            CompareTransitive(items[k], items[mid], key, resolve);
          }
        }
        low := mid + 1;
      } else if cmp > 0 {
        forall k | mid <= k <= high
          ensures Compare(items[k], key, resolve) > 0
        {
          if mid < k {
            CompareAntisymmetric(items[mid], key, resolve);
            CompareTransitive(key, items[mid], items[k], resolve);
            CompareAntisymmetric(key, items[k], resolve);
          }
        }
        high := mid - 1;
      } else {
        return mid;
      }
    }
    return -(low + 1);
  }

  /**
    The list after adding `item`, defined by a linear scan: the first device
    not below `item` is replaced when it compares equal, and otherwise `item`
    goes in front of it.
   */
  ghost function Insert(items: seq<Device>, item: Device, resolve: Resolver): seq<Device>
    requires AllComparable(items, item, resolve)
  {
    if items == [] then [item]
    else
      var c := Compare(items[0], item, resolve);
      if c < 0 then [items[0]] + Insert(items[1..], item, resolve)
      else if c == 0 then [item] + items[1..]
      else [item] + items
  }

  /** Where every device before `p` is below `item` and every one from `p` on above it, `item` goes in at `p`. */
  lemma {:induction false} InsertAtPosition(items: seq<Device>, item: Device, resolve: Resolver, p: nat)
    requires AllComparable(items, item, resolve)
    requires p <= |items|
    requires forall k :: 0 <= k < p ==> Compare(items[k], item, resolve) < 0
    requires forall k :: p <= k < |items| ==> Compare(items[k], item, resolve) > 0
    ensures Insert(items, item, resolve) == items[..p] + [item] + items[p..]
  {
    if items != [] && p > 0 {
      InsertAtPosition(items[1..], item, resolve, p - 1);
      assert items[..p] == [items[0]] + items[1..][..p - 1];
      assert items[p..] == items[1..][p - 1..];
    }
  }

  /** In a strictly sorted list, a device equal to `item` at `index` is what gets replaced. */
  lemma {:induction false} InsertReplaces(items: seq<Device>, item: Device, resolve: Resolver, index: nat)
    requires AllComparable(items, item, resolve)
    requires StrictlySorted(items, resolve)
    requires index < |items| && Compare(items[index], item, resolve) == 0
    ensures Insert(items, item, resolve) == items[index := item]
  {
    if index > 0 {
      CompareAntisymmetric(items[index], item, resolve);
      CompareTransitive(items[0], items[index], item, resolve);
      assert StrictlySorted(items[1..], resolve);
      InsertReplaces(items[1..], item, resolve, index - 1);
      assert items[index := item] == [items[0]] + items[1..][index - 1 := item];
    }
  }

  /** Every device of the new list is `item` or was listed before. */
  lemma {:induction false} InsertElements(items: seq<Device>, item: Device, resolve: Resolver)
    requires AllComparable(items, item, resolve)
    ensures forall x :: x in Insert(items, item, resolve) ==> x == item || x in items
  {
    if items != [] && Compare(items[0], item, resolve) < 0 {
      InsertElements(items[1..], item, resolve);
    }
  }

  /** `item` is in the list after it has been added. */
  lemma {:induction false} InsertContains(items: seq<Device>, item: Device, resolve: Resolver)
    requires AllComparable(items, item, resolve)
    ensures item in Insert(items, item, resolve)
  {
    if items != [] && Compare(items[0], item, resolve) < 0 {
      InsertContains(items[1..], item, resolve);
    }
  }

  /** Adding keeps a strictly sorted list strictly sorted. */
  lemma {:induction false} InsertSorted(items: seq<Device>, item: Device, resolve: Resolver)
    requires AllComparable(items, item, resolve)
    requires StrictlySorted(items, resolve)
    ensures StrictlySorted(Insert(items, item, resolve), resolve)
  {
    if items == [] {
      return;
    }
    var r := Insert(items, item, resolve);
    var c := Compare(items[0], item, resolve);
    if c < 0 {
      var tail := Insert(items[1..], item, resolve);
      InsertSorted(items[1..], item, resolve);
      InsertElements(items[1..], item, resolve);
      forall j | 0 <= j < |tail|
        ensures Comparable(items[0], tail[j], resolve) && Compare(items[0], tail[j], resolve) < 0
      {
        assert tail[j] in tail;
      }
    } else {
      CompareAntisymmetric(items[0], item, resolve);
      forall j | 0 <= j < |items|
        ensures Comparable(item, items[j], resolve) && Compare(item, items[j], resolve) <= 0
        ensures 0 < j || c > 0 ==> Compare(item, items[j], resolve) < 0
      {
        if 0 < j {
          CompareTransitive(item, items[0], items[j], resolve);
        }
      }
    }
  }

  /** The size stays when an equal device was listed and grows by one otherwise. */
  lemma {:induction false} InsertLength(items: seq<Device>, item: Device, resolve: Resolver)
    requires AllComparable(items, item, resolve)
    requires StrictlySorted(items, resolve)
    ensures (exists k :: 0 <= k < |items| && Compare(items[k], item, resolve) == 0) ==>
      |Insert(items, item, resolve)| == |items|
    ensures (forall k :: 0 <= k < |items| ==> Compare(items[k], item, resolve) != 0) ==>
      |Insert(items, item, resolve)| == |items| + 1
  {
    if exists k :: 0 <= k < |items| && Compare(items[k], item, resolve) == 0 {
      var k :| 0 <= k < |items| && Compare(items[k], item, resolve) == 0;
      InsertReplaces(items, item, resolve, k);
    } else if items != [] && Compare(items[0], item, resolve) < 0 {
      assert StrictlySorted(items[1..], resolve);
      InsertLength(items[1..], item, resolve);
    }
  }

  /**
    Adding a device equal to one just added leaves exactly one of the two,
    the later one, and the size unchanged.
   */
  lemma MergeOnDuplicate(items: seq<Device>, first: Device, second: Device, resolve: Resolver)
    requires StrictlySorted(items, resolve)
    requires AllComparable(items, first, resolve) && Comparable(first, second, resolve)
    requires Compare(first, second, resolve) == 0
    ensures AllComparable(Insert(items, first, resolve), second, resolve)
    ensures |Insert(Insert(items, first, resolve), second, resolve)| == |Insert(items, first, resolve)|
    ensures second in Insert(Insert(items, first, resolve), second, resolve)
    ensures first != second ==> first !in Insert(Insert(items, first, resolve), second, resolve)
  {
    var once := Insert(items, first, resolve);
    InsertElements(items, first, resolve);
    InsertContains(items, first, resolve);
    InsertSorted(items, first, resolve);
    forall i | 0 <= i < |once|
      ensures Comparable(once[i], second, resolve)
    {
      assert once[i] in once;
    }
    var k :| 0 <= k < |once| && once[k] == first;
    InsertReplaces(once, second, resolve, k);
    InsertLength(once, second, resolve);
    InsertContains(once, second, resolve);
    var twice := once[k := second];
    forall i | 0 <= i < |twice| && i != k
      ensures twice[i] != first
    {
      CompareReflexive(first, resolve);
      if i < k {
        assert Compare(once[i], once[k], resolve) < 0;
      } else {
        assert Compare(once[k], once[i], resolve) < 0;
      }
    }
  }

  /** The adapter's state: its device list and the host resolution the comparator sees. */
  class DeviceAdapter {
    const resolve: Resolver
    var items: seq<Device>

    ghost predicate Valid()
      reads this
    {
      StrictlySorted(items, resolve)
    }

    constructor (resolve: Resolver)
      ensures Valid() && this.resolve == resolve && items == []
    {
      this.resolve := resolve;
      items := [];
    }

    function GetItemCount(): (count: nat)
      reads this
      ensures count == |items|
    {
      |items|
    }

    /** ArrayList.get: the position must be in range. */
    function GetItem(position: int): (d: Device)
      reads this
      requires 0 <= position < |items|
      ensures d == items[position]
    {
      items[position]
    }

    method Clear()
      modifies this`items
      ensures Valid() && items == [] && GetItemCount() == 0
    {
      items := [];
    }

    /** Adds `item`, replacing a listed device that compares equal to it. */
    method AddItem(item: Device)
      requires Valid()
      requires AllComparable(items, item, resolve)
      modifies this`items
      ensures Valid()
      ensures items == Insert(old(items), item, resolve)
      ensures item in items
    {
      var index := BinarySearch(items, item, resolve);
      ghost var before := items;
      if index < 0 {
        var position := -index - 1;
        items := items[..position] + [item] + items[position..];
        InsertAtPosition(before, item, resolve, position);
      } else {
        items := items[index := item];
        InsertReplaces(before, item, resolve, index);
      }
      InsertSorted(before, item, resolve);
      InsertContains(before, item, resolve);
    }
  }
}
