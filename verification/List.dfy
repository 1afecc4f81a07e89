/**
 The singly linked list of threads/list.cc, refining a sequence of items with keys.
 */
module ListSpec {

  // An item and its sort key. NULL is item 0.
  datatype Entry<T> = Entry(item: T, key: int)

  const NULL := 0

  ghost predicate Sorted<T>(s: seq<Entry<T>>)
  {
    |s| <= 1 || (s[0].key <= s[1].key && Sorted(s[1..]))
  }

  lemma {:induction false} SortedMeans<T>(s: seq<Entry<T>>)
    ensures Sorted(s) <==> forall i, j | 0 <= i < j < |s| :: s[i].key <= s[j].key
  {
    if |s| > 1 {
      SortedMeans(s[1..]);
      assert forall i | 1 <= i < |s| :: s[i] == s[1..][i - 1];
    }
  }

  // The list with a new entry, which goes before the first with a greater key.
  function Inserted<T>(s: seq<Entry<T>>, e: Entry<T>): (r: seq<Entry<T>>)
  {
    if s == [] || e.key < s[0].key then [e] + s else [s[0]] + Inserted(s[1..], e)
  }

  lemma {:induction false} InsertedAt<T>(s: seq<Entry<T>>, e: Entry<T>, i: nat)
    requires i <= |s| && (forall j | 0 <= j < i :: s[j].key <= e.key) && (i < |s| ==> e.key < s[i].key)
    ensures Inserted(s, e) == s[..i] + [e] + s[i..]
  {
    if i > 0 {
      InsertedAt(s[1..], e, i - 1);
    }
  }

  lemma {:induction false} InsertedAdds<T>(s: seq<Entry<T>>, e: Entry<T>)
    ensures multiset(Inserted(s, e)) == multiset(s) + multiset{e}
  {
    if s != [] && s[0].key <= e.key {
      InsertedAdds(s[1..], e);
      assert s == [s[0]] + s[1..];
    }
  }

  lemma {:induction false} InsertedInOrder<T>(s: seq<Entry<T>>, e: Entry<T>)
    requires Sorted(s)
    ensures Sorted(Inserted(s, e)) && Inserted(s, e) != []
    ensures Inserted(s, e)[0].key == if s != [] && s[0].key <= e.key then s[0].key else e.key
  {
    if s != [] && s[0].key <= e.key {
      InsertedInOrder(s[1..], e);
    }
  }

  // A sorted list stays sorted, and gains just the new entry.
  lemma InsertedSorted<T>(s: seq<Entry<T>>, e: Entry<T>)
    requires Sorted(s)
    ensures Sorted(Inserted(s, e)) && multiset(Inserted(s, e)) == multiset(s) + multiset{e}
    ensures Inserted(s, e) != [] && Inserted(s, e)[0].key == if s != [] && s[0].key <= e.key then s[0].key else e.key
  {
    InsertedInOrder(s, e);
    InsertedAdds(s, e);
  }

  // The new entry comes after all those with its key, and the others keep their order.
  lemma {:induction false} InsertedLast<T>(s: seq<Entry<T>>, e: Entry<T>) returns (i: nat)
    requires Sorted(s)
    ensures i <= |s| && Inserted(s, e) == s[..i] + [e] + s[i..]
    ensures (forall j | 0 <= j < i :: s[j].key <= e.key) && forall j | i <= j < |s| :: s[j].key > e.key
  {
    i := 0;
    if s != [] && s[0].key <= e.key {
      var k := InsertedLast(s[1..], e);
      i := k + 1;
    } else {
      SortedMeans(s);
    }
  }

  lemma {:induction false} InsertedMembers<T>(s: seq<Entry<T>>, e: Entry<T>)
    ensures forall x :: x in Inserted(s, e) <==> x in s || x == e
  {
    if s != [] && s[0].key <= e.key {
      InsertedMembers(s[1..], e);
      assert s == [s[0]] + s[1..];
    }
  }

  // The first entry of a sorted list has a least key.
  lemma FirstIsLeast<T>(s: seq<Entry<T>>)
    requires Sorted(s) && s != []
    ensures forall e <- s :: s[0].key <= e.key
    ensures Sorted(s[1..])
  {
    SortedMeans(s);
  }

  // The index of the first entry with an item; |s| if there is none.
  function IndexOf<T(==)>(s: seq<Entry<T>>, item: T): (i: nat)
    ensures i <= |s| && (i < |s| ==> s[i].item == item) && forall j | 0 <= j < i :: s[j].item != item
  {
    if s == [] || s[0].item == item then 0 else 1 + IndexOf(s[1..], item)
  }

  function Without<T>(s: seq<Entry<T>>, i: nat): seq<Entry<T>>
    requires i < |s|
  {
    s[..i] + s[i + 1..]
  }

  lemma WithoutSorted<T>(s: seq<Entry<T>>, i: nat)
    requires Sorted(s) && i < |s|
    ensures Sorted(Without(s, i)) && multiset(Without(s, i)) == multiset(s) - multiset{s[i]}
  {
    WithoutOne(s, i);
    SortedWithout(s, i);
  }

  lemma WithoutOne<T>(s: seq<Entry<T>>, i: nat)
    requires i < |s|
    ensures multiset(Without(s, i)) == multiset(s) - multiset{s[i]}
  {
    assert s == s[..i] + [s[i]] + s[i + 1..];
  }

  lemma {:induction false} SortedWithout<T>(s: seq<Entry<T>>, i: nat)
    requires Sorted(s) && i < |s|
    ensures Sorted(Without(s, i))
  {
    if i == 0 {
      assert Without(s, i) == s[1..];
    } else {
      SortedWithout(s[1..], i - 1);
      assert Without(s, i) == [s[0]] + Without(s[1..], i - 1);
      assert i == 1 && |s| > 2 ==> s[1..][0].key <= s[1..][1].key;
    }
  }
}

module Lists {
  import opened ListSpec

  class ListElement {
    var next: ListElement?
    const key: int
    const item: int

    constructor (itemPtr: int, sortKey: int)
      ensures item == itemPtr && key == sortKey && next == null
    {
      item, key, next := itemPtr, sortKey, null;
    }
  }

  ghost function EntriesOf(spine: seq<ListElement>): (s: seq<Entry<int>>)
    ensures |s| == |spine|
    ensures forall i | 0 <= i < |s| :: s[i] == Entry(spine[i].item, spine[i].key)
  {
    seq(|spine|, i requires 0 <= i < |spine| => Entry(spine[i].item, spine[i].key))
  }

  lemma EntriesInserted(spine: seq<ListElement>, i: nat, element: ListElement)
    requires i <= |spine|
    ensures EntriesOf(spine[..i] + [element] + spine[i..]) ==
            EntriesOf(spine)[..i] + [Entry(element.item, element.key)] + EntriesOf(spine)[i..]
  {
  }

  class List {
    var first: ListElement?
    var last: ListElement?
    var numInList: int
    ghost var spine: seq<ListElement>

    ghost predicate Valid()
      reads this, spine
    {
      && numInList == |spine|
      && (forall i, j | 0 <= i < j < |spine| :: spine[i] != spine[j])
      && first == (if spine == [] then null else spine[0])
      && last == (if spine == [] then null else spine[|spine| - 1])
      && (forall i | 0 <= i < |spine| - 1 :: spine[i].next == spine[i + 1])
      && (last != null ==> last.next == null)
    }

    ghost function Contents(): (s: seq<Entry<int>>)
      reads this
    {
      EntriesOf(spine)
    }

    constructor ()
      ensures Valid() && Contents() == [] && spine == []
    {
      first, last, numInList, spine := null, null, 0, [];
    }

    method IsEmpty() returns (empty: bool)
      requires Valid()
      ensures empty <==> Contents() == []
    {
      empty := first == null;
    }

    // The only element of a list that was empty.
    method LinkOnly(element: ListElement)
      requires Valid() && first == null && element.next == null
      modifies this
      ensures Valid() && spine == [element]
    {
      first := element;
      last := element;
      numInList := numInList + 1;
      spine := [element];
    }

    method LinkFirst(element: ListElement)
      requires Valid() && first != null && element !in spine
      modifies this, element
      ensures Valid() && spine == [element] + old(spine)
    {
      element.next := first;
      first := element;
      numInList := numInList + 1;
      spine := [element] + spine;
      forall i | 0 <= i < |spine| - 1
        ensures spine[i].next == spine[i + 1]
      {
        if i > 0 { assert spine[i] == old(spine)[i - 1]; }
      }
    }

    method LinkLast(element: ListElement)
      requires Valid() && first != null && element !in spine && element.next == null
      modifies this, last
      ensures Valid() && spine == old(spine) + [element]
      ensures forall e <- spine :: e in old(spine) || e == element
    {
      last.next := element;
      last := element;
      numInList := numInList + 1;
      ghost var n := |spine|;
      spine := spine + [element];
      assert forall i | 0 <= i < n :: spine[i] == old(spine)[i];
    }

    method Append(item: int)
      requires Valid()
      modifies this, spine
      ensures Valid() && Contents() == old(Contents()) + [Entry(item, 0)]
      ensures forall e <- spine :: e in old(spine) || fresh(e)
    {
      var element := new ListElement(item, 0);
      if first == null {
        LinkOnly(element);
      } else {
        LinkLast(element);
      }
    }

    method Prepend(item: int)
      requires Valid()
      modifies this, spine
      ensures Valid() && Contents() == [Entry(item, 0)] + old(Contents())
      ensures forall e <- spine :: e in old(spine) || fresh(e)
    {
      var element := new ListElement(item, 0);
      if first == null {
        LinkOnly(element);
      } else {
        LinkFirst(element);
      }
    }

    // Removes the first entry; NULL if there is none.
    method SortedRemove() returns (item: int, key: int)
      requires Valid()
      modifies this
      ensures Valid() && forall e <- spine :: e in old(spine)
      ensures old(Contents()) == [] ==> item == NULL && Contents() == []
      ensures old(Contents()) != [] ==> Entry(item, key) == old(Contents())[0] && Contents() == old(Contents())[1..]
    {
      var element := first;
      if first == null {
        return NULL, 0;
      }
      if first == last {
        first := null;
        last := null;
        assert |spine| == 1;
      } else {
        first := element.next;
      }
      numInList := numInList - 1;
      spine := spine[1..];
      forall i | 0 <= i < |spine| - 1
        ensures spine[i].next == spine[i + 1]
      {
        assert spine[i] == old(spine)[i + 1];
      }
      return element.item, element.key;
    }

    method Remove() returns (item: int)
      requires Valid()
      modifies this
      ensures Valid() && forall e <- spine :: e in old(spine)
      ensures old(Contents()) == [] ==> item == NULL && Contents() == []
      ensures old(Contents()) != [] ==> item == old(Contents())[0].item && Contents() == old(Contents())[1..]
    {
      var key;
      item, key := SortedRemove();
    }

    // Links a new element in after position i.
    method LinkAfter(ptr: ListElement, element: ListElement, ghost i: nat)
      requires Valid() && i + 1 < |spine| && spine[i] == ptr && element !in spine
      modifies ptr, element, this
      ensures Valid() && spine == old(spine)[..i + 1] + [element] + old(spine)[i + 1..]
      ensures forall e <- spine :: e in old(spine) || e == element
    {
      element.next := ptr.next;
      ptr.next := element;
      numInList := numInList + 1;
      spine := spine[..i + 1] + [element] + spine[i + 1..];
      forall j | 0 <= j < |spine| - 1
        ensures spine[j].next == spine[j + 1]
      {
        if j <= i {
          assert spine[j] == old(spine)[j];
        } else if j > i + 1 {
          assert spine[j] == old(spine)[j - 1];
        }
      }
    }

    method SortedInsert(item: int, sortKey: int)
      requires Valid()
      modifies this, spine
      ensures Valid() && Contents() == Inserted(old(Contents()), Entry(item, sortKey))
      ensures forall e <- spine :: e in old(spine) || fresh(e)
    {
      var element := new ListElement(item, sortKey);
      if first == null {
        LinkOnly(element);
      } else if sortKey < first.key {
        LinkFirst(element);
      } else {
        InsertLater(element);
      }
    }

    // The walk of SortedInsert, for an element that does not go first.
    method InsertLater(element: ListElement)
      requires Valid() && first != null && first.key <= element.key && element !in spine && element.next == null
      modifies this, spine, element
      ensures Valid() && Contents() == Inserted(old(Contents()), Entry(element.item, element.key))
      ensures forall e <- spine :: e in old(spine) || e == element
    {
      ghost var s := Contents();
      var ptr := first;
      ghost var i := 0;
      while ptr.next != null && ptr.next.key <= element.key
        invariant Valid() && spine == old(spine) && i < |spine| && ptr == spine[i] && element.next == null
        invariant forall j | 0 <= j <= i :: s[j].key <= element.key
        decreases |spine| - i
      {
        ptr := ptr.next;
        i := i + 1;
      }
      assert i < |spine| - 1 ==> spine[i].next == spine[i + 1];
      InsertedAt(s, Entry(element.item, element.key), i + 1);
      EntriesInserted(spine, i + 1, element);
      if ptr.next != null {
        LinkAfter(ptr, element, i);
      } else {
        LinkLast(element);
      }
      assert spine == old(spine)[..i + 1] + [element] + old(spine)[i + 1..];
    }

    // Unlinks the element after position i.
    method UnlinkAfter(prev: ListElement, ptr: ListElement, ghost i: nat)
      requires Valid() && i + 1 < |spine| && spine[i] == prev && spine[i + 1] == ptr
      modifies prev, this
      ensures Valid() && spine == old(spine)[..i + 1] + old(spine)[i + 2..]
    {
      ghost var s := spine;
      assert i + 2 < |s| ==> ptr.next == s[i + 2];
      prev.next := ptr.next;
      numInList := numInList - 1;
      if prev.next == null {
        last := prev;
      }
      spine := spine[..i + 1] + spine[i + 2..];
      forall j | 0 <= j < |spine| - 1
        ensures spine[j].next == spine[j + 1]
      {
        if j <= i { assert spine[j] == s[j]; } else { assert spine[j] == s[j + 1]; }
      }
    }

    // Removes the first entry with that item, which must be there.
    method RemoveItem(item: int)
      requires Valid() && IndexOf(Contents(), item) < |Contents()|
      modifies this, spine
      ensures Valid() && Contents() == Without(old(Contents()), IndexOf(old(Contents()), item))
      ensures forall e <- spine :: e in old(spine)
    {
      if item == first.item {
        ItemPosition(Contents(), item, 0);
        var removed := Remove();
      } else {
        RemoveLater(item);
      }
    }

    // The walk of Remove, for an item that is not first.
    method RemoveLater(item: int)
      requires Valid() && IndexOf(Contents(), item) < |Contents()| && first.item != item
      modifies this, spine
      ensures Valid() && Contents() == Without(old(Contents()), IndexOf(old(Contents()), item))
      ensures forall e <- spine :: e in old(spine)
    {
      ghost var s := Contents();
      var prev := first;
      var ptr := first.next;
      ghost var i := 0;
      while ptr != null && item != ptr.item
        invariant Valid() && spine == old(spine) && i < |spine| && prev == spine[i] && ptr == prev.next
        invariant forall j | 0 <= j <= i :: s[j].item != item
        decreases |spine| - i
      {
        prev := ptr;
        ptr := ptr.next;
        i := i + 1;
      }
      // The item was found.
      assert i < |spine| - 1 ==> spine[i].next == spine[i + 1];
      assert ptr != null;
      ItemPosition(s, item, i + 1);
      UnlinkAfter(prev, ptr, i);
    }
  }

  lemma ItemPosition(s: seq<Entry<int>>, item: int, i: nat)
    requires i < |s| && s[i].item == item && forall j | 0 <= j < i :: s[j].item != item
    ensures IndexOf(s, item) == i
  {
  }
}
