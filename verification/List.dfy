/** threads/list.h: a singly linked list with pointers to its first and last element, optionally kept sorted by key. */
module Lists {

  class ListElement<T> {
    var next: ListElement?<T>
    const key: int
    const item: T

    constructor (item: T, key: int)
      ensures this.item == item && this.key == key && next == null
    {
      this.item := item;
      this.key := key;
      next := null;
    }
  }

  // ---- where SortedInsert puts things ----

  /** Before the first larger key. */
  function InsertAt(keys: seq<int>, key: int): (k: nat)
    ensures k <= |keys|
    ensures forall i :: 0 <= i < k ==> keys[i] <= key
    ensures k < |keys| ==> key < keys[k]
  {
    if keys == [] || key < keys[0] then 0 else 1 + InsertAt(keys[1..], key)
  }

  lemma InsertAtIs(keys: seq<int>, key: int, k: nat)
    requires k <= |keys| && (forall i :: 0 <= i < k ==> keys[i] <= key) && (k < |keys| ==> key < keys[k])
    ensures InsertAt(keys, key) == k
  {
  }

  function Spliced<T>(s: seq<T>, k: nat, x: T): (r: seq<T>)
    requires k <= |s|
    ensures |r| == |s| + 1
  {
    s[..k] + [x] + s[k..]
  }

  lemma SplicedAt<T>(s: seq<T>, k: nat, x: T, i: int)
    requires k <= |s| && 0 <= i < |s| + 1
    ensures Spliced(s, k, x)[i] == if i < k then s[i] else if i == k then x else s[i - 1]
  {
  }

  /** Nothing is lost and nothing else is added. */
  lemma SplicedBag<T>(s: seq<T>, k: nat, x: T)
    requires k <= |s|
    ensures multiset(Spliced(s, k, x)) == multiset(s) + multiset{x}
  {
    assert s == s[..k] + s[k..];
  }

  ghost predicate Sorted(keys: seq<int>) {
    forall i, j :: 0 <= i < j < |keys| ==> keys[i] <= keys[j]
  }

  /** Inserting into a sorted list keeps it sorted and puts the new key after every equal one. */
  lemma InsertKeepsSorted(keys: seq<int>, key: int)
    requires Sorted(keys)
    ensures Sorted(Spliced(keys, InsertAt(keys, key), key))
    ensures forall i :: 0 <= i < |keys| ==> (keys[i] <= key <==> i < InsertAt(keys, key))
  {
    hide InsertAt, Spliced;
    var k := InsertAt(keys, key);
    var r := Spliced(keys, k, key);
    forall i | k <= i < |keys|
      ensures key < keys[i]
    {
      assert keys[k] <= keys[i];
    }
    forall i, j | 0 <= i < j < |r|
      ensures r[i] <= r[j]
    {
      SplicedAt(keys, k, key, i);
      SplicedAt(keys, k, key, j);
    }
  }

  // ---- the list ----

  function KeysOf<T>(nodes: seq<ListElement<T>>): (s: seq<int>)
    ensures |s| == |nodes|
  {
    seq(|nodes|, i requires 0 <= i < |nodes| => nodes[i].key)
  }

  function ItemsOf<T>(nodes: seq<ListElement<T>>): (s: seq<T>)
    ensures |s| == |nodes|
  {
    seq(|nodes|, i requires 0 <= i < |nodes| => nodes[i].item)
  }

  lemma SplicedNodes<T>(nodes: seq<ListElement<T>>, e: ListElement<T>, k: nat)
    requires k <= |nodes| && (forall i :: 0 <= i < k ==> nodes[i].key <= e.key)
             && (k < |nodes| ==> e.key < nodes[k].key)
    ensures InsertAt(KeysOf(nodes), e.key) == k
    ensures KeysOf(Spliced(nodes, k, e)) == Spliced(KeysOf(nodes), k, e.key)
    ensures ItemsOf(Spliced(nodes, k, e)) == Spliced(ItemsOf(nodes), k, e.item)
    ensures k == 0 ==> Spliced(nodes, k, e) == [e] + nodes
    ensures k == |nodes| ==> Spliced(nodes, k, e) == nodes + [e]
  {
    InsertAtIs(KeysOf(nodes), e.key, k);
  }

  class List<T> {
    var first: ListElement?<T>
    var last: ListElement?<T>
    ghost var nodes: seq<ListElement<T>>

    /** `nodes` is the chain from first to last: linked in order, ending in null, no element twice. */
    ghost predicate Valid()
      reads this, nodes
    {
      && (forall i, j :: 0 <= i < j < |nodes| ==> nodes[i] != nodes[j])
      && (forall i, j :: 0 <= i < j < |nodes| && j == i + 1 ==> nodes[i].next == nodes[j])
      && (if nodes == [] then first == null && last == null
          else first == nodes[0] && last == nodes[|nodes| - 1] && last.next == null)
    }

    ghost function Elements(): set<object>
      reads this
    {
      set e | e in nodes
    }

    ghost function Keys(): seq<int>
      reads this
    {
      KeysOf(nodes)
    }

    ghost function Items(): seq<T>
      reads this
    {
      ItemsOf(nodes)
    }

    constructor ()
      ensures Valid() && nodes == [] && Keys() == [] && Items() == []
    {
      first, last := null, null;
      nodes := [];
    }

    predicate IsEmpty()
      requires Valid()
      reads this, nodes
      ensures IsEmpty() <==> nodes == []
    {
      first == null
    }

    /** Where an operation on an empty list and one at the front agree: the element becomes the first. */
    method LinkFirst(element: ListElement<T>)
      requires Valid() && element !in nodes && element.next == null
      modifies this, element
      ensures Valid() && nodes == [element] + old(nodes)
    {
      if IsEmpty() {
        first := element;
        last := element;
      } else {
        element.next := first;
        first := element;
      }
      nodes := [element] + nodes;
    }

    method LinkLast(element: ListElement<T>)
      requires Valid() && element !in nodes && element.next == null
      modifies this, Elements()
      ensures Valid() && nodes == old(nodes) + [element]
    {
      if IsEmpty() {
        first := element;
        last := element;
      } else {
        last.next := element;
        last := element;
      }
      nodes := nodes + [element];
    }

    /** Link `element` between ptr and its successor. */
    method LinkAfter(ptr: ListElement<T>, element: ListElement<T>, ghost i: nat)
      requires Valid() && i + 1 < |nodes| && nodes[i] == ptr && element !in nodes
      modifies this`nodes, ptr`next, element`next
      ensures Valid() && nodes == Spliced(old(nodes), i + 1, element)
    {
      element.next := ptr.next;
      ptr.next := element;
      nodes := nodes[..i + 1] + [element] + nodes[i + 1..];
    }

    method Append(item: T)
      requires Valid()
      modifies this, Elements()
      ensures Valid() && Items() == old(Items()) + [item] && Keys() == old(Keys()) + [0]
      ensures fresh(Elements() - old(Elements()))
    {
      var element := new ListElement(item, 0);
      LinkLast(element);
    }

    method Prepend(item: T)
      requires Valid()
      modifies this
      ensures Valid() && Items() == [item] + old(Items()) && Keys() == [0] + old(Keys())
      ensures fresh(Elements() - old(Elements()))
    {
      var element := new ListElement(item, 0);
      LinkFirst(element);
    }

    method SortedInsert(item: T, sortKey: int)
      requires Valid()
      modifies this, Elements()
      ensures Valid()
      ensures var k := InsertAt(old(Keys()), sortKey);
              Keys() == Spliced(old(Keys()), k, sortKey) && Items() == Spliced(old(Items()), k, item)
      ensures fresh(Elements() - old(Elements()))
    {
      hide KeysOf, ItemsOf, Spliced;
      var element := new ListElement(item, sortKey);
      ghost var was := nodes;
      if IsEmpty() || sortKey < first.key {
        SplicedNodes(was, element, 0);
        LinkFirst(element);
      } else {
        var ptr, i := LastNotAbove(sortKey);
        SplicedNodes(was, element, i + 1);
        if ptr.next != null {
          LinkAfter(ptr, element, i);
        } else {
          LinkLast(element);
        }
      }
      assert forall e :: e in nodes ==> e in was || e == element by { SplicedMembers(was, nodes, element); }
    }

    /** The walk of SortedInsert: the element after which the first larger key, or nothing, comes. */
    method LastNotAbove(sortKey: int) returns (ptr: ListElement<T>, ghost i: nat)
      requires Valid() && nodes != [] && nodes[0].key <= sortKey
      ensures i < |nodes| && ptr == nodes[i]
      ensures forall j :: 0 <= j <= i ==> nodes[j].key <= sortKey
      ensures if i + 1 < |nodes| then ptr.next == nodes[i + 1] && sortKey < nodes[i + 1].key else ptr.next == null
    {
      ptr, i := first, 0;
      while ptr.next != null
        invariant 0 <= i < |nodes| && ptr == nodes[i]
        invariant forall j :: 0 <= j <= i ==> nodes[j].key <= sortKey
        invariant i + 1 < |nodes| ==> ptr.next == nodes[i + 1]
        decreases |nodes| - i
      {
        if sortKey < ptr.next.key {
          return;
        }
        ptr := ptr.next;
        i := i + 1;
        assert i + 1 < |nodes| ==> nodes[i].next == nodes[i + 1];
      }
    }

    /** The head comes off, with its key; nothing is taken from an empty list.  Remove is this without the key. */
    method SortedRemove() returns (taken: seq<T>, key: int)
      requires Valid()
      modifies this
      ensures Valid()
      ensures if old(nodes) == [] then taken == [] && nodes == []
              else taken == [old(Items())[0]] && key == old(Keys())[0] && nodes == old(nodes)[1..]
                   && Items() == old(Items())[1..] && Keys() == old(Keys())[1..]
    {
      if IsEmpty() {
        return [], 0;
      }
      var element := first;
      taken, key := [element.item], element.key;
      if first == last {
        first := null;
        last := null;
      } else {
        first := element.next;
      }
      nodes := nodes[1..];
    }
  }

  lemma SplicedMembers<T>(was: seq<ListElement<T>>, now: seq<ListElement<T>>, e: ListElement<T>)
    requires now == [e] + was || now == was + [e] || exists k: nat :: k <= |was| && now == Spliced(was, k, e)
    ensures forall x :: x in now ==> x in was || x == e
  {
  }
}
