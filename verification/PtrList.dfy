/** A doubly linked list of pointers, rewired in place. */
module PtrList {

  class PtrListElement<T> {
    var prev: PtrListElement?<T>
    var next: PtrListElement?<T>
    var ptr: T

    constructor (ptr: T)
      ensures this.ptr == ptr && prev == null && next == null
    {
      this.ptr := ptr;
      prev, next := null, null;
    }
  }

  /** The sequence `s` with `x` put in at place `k`, and with place `k` taken out. */
  ghost function Inserted<T>(s: seq<T>, k: nat, x: T): (r: seq<T>)
    requires k <= |s|
    ensures |r| == |s| + 1 && r[k] == x
    ensures forall i {:trigger r[i]} :: 0 <= i < k ==> r[i] == s[i]
    ensures forall i {:trigger r[i]} :: k < i < |r| ==> r[i] == s[i - 1]
  {
    s[..k] + [x] + s[k..]
  }

  ghost function Without<T>(s: seq<T>, k: nat): (r: seq<T>)
    requires k < |s|
    ensures |r| == |s| - 1
    ensures forall i {:trigger r[i]} :: 0 <= i < |r| ==> r[i] == if i < k then s[i] else s[i + 1]
  {
    s[..k] + s[k + 1..]
  }

  class PtrList<T(==)> {
    var first: PtrListElement?<T>
    /** The elements in list order, and what they hold. */
    ghost var elements: seq<PtrListElement<T>>
    ghost var contents: seq<T>

    ghost predicate Linked()
      reads this, elements
    {
      && (first == if elements == [] then null else elements[0])
      && (elements != [] ==> elements[0].prev == null && elements[|elements| - 1].next == null)
      && (forall i {:trigger elements[i].prev} :: 0 < i < |elements| ==> elements[i].prev == elements[i - 1])
      && (forall i {:trigger elements[i].next} :: 0 <= i < |elements| - 1 ==> elements[i].next == elements[i + 1])
    }

    ghost predicate Valid()
      reads this, elements
    {
      && Linked()
      && (forall i, j :: 0 <= i < j < |elements| ==> elements[i] != elements[j])
      && |contents| == |elements|
      && (forall i {:trigger elements[i].ptr} :: 0 <= i < |elements| ==> elements[i].ptr == contents[i])
    }

    constructor ()
      ensures Valid() && elements == [] && contents == []
    {
      first := null;
      elements, contents := [], [];
    }

    function GetFirst(): PtrListElement?<T>
      reads this
    {
      first
    }

    static function GetNext(element: PtrListElement<T>): PtrListElement?<T>
      reads element
    {
      element.next
    }

    static function GetPtr(element: PtrListElement<T>): T
      reads element
    {
      element.ptr
    }

    method InsertBefore(after: PtrListElement<T>, ptr: T, ghost k: nat)
      requires Valid() && k < |elements| && elements[k] == after
      modifies this, elements
      ensures Valid()
      ensures |elements| == |old(elements)| + 1 && fresh(elements[k])
      ensures elements == Inserted(old(elements), k, elements[k])
      ensures contents == Inserted(old(contents), k, ptr)
    {
      var element := new PtrListElement(ptr);
      assert k > 0 ==> elements[k].prev == elements[k - 1] && elements[k] != elements[0];
      assert after == first <==> k == 0;
      if after == first {
        element.prev := null;
        element.next := after;
        first.prev := element;
        first := element;
      } else {
        element.prev := after.prev;
        element.next := after;
        if after.prev != null {
          after.prev.next := element;
        }
        after.prev := element;
      }
      elements := Inserted(elements, k, element);
      contents := Inserted(contents, k, ptr);
    }

    method InsertAfter(before: PtrListElement?<T>, ptr: T, ghost k: nat)
      requires Valid() && k <= |elements|
      requires if before == null then elements == [] else k > 0 && elements[k - 1] == before
      modifies this, elements
      ensures Valid()
      ensures |elements| == |old(elements)| + 1 && fresh(elements[k])
      ensures elements == Inserted(old(elements), k, elements[k])
      ensures contents == Inserted(old(contents), k, ptr)
    {
      var element := new PtrListElement(ptr);
      if before == null {
        element.prev := null;
        element.next := null;
        first := element;
      } else {
        assert k < |elements| ==> elements[k - 1].next == elements[k];
        element.prev := before;
        element.next := before.next;
        if before.next != null {
          before.next.prev := element;
        }
        before.next := element;
      }
      elements := Inserted(elements, k, element);
      contents := Inserted(contents, k, ptr);
    }

    method Remove(element: PtrListElement<T>, ghost k: nat)
      requires Valid() && k < |elements| && elements[k] == element
      modifies this, elements
      ensures Valid()
      ensures elements == Without(old(elements), k)
      ensures contents == Without(old(contents), k)
    {
      assert k > 0 ==> elements[k].prev == elements[k - 1];
      assert k + 1 < |elements| ==> elements[k].next == elements[k + 1];
      if element == first {
        first := element.next;
        if element.next != null {
          element.next.prev := null;
        }
      } else {
        element.prev.next := element.next;
        if element.next != null {
          element.next.prev := element.prev;
        }
      }
      elements := Without(elements, k);
      contents := Without(contents, k);
    }

    /** The first element that holds `ptr`, and its place. */
    method Find(ptr: T) returns (element: PtrListElement?<T>, ghost k: nat)
      requires Valid()
      ensures k <= |elements| && ptr !in contents[..k]
      ensures element == if k == |elements| then null else elements[k]
      ensures k < |elements| ==> contents[k] == ptr
    {
      element, k := first, 0;
      while element != null
        invariant k <= |elements|
        invariant element == if k == |elements| then null else elements[k]
        invariant ptr !in contents[..k]
        decreases |elements| - k
      {
        assert elements[k].ptr == contents[k];
        if element.ptr == ptr {
          return;
        }
        assert k + 1 < |elements| ==> elements[k].next == elements[k + 1];
        element, k := element.next, k + 1;
      }
    }
  }
}
