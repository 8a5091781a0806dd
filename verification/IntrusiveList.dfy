/** The circular doubly linked list whose links live inside the listed structures. */
module IntrusiveList {

  /** A structure with a listnode inside: the links, and the rest of the structure. */
  class ListNode<T> {
    var next: ListNode?<T>
    var prev: ListNode?<T>
    var item: T

    /** list_init on a new structure. */
    constructor (item: T)
      ensures next == this && prev == this && this.item == item
    {
      next := this;
      prev := this;
      this.item := item;
    }
  }

  /** The position behind i on a cycle of n nodes. */
  function After(i: nat, n: nat): nat { if i + 1 == n then 0 else i + 1 }

  function Before(i: nat, n: nat): (p: nat)
    requires i < n
    ensures p < n && After(p, n) == i
  {
    if i == 0 then n - 1 else i - 1
  }

  function Nth<T>(r: seq<ListNode<T>>, i: nat): ListNode<T>
    requires i < |r|
  {
    r[i]
  }

  ghost predicate Differ<T>(r: seq<ListNode<T>>, i: nat, j: nat)
    requires i < |r| && j < |r|
  {
    i != j ==> r[i] != r[j]
  }

  ghost predicate Linked<T>(r: seq<ListNode<T>>, i: nat)
    requires i < |r|
    reads r`next, r`prev
  {
    r[i].next == r[After(i, |r|)] && r[After(i, |r|)].prev == r[i]
  }

  /** The nodes of r are distinct and linked, in this order, into one cycle in both directions. */
  ghost predicate IsRing<T>(r: seq<ListNode<T>>)
    reads r`next, r`prev
  {
    && r != []
    && (forall i: nat, j: nat | i < |r| && j < |r| :: Differ(r, i, j))
    && (forall i: nat | i < |r| :: Linked(r, i))
  }

  /** x put right behind position i. */
  ghost function WithAfter<T>(r: seq<T>, i: nat, x: T): (s: seq<T>)
    requires i < |r|
    ensures |s| == |r| + 1
    ensures forall k | 0 <= k <= i :: s[k] == r[k]
    ensures s[i + 1] == x
    ensures forall k | i + 1 < k < |s| :: s[k] == r[k - 1]
  {
    r[..i + 1] + [x] + r[i + 1..]
  }

  ghost function Without<T>(r: seq<T>, i: nat): (s: seq<T>)
    requires i < |r|
    ensures |s| == |r| - 1
    ensures forall k | 0 <= k < i :: s[k] == r[k]
    ensures forall k | i <= k < |s| :: s[k] == r[k + 1]
  {
    r[..i] + r[i + 1..]
  }

  lemma DifferWithAfter<T>(r: seq<ListNode<T>>, i: nat, x: ListNode<T>)
    requires i < |r| && x !in r
    requires forall j: nat, k: nat | j < |r| && k < |r| :: Differ(r, j, k)
    ensures var s := WithAfter(r, i, x); forall j: nat, k: nat | j < |s| && k < |s| :: Differ(s, j, k)
  {
    var s := WithAfter(r, i, x);
    forall j: nat, k: nat | j < |s| && k < |s| ensures Differ(s, j, k) {
      if j != i + 1 && k != i + 1 {
        assert Differ(r, if j <= i then j else j - 1, if k <= i then k else k - 1);
      }
    }
  }

  lemma DifferWithout<T>(r: seq<ListNode<T>>, i: nat)
    requires i < |r|
    requires forall j: nat, k: nat | j < |r| && k < |r| :: Differ(r, j, k)
    ensures var s := Without(r, i); forall j: nat, k: nat | j < |s| && k < |s| :: Differ(s, j, k)
    ensures r[i] !in Without(r, i)
  {
    var s := Without(r, i);
    forall j: nat, k: nat | j < |s| && k < |s| ensures Differ(s, j, k) {
      assert Differ(r, if j < i then j else j + 1, if k < i then k else k + 1);
    }
    forall j: nat | j < |s| ensures s[j] != r[i] {
      assert Differ(r, if j < i then j else j + 1, i);
    }
  }


  /** list_add_head: item goes right behind head. */
  method ListAddHead<T>(head: ListNode<T>, item: ListNode<T>, ghost r: seq<ListNode<T>>, ghost i: nat)
    requires IsRing(r) && i < |r| && r[i] == head && item !in r
    modifies item`next, item`prev, head`next, Nth(r, After(i, |r|))`prev
    ensures IsRing(WithAfter(r, i, item))
  {
    ghost var s := WithAfter(r, i, item);
    ghost var n := |r|;
    assert Linked(r, i);
    item.next := head.next;
    item.prev := head;
    head.next.prev := item;
    head.next := item;
    DifferWithAfter(r, i, item);
    forall k: nat | k < |s| ensures Linked(s, k) {
      if k != i && k != i + 1 {
        ghost var j: nat := if k < i then k else k - 1;
        assert old(Linked(r, j)) && Differ(r, j, i) && Differ(r, After(j, n), After(i, n));
      }
    }
  }

  /** list_add_tail: item goes right before head. */
  method ListAddTail<T>(head: ListNode<T>, item: ListNode<T>, ghost r: seq<ListNode<T>>, ghost i: nat)
    requires IsRing(r) && i < |r| && r[After(i, |r|)] == head && item !in r
    modifies item`next, item`prev, head`prev, Nth(r, i)`next
    ensures IsRing(WithAfter(r, i, item))
  {
    ghost var s := WithAfter(r, i, item);
    ghost var n := |r|;
    assert Linked(r, i);
    item.next := head;
    item.prev := head.prev;
    head.prev.next := item;
    head.prev := item;
    DifferWithAfter(r, i, item);
    forall k: nat | k < |s| ensures Linked(s, k) {
      if k != i && k != i + 1 {
        ghost var j: nat := if k < i then k else k - 1;
        assert old(Linked(r, j)) && Differ(r, j, i) && Differ(r, After(j, n), After(i, n));
      }
    }
  }

  /** list_remove: item's neighbours are linked to each other. */
  method ListRemove<T>(item: ListNode<T>, ghost r: seq<ListNode<T>>, ghost i: nat)
    requires IsRing(r) && i < |r| && r[i] == item && |r| > 1
    modifies Nth(r, After(i, |r|))`prev, Nth(r, Before(i, |r|))`next
    ensures IsRing(Without(r, i)) && item !in Without(r, i)
  {
    ghost var s := Without(r, i);
    ghost var n := |r|;
    ghost var p := Before(i, n);
    assert Linked(r, p) && Linked(r, i);
    item.next.prev := item.prev;
    item.prev.next := item.next;
    DifferWithout(r, i);
    forall k: nat | k < |s| ensures Linked(s, k) {
      ghost var j: nat := if k < i then k else k + 1;
      assert old(Linked(r, j)) && Differ(r, j, i) && Differ(r, j, p) && Differ(r, After(j, n), After(i, n));
    }
  }

  /** list_remove of a node and list_add_head right behind its former successor. */
  method MoveBehindNext<T>(item: ListNode<T>, succ: ListNode<T>, ghost r: seq<ListNode<T>>, ghost i: nat)
    requires IsRing(r) && i + 1 < |r| && r[i] == item && r[i + 1] == succ
    modifies r`next, r`prev
    ensures IsRing(r[..i] + [succ, item] + r[i + 2..])
  {
    ListRemove(item, r, i);
    ListAddHead(succ, item, Without(r, i), i);
    assert WithAfter(Without(r, i), i, item) == r[..i] + [succ, item] + r[i + 2..];
  }

  /** The first node moved behind the second, the cycle still told from it. */
  method MoveFirst<T>(item: ListNode<T>, succ: ListNode<T>, ghost r: seq<ListNode<T>>)
    requires IsRing(r) && 1 < |r| && r[0] == item && r[1] == succ
    modifies r`next, r`prev
    ensures IsRing([item] + r[2..] + [succ])
  {
    MoveBehindNext(item, succ, r, 0);
    ghost var r2 := [succ, item] + r[2..];
    assert r[..0] + [succ, item] + r[2..] == r2;
    RotateRing(r2);
    assert [item] + r[2..] + [succ] == r2[1..] + [r2[0]];
  }

  /** The same cycle, told from its second node. */
  lemma RotateRing<T>(r: seq<ListNode<T>>)
    requires IsRing(r)
    ensures IsRing(r[1..] + [r[0]])
  {
    var s := r[1..] + [r[0]];
    var n := |r|;
    assert forall k: nat | k < n :: s[k] == r[After(k, n)];
    forall j: nat, k: nat | j < n && k < n ensures Differ(s, j, k) {
      assert Differ(r, After(j, n), After(k, n));
    }
    forall k: nat | k < n ensures Linked(s, k) {
      assert Linked(r, After(k, n));
    }
  }
}
