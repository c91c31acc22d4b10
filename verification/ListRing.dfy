/** The intrusive circular list of list.h: nodes on the heap, every operation rewriting pointers.
    A valid list is a ring, described by the sequence of its nodes from the anchor on. */
module ListRing {

  class ListHead {
    var next: ListHead?
    var prev: ListHead?

    /** LIST_HEAD_INIT: a node alone is a ring of one. */
    constructor ()
      ensures IsRing([this])
    {
      next, prev := this, this;
    }

    /** INIT_LIST_HEAD */
    method Init()
      modifies this
      ensures IsRing([this])
    {
      next, prev := this, this;
    }
  }

  function After(i: nat, n: nat): nat
    requires i < n
  {
    if i + 1 == n then 0 else i + 1
  }

  function Before(i: nat, n: nat): nat
    requires i < n
  {
    if i == 0 then n - 1 else i - 1
  }

  ghost predicate Distinct(s: seq<ListHead>) {
    forall i, j :: 0 <= i < j < |s| ==> s[i] != s[j]
  }

  /** `s` is a complete ring: `next` goes round it one way, `prev` the other. */
  ghost predicate IsRing(s: seq<ListHead>)
    reads s
  {
    && s != [] && Distinct(s)
    && (forall i: nat :: i < |s| ==> NextOk(s, i))
    && (forall i: nat :: i < |s| ==> PrevOk(s, i))
  }

  ghost predicate NextOk(s: seq<ListHead>, i: nat)
    requires i < |s|
    reads s
  {
    s[i].next == s[After(i, |s|)]
  }

  ghost predicate PrevOk(s: seq<ListHead>, i: nat)
    requires i < |s|
    reads s
  {
    s[i].prev == s[Before(i, |s|)]
  }

  ghost predicate Disjoint(s: seq<ListHead>, t: seq<ListHead>) {
    forall i, j :: 0 <= i < |s| && 0 <= j < |t| ==> s[i] != t[j]
  }

  /** `next` and `prev` are inverse to each other all round the ring. */
  lemma NextPrevInverse(s: seq<ListHead>, x: ListHead)
    requires IsRing(s) && x in s
    ensures x.next != null && x.next.prev == x
    ensures x.prev != null && x.prev.next == x
  {
    var i :| 0 <= i < |s| && s[i] == x;
    assert NextOk(s, i) && PrevOk(s, After(i, |s|));
    assert PrevOk(s, i) && NextOk(s, Before(i, |s|));
  }

  /** A ring may be entered at any of its nodes. */
  lemma Rotate(s: seq<ListHead>, k: nat)
    requires IsRing(s) && k < |s|
    ensures IsRing(s[k..] + s[..k])
  {
    var t := s[k..] + s[..k];
    forall i: nat | i < |t|
      ensures NextOk(t, i) && PrevOk(t, i)
    {
      var j := if i < |s| - k then i + k else i - (|s| - k);
      assert t[i] == s[j];
      assert NextOk(s, j) && PrevOk(s, j);
    }
  }

  /** The anchor determines the ring. */
  lemma RingUnique(s: seq<ListHead>, t: seq<ListHead>)
    requires IsRing(s) && IsRing(t) && s[0] == t[0]
    ensures s == t
  {
    if |s| <= |t| {
      SameLength(s, t);
    } else {
      SameLength(t, s);
    }
    SamePrefix(s, t, |s| - 1);
  }

  lemma SameLength(s: seq<ListHead>, t: seq<ListHead>)
    requires IsRing(s) && IsRing(t) && s[0] == t[0] && |s| <= |t|
    ensures |s| == |t|
  {
    var m := |s| - 1;
    SamePrefix(s, t, m);
    assert NextOk(s, m) && NextOk(t, m);
    assert t[After(m, |t|)] == t[0];
  }

  lemma {:induction false} SamePrefix(s: seq<ListHead>, t: seq<ListHead>, k: nat)
    requires IsRing(s) && IsRing(t) && s[0] == t[0] && k < |s| <= |t|
    ensures forall i :: 0 <= i <= k ==> s[i] == t[i]
  {
    if k > 0 {
      SamePrefix(s, t, k - 1);
      assert NextOk(s, k - 1) && NextOk(t, k - 1);
    }
  }

  ghost function Inserted(s: seq<ListHead>, i: nat, node: ListHead): (t: seq<ListHead>)
    requires i < |s|
    ensures |t| == |s| + 1
    ensures forall k :: 0 <= k < |t| ==> t[k] == if k <= i then s[k] else if k == i + 1 then node else s[k - 1]
  {
    s[..i + 1] + [node] + s[i + 1..]
  }

  lemma InsertedDistinct(s: seq<ListHead>, i: nat, node: ListHead)
    requires Distinct(s) && i < |s| && node !in s
    ensures Distinct(Inserted(s, i, node))
  {
    var t := Inserted(s, i, node);
    forall a, b | 0 <= a < b < |t|
      ensures t[a] != t[b]
    {
      assert t[a] == if a == i + 1 then node else s[if a <= i then a else a - 1];
      assert t[b] == if b == i + 1 then node else s[if b <= i then b else b - 1];
    }
  }

  lemma InsertedRing(s: seq<ListHead>, i: nat, node: ListHead)
    requires Distinct(s) && i < |s| && node !in s
    requires forall k: nat :: k < |s| && k != i ==> NextOk(s, k)
    requires s[i].next == node && node.next == s[After(i, |s|)]
    requires forall k: nat :: k < |s| && k != After(i, |s|) ==> PrevOk(s, k)
    requires s[After(i, |s|)].prev == node && node.prev == s[i]
    ensures IsRing(Inserted(s, i, node))
  {
    var t := Inserted(s, i, node);
    InsertedDistinct(s, i, node);
    forall k: nat | k < |t|
      ensures NextOk(t, k) && PrevOk(t, k)
    {
      if k < i || i + 1 < k {
        assert NextOk(s, if k < i then k else k - 1);
      }
      if k <= i || (i + 2 < k) {
        assert (i + 1 == |s| && k == 0) || PrevOk(s, if k <= i then k else k - 1);
      }
    }
  }

  /** `__list_add`: link `node` in between two consecutive nodes of the ring. */
  method InsertBetween(node: ListHead, prev: ListHead, next: ListHead, ghost s: seq<ListHead>, ghost i: nat)
    requires IsRing(s) && node !in s && i < |s| && prev == s[i] && next == s[After(i, |s|)]
    modifies node, prev, next
    ensures IsRing(Inserted(s, i, node))
  {
    assert forall k: nat :: k < |s| && k != i ==> s[k] != prev;
    assert forall k: nat :: k < |s| && k != After(i, |s|) ==> s[k] != next;
    next.prev := node;
    node.next := next;
    node.prev := prev;
    prev.next := node;
    forall k: nat | k < |s|
      ensures k != i ==> NextOk(s, k)
      ensures k != After(i, |s|) ==> PrevOk(s, k)
    {
      assert old(NextOk(s, k)) && old(PrevOk(s, k));
    }
    InsertedRing(s, i, node);
  }

  /** `list_add`: right after the anchor. */
  method ListAdd(node: ListHead, head: ListHead, ghost s: seq<ListHead>)
    requires IsRing(s) && s[0] == head && node !in s
    modifies node, head, head.next
    ensures IsRing([head, node] + s[1..])
  {
    assert NextOk(s, 0);
    InsertBetween(node, head, head.next, s, 0);
    assert Inserted(s, 0, node) == [head, node] + s[1..];
  }

  /** `list_add_tail`: right before the anchor. */
  method ListAddTail(node: ListHead, head: ListHead, ghost s: seq<ListHead>)
    requires IsRing(s) && s[0] == head && node !in s
    modifies node, head, head.prev
    ensures IsRing(s + [node])
  {
    assert PrevOk(s, 0);
    assert head == s[After(|s| - 1, |s|)];
    InsertBetween(node, head.prev, head, s, |s| - 1);
    assert Inserted(s, |s| - 1, node) == s + [node];
  }

  ghost function Without(s: seq<ListHead>, i: nat): (t: seq<ListHead>)
    requires i < |s|
    ensures |t| == |s| - 1
    ensures forall k :: 0 <= k < |t| ==> t[k] == if k < i then s[k] else s[k + 1]
  {
    s[..i] + s[i + 1..]
  }

  lemma WithoutRing(s: seq<ListHead>, i: nat)
    requires Distinct(s) && i < |s| && |s| > 1
    requires forall k: nat :: k < |s| && k != i && k != Before(i, |s|) ==> NextOk(s, k)
    requires s[Before(i, |s|)].next == s[After(i, |s|)]
    requires forall k: nat :: k < |s| && k != i && k != After(i, |s|) ==> PrevOk(s, k)
    requires s[After(i, |s|)].prev == s[Before(i, |s|)]
    ensures IsRing(Without(s, i))
  {
    var t := Without(s, i);
    forall a, b | 0 <= a < b < |t|
      ensures t[a] != t[b]
    {
      assert t[a] == s[if a < i then a else a + 1] && t[b] == s[if b < i then b else b + 1];
    }
    forall k: nat | k < |t|
      ensures NextOk(t, k) && PrevOk(t, k)
    {
      var j := if k < i then k else k + 1;
      assert j == Before(i, |s|) || NextOk(s, j);
      assert j == After(i, |s|) || PrevOk(s, j);
    }
  }

  /** `__list_del`: the neighbours of node `i` now point to each other; the node itself is untouched. */
  method Unlink(entry: ListHead, ghost s: seq<ListHead>, ghost i: nat)
    requires IsRing(s) && i < |s| && entry == s[i]
    modifies entry.prev, entry.next
    ensures |s| > 1 ==> IsRing(Without(s, i))
    ensures |s| == 1 ==> IsRing(s)
    ensures |s| > 1 ==> entry.next == old(entry.next) && entry.prev == old(entry.prev)
  {
    assert NextOk(s, i) && PrevOk(s, i);
    assert forall k: nat :: k < |s| && k != Before(i, |s|) ==> s[k] != entry.prev;
    assert forall k: nat :: k < |s| && k != After(i, |s|) ==> s[k] != entry.next;
    var prev, next := entry.prev, entry.next;
    next.prev := prev;
    prev.next := next;
    if |s| > 1 {
      forall k: nat | k < |s| && k != i
        ensures k != Before(i, |s|) ==> NextOk(s, k)
        ensures k != After(i, |s|) ==> PrevOk(s, k)
      {
        assert old(NextOk(s, k)) && old(PrevOk(s, k));
      }
      WithoutRing(s, i);
    }
  }

  /** `list_del_init`: exactly that node leaves the ring, and becomes a ring of its own. */
  method ListDelInit(entry: ListHead, ghost s: seq<ListHead>, ghost i: nat)
    requires IsRing(s) && i < |s| && entry == s[i]
    modifies entry, entry.prev, entry.next
    ensures IsRing([entry])
    ensures |s| > 1 ==> IsRing(Without(s, i))
  {
    Unlink(entry, s, i);
    entry.Init();
    if |s| > 1 {
      assert forall k :: 0 <= k < |Without(s, i)| ==> Without(s, i)[k] != entry;
    }
  }

  ghost predicate Apart(u: seq<ListHead>, entry: ListHead, t: seq<ListHead>) {
    entry !in u && forall k :: 0 <= k < |t| ==> t[k] !in u
  }

  /** `list_move`: from its ring to the front of another. */
  method ListMove(entry: ListHead, head: ListHead, ghost s: seq<ListHead>, ghost i: nat, ghost t: seq<ListHead>)
    requires IsRing(s) && i < |s| && entry == s[i]
    requires IsRing(t) && t[0] == head && Disjoint(s, t)
    modifies entry, entry.prev, entry.next, head, head.next
    ensures |s| > 1 ==> IsRing(Without(s, i))
    ensures IsRing([head, entry] + t[1..])
  {
    assert NextOk(t, 0) && head.next == t[After(0, |t|)];
    assert NextOk(s, i) && PrevOk(s, i);
    Unlink(entry, s, i);
    assert |s| > 1 ==> Apart(Without(s, i), entry, t);
    ListAdd(entry, head, t);
  }

  /** `list_move_tail`: from its ring to the end of another. */
  method ListMoveTail(entry: ListHead, head: ListHead, ghost s: seq<ListHead>, ghost i: nat, ghost t: seq<ListHead>)
    requires IsRing(s) && i < |s| && entry == s[i]
    requires IsRing(t) && t[0] == head && Disjoint(s, t)
    modifies entry, entry.prev, entry.next, head, head.prev
    ensures |s| > 1 ==> IsRing(Without(s, i))
    ensures IsRing(t + [entry])
  {
    assert PrevOk(t, 0) && head.prev == t[Before(0, |t|)];
    assert NextOk(s, i) && PrevOk(s, i);
    Unlink(entry, s, i);
    assert |s| > 1 ==> Apart(Without(s, i), entry, t);
    ListAddTail(entry, head, t);
  }

  /** `list_move_tail` inside one ring: the entry goes to the end, the others keep their order. */
  method Requeue(entry: ListHead, head: ListHead, ghost s: seq<ListHead>, ghost i: nat)
    requires IsRing(s) && 0 < i < |s| && entry == s[i] && s[0] == head
    modifies s
    ensures IsRing(Without(s, i) + [entry])
  {
    assert NextOk(s, i) && PrevOk(s, i);
    Unlink(entry, s, i);
    ghost var t := Without(s, i);
    assert PrevOk(t, 0);
    ListAddTail(entry, head, t);
  }

  /** `list_move` inside one ring: the entry goes to the front, the others keep their order. */
  method MoveToFront(entry: ListHead, head: ListHead, ghost s: seq<ListHead>, ghost i: nat)
    requires IsRing(s) && 0 < i < |s| && entry == s[i] && s[0] == head
    modifies s
    ensures IsRing([head, entry] + Without(s, i)[1..])
  {
    assert NextOk(s, i) && PrevOk(s, i);
    Unlink(entry, s, i);
    ghost var t := Without(s, i);
    assert NextOk(t, 0);
    ListAdd(entry, head, t);
  }

  method ListEmpty(head: ListHead, ghost s: seq<ListHead>) returns (empty: bool)
    requires IsRing(s) && s[0] == head
    ensures empty <==> s == [head]
  {
    assert NextOk(s, 0);
    empty := head.next == head;
  }

  /** `__list_splice`: everything behind `list` is put right behind `head`; `list` itself is left as it was. */
  method Splice(list: ListHead, head: ListHead, ghost s: seq<ListHead>, ghost t: seq<ListHead>)
    requires IsRing(s) && s[0] == list && |s| > 1
    requires IsRing(t) && t[0] == head && Disjoint(s, t)
    modifies list.next, list.prev, head, head.next
    ensures IsRing([head] + s[1..] + t[1..])
    ensures list.next == old(list.next) && list.prev == old(list.prev)
  {
    assert NextOk(s, 0) && PrevOk(s, 0) && NextOk(t, 0);
    var first, last, at := list.next, list.prev, head.next;
    first.prev := head;
    head.next := first;
    last.next := at;
    at.prev := last;
    ghost var u := [head] + s[1..] + t[1..];
    forall k: nat | k < |u|
      ensures NextOk(u, k) && PrevOk(u, k)
    {
      if 0 < k < |s| {
        assert old(NextOk(s, k)) && old(PrevOk(s, k));
      } else if |s| <= k {
        assert old(NextOk(t, k - |s| + 1)) && old(PrevOk(t, k - |s| + 1));
      } else {
        assert old(PrevOk(t, 0));
      }
    }
  }

  /** `list_splice_init`: joins the rings and leaves `list` an empty list. */
  method ListSpliceInit(list: ListHead, head: ListHead, ghost s: seq<ListHead>, ghost t: seq<ListHead>)
    requires IsRing(s) && s[0] == list
    requires IsRing(t) && t[0] == head && Disjoint(s, t)
    modifies list, list.next, list.prev, head, head.next
    ensures IsRing([head] + s[1..] + t[1..])
    ensures IsRing([list])
  {
    var empty := ListEmpty(list, s);
    if !empty {
      Splice(list, head, s, t);
      list.Init();
      ghost var u := [head] + s[1..] + t[1..];
      assert forall k :: 0 <= k < |u| ==> u[k] != list;
    } else {
      assert [head] + s[1..] + t[1..] == t;
    }
  }

  /** `list_for_each`: visits every node behind the anchor, in order, and stops. */
  method ForEach(head: ListHead, ghost s: seq<ListHead>) returns (visited: seq<ListHead>)
    requires IsRing(s) && s[0] == head
    ensures visited == s[1..]
  {
    visited := [];
    assert NextOk(s, 0);
    var pos := head.next;
    ghost var i := After(0, |s|);
    while pos != head
      invariant 0 <= i < |s| && pos == s[i]
      invariant visited == if i == 0 then s[1..] else s[1..i]
      decreases if i == 0 then 0 else |s| - i
    {
      assert NextOk(s, i);
      visited := visited + [pos];
      pos := pos.next;
      i := After(i, |s|);
    }
    assert i == 0;
  }
}
