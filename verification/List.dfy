/** Intrusive circular doubly linked lists (src/list.h).

    A list with a designated head is the ring [head] + items; any item of a ring may serve as its
    head.  Every operation is stated as an operation on the sequence of items.
 */
module List {
  class Item {
    var prev: Item?
    var next: Item?
  }

  ghost predicate Linked(a: Item, b: Item)
    reads a, b
  {
    a.next == b && b.prev == a
  }

  ghost predicate Distinct(s: seq<Item>) {
    forall i, j :: 0 <= i < |s| && 0 <= j < |s| && i != j ==> s[i] != s[j]
  }

  ghost predicate Chain(s: seq<Item>)
    reads s
  {
    forall i :: 0 <= i < |s| - 1 ==> Linked(s[i], s[i + 1])
  }

  // The items form one ring in this order: next and prev are inverse to each other all around.
  ghost predicate Ring(s: seq<Item>)
    reads s
  {
    |s| > 0 && Distinct(s) && Chain(s) && Linked(s[|s| - 1], s[0])
  }

  // A ring seen from one of its items.
  lemma RingFrom(item: Item, rest: seq<Item>)
    ensures Ring([item] + rest) <==>
            && item !in rest && Distinct(rest) && Chain(rest)
            && (if rest == [] then Linked(item, item)
                else Linked(item, rest[0]) && Linked(rest[|rest| - 1], item))
  {
    var s := [item] + rest;
    assert s[0] == item && forall i :: 0 <= i < |rest| ==> rest[i] == s[i + 1];
    if Ring(s) {
      forall i | 0 <= i < |rest| - 1
        ensures Linked(rest[i], rest[i + 1])
      {
        assert Linked(s[i + 1], s[i + 2]);
      }
      assert rest != [] ==> Linked(s[0], s[1]);
    }
  }

  ghost predicate Unlinked(item: Item)
    reads item
  {
    item.next == null || item.prev == null
  }

  // A ring has no distinguished start.
  lemma Rotate(a: seq<Item>, b: seq<Item>)
    requires Ring(a + b)
    ensures |b| > 0 ==> Ring(b + a)
  {
    var s, r := a + b, b + a;
    if |a| > 0 && |b| > 0 {
      assert forall i :: 0 <= i < |b| ==> r[i] == s[|a| + i];
      assert forall i :: 0 <= i < |a| ==> r[|b| + i] == s[i];
      forall i | 0 <= i < |r| - 1
        ensures Linked(r[i], r[i + 1])
      {
        if i < |b| - 1 {
          assert Linked(s[|a| + i], s[|a| + i + 1]);
        } else if i >= |b| {
          assert Linked(s[i - |b|], s[i - |b| + 1]);
        }
      }
      assert Linked(s[|a| - 1], s[|a|]);
      forall i, j | 0 <= i < |r| && 0 <= j < |r| && i != j
        ensures r[i] != r[j]
      {
        var i', j' := if i < |b| then |a| + i else i - |b|, if j < |b| then |a| + j else j - |b|;
        assert r[i] == s[i'] && r[j] == s[j'];
      }
    } else {
      assert |a| == 0 ==> r == s;
    }
  }

  method ListInit(l: Item)
    modifies l
    ensures Ring([l])
  {
    l.prev := l;
    l.next := l;
  }

  predicate IsEmpty(l: Item)
    reads l
  {
    (l.next == l && l.prev == l) || (l.next == null && l.prev == null)
  }

  // Empty are an item linked to itself only, and one that is all zero.
  lemma EmptyExactly(l: Item)
    ensures IsEmpty(l) <==> Ring([l]) || (l.next == null && l.prev == null)
  {
  }

  // For a list in use, being empty means having no items.
  lemma EmptyMeansNoItems(head: Item, xs: seq<Item>)
    requires Ring([head] + xs)
    ensures IsEmpty(head) <==> xs == []
    ensures !Unlinked(head)
    ensures xs != [] ==> head.next == xs[0] && head.prev == xs[|xs| - 1]
  {
    var s := [head] + xs;
    if xs != [] {
      assert Linked(s[0], s[1]);
    }
  }

  lemma Prepended(item: Item, xs: seq<Item>)
    requires Chain(xs) && Distinct(xs) && item !in xs && (xs != [] ==> Linked(item, xs[0]))
    ensures Chain([item] + xs) && Distinct([item] + xs)
  {
    assert forall i :: 0 <= i < |xs| ==> ([item] + xs)[i + 1] == xs[i];
  }

  lemma Appended(xs: seq<Item>, item: Item)
    requires Chain(xs) && Distinct(xs) && item !in xs && (xs != [] ==> Linked(xs[|xs| - 1], item))
    ensures Chain(xs + [item]) && Distinct(xs + [item])
  {
  }

  // list_insert: in front of all items.
  method ListInsert(head: Item, item: Item, ghost xs: seq<Item>)
    requires Ring([head] + xs) && item !in [head] + xs
    modifies head, item, head.next
    ensures Ring([head] + ([item] + xs))
  {
    hide Ring, Distinct;
    RingFrom(head, xs);
    item.next := head.next;
    item.prev := head;
    head.next.prev := item;
    head.next := item;
    assert Chain(xs);
    Prepended(item, xs);
    RingFrom(head, [item] + xs);
  }

  // list_append: behind all items.
  method ListAppend(head: Item, item: Item, ghost xs: seq<Item>)
    requires Ring([head] + xs) && item !in [head] + xs
    modifies head, item, head.prev
    ensures Ring([head] + (xs + [item]))
  {
    hide Ring, Distinct;
    RingFrom(head, xs);
    item.next := head;
    item.prev := head.prev;
    head.prev.next := item;
    head.prev := item;
    assert Chain(xs);
    Appended(xs, item);
    RingFrom(head, xs + [item]);
  }

  // list_remove, for an item at the start of its ring.
  method ListRemoveFirst(item: Item, ghost rest: seq<Item>) returns (done: bool)
    requires Unlinked(item) || Ring([item] + rest)
    modifies item, item.next, item.prev
    ensures done <==> !old(Unlinked(item)) && rest != []
    ensures done ==> Ring(rest) && Ring([item])
    ensures !done ==> unchanged(item) && (item.next != null ==> unchanged(item.next))
                      && (item.prev != null ==> unchanged(item.prev))
  {
    hide Ring;
    RingFrom(item, rest);
    if item.next == null || item.prev == null || IsEmpty(item) {
      return false;
    }
    item.prev.next := item.next;
    item.next.prev := item.prev;
    item.prev := item;
    item.next := item;
    assert Chain(rest);
    RingParts(rest);
    RingFrom(item, []);
    assert [item] + [] == [item];
    done := true;
  }

  lemma RingParts(s: seq<Item>)
    requires |s| > 0 && Distinct(s) && Chain(s) && Linked(s[|s| - 1], s[0])
    ensures Ring(s)
  {
  }

  // list_remove: the item leaves its ring and becomes a ring of its own.
  method ListRemove(item: Item, ghost before: seq<Item>, ghost after: seq<Item>) returns (done: bool)
    requires Unlinked(item) || Ring(before + ([item] + after))
    modifies item, item.next, item.prev
    ensures done <==> !old(Unlinked(item)) && before + after != []
    ensures done ==> Ring(before + after) && Ring([item])
    ensures !done ==> unchanged(item) && (item.next != null ==> unchanged(item.next))
                      && (item.prev != null ==> unchanged(item.prev))
  {
    ghost var rest := after + before;
    if !Unlinked(item) {
      Rotate(before, [item] + after);
      assert ([item] + after) + before == [item] + rest;
    }
    done := ListRemoveFirst(item, rest);
    if done {
      RotateBack(before, after);
    }
  }

  lemma RotateBack(before: seq<Item>, after: seq<Item>)
    requires Ring(after + before)
    ensures Ring(before + after)
  {
    if before == [] {
      assert after + before == before + after;
    } else {
      Rotate(after, before);
    }
  }

  // list_remove_head
  method ListRemoveHead(head: Item, ghost xs: seq<Item>) returns (h: Item?)
    requires Ring([head] + xs) || (IsEmpty(head) && xs == [])
    modifies head, head.next, if xs == [] then head else xs[0].next
    ensures xs == [] ==> h == null && unchanged(head)
    ensures xs != [] ==> h == xs[0] && Ring([head] + xs[1..]) && Ring([xs[0]])
  {
    if Ring([head] + xs) {
      EmptyMeansNoItems(head, xs);
    }
    h := if IsEmpty(head) then null else head.next;
    if h != null {
      assert [head] + xs == [head] + ([h] + xs[1..]);
      SecondOfRing(head, h, xs[1..]);
      var _ := ListRemove(h, [head], xs[1..]);
    }
  }

  lemma SecondOfRing(head: Item, h: Item, xs: seq<Item>)
    requires Ring([head] + ([h] + xs))
    ensures h.prev == head && h.next != null && !Unlinked(h)
  {
    var s := [head] + ([h] + xs);
    assert Linked(s[0], s[1]);
    assert |s| > 2 ==> Linked(s[1], s[2]);
  }

  // list_remove_tail
  method ListRemoveTail(head: Item, ghost xs: seq<Item>) returns (t: Item?)
    requires Ring([head] + xs) || (IsEmpty(head) && xs == [])
    modifies head, head.prev, if xs == [] then head else xs[|xs| - 1].prev
    ensures xs == [] ==> t == null && unchanged(head)
    ensures xs != [] ==> t == xs[|xs| - 1] && Ring([head] + xs[..|xs| - 1]) && Ring([xs[|xs| - 1]])
  {
    if Ring([head] + xs) {
      EmptyMeansNoItems(head, xs);
    }
    t := if IsEmpty(head) then null else head.prev;
    if t != null {
      ghost var init := xs[..|xs| - 1];
      ghost var s := [head] + xs;
      assert s == ([head] + init) + ([t] + []);
      assert Linked(s[|s| - 1], s[0]) && Linked(s[|s| - 2], s[|s| - 1]);
      var _ := ListRemove(t, [head] + init, []);
      assert ([head] + init) + [] == [head] + init;
    }
  }

  // list_replace: the new item takes the place of the old one, which becomes a ring of its own.
  method ListReplace(item: Item, new_: Item, ghost before: seq<Item>, ghost after: seq<Item>)
    returns (done: bool)
    requires Unlinked(item) || (Ring(before + ([item] + after)) && new_ !in before + ([item] + after))
    modifies item, new_, item.next, item.prev
    ensures done <==> !old(Unlinked(item)) && before + after != []
    ensures done ==> Ring(before + ([new_] + after)) && Ring([item])
    ensures !done ==> unchanged(item) && unchanged(new_) && (item.next != null ==> unchanged(item.next))
                      && (item.prev != null ==> unchanged(item.prev))
  {
    hide Ring;
    ghost var rest := after + before;
    if !Unlinked(item) {
      Rotate(before, [item] + after);
      assert ([item] + after) + before == [item] + rest;
      RingFrom(item, rest);
    }
    if item.next == null || item.prev == null || IsEmpty(item) {
      return false;
    }
    new_.next := item.next;
    new_.prev := item.prev;
    item.prev.next := new_;
    item.next.prev := new_;
    item.prev := item;
    item.next := item;
    assert Chain(rest);
    RingFrom(new_, rest);
    RingFrom(item, []);
    assert ([new_] + after) + before == [new_] + rest;
    assert [item] + [] == [item];
    RotateBack(before, [new_] + after);
    done := true;
  }

  // The items that are not dropped, in order.
  ghost function Kept(xs: seq<Item>, drop: set<Item>): seq<Item> {
    if xs == [] then []
    else Kept(xs[..|xs| - 1], drop) + (if xs[|xs| - 1] in drop then [] else [xs[|xs| - 1]])
  }

  // The list after the body has been run on the first i items.
  ghost predicate Visited(head: Item, xs: seq<Item>, drop: set<Item>, i: nat)
    requires i <= |xs|
    reads head, xs, Kept(xs[..i], drop)
  {
    && Ring([head] + Kept(xs[..i], drop) + xs[i..])
    && forall j :: 0 <= j < i && xs[j] in drop ==> Ring([xs[j]])
  }

  // list_foreach_safe with a body that removes some of the items it is given: every item is
  // visited once, in order, and exactly the dropped ones have left the list.
  method ListForeachSafe(head: Item, drop: set<Item>, ghost xs: seq<Item>) returns (visited: seq<Item>)
    requires Ring([head] + xs)
    modifies [head] + xs
    ensures visited == xs
    ensures Ring([head] + Kept(xs, drop))
    ensures forall x :: x in xs && x in drop ==> Ring([x])
  {
    hide Ring, Visited, Kept;
    Apart(head, xs);
    VisitedNone(head, xs, drop);
    visited := [];
    var cur := head.next;
    NextItem(head, xs, drop, 0);
    var tmp := cur.next;
    ghost var i := 0;
    while cur != head
      invariant 0 <= i <= |xs| && visited == xs[..i]
      invariant Visited(head, xs, drop, i)
      invariant cur == if i < |xs| then xs[i] else head
      invariant tmp == cur.next
      decreases |xs| - i
    {
      NextItem(head, xs, drop, i);
      visited := visited + [cur];
      LoopBody(head, cur, drop, xs, i);
      i := i + 1;
      cur := tmp;
      NextItem(head, xs, drop, i);
      tmp := tmp.next;
    }
    assert xs[..i] == xs;
    VisitedAll(head, xs, drop);
  }

  lemma VisitedNone(head: Item, xs: seq<Item>, drop: set<Item>)
    requires Ring([head] + xs)
    ensures Visited(head, xs, drop, 0)
    ensures head.next == if xs == [] then head else xs[0]
  {
    assert [head] + Kept(xs[..0], drop) + xs[0..] == [head] + xs;
    Neighbours(head, [], xs);
    assert [head] + [] + xs == [head] + xs;
  }

  lemma VisitedAll(head: Item, xs: seq<Item>, drop: set<Item>)
    requires Visited(head, xs, drop, |xs|)
    ensures Ring([head] + Kept(xs, drop))
    ensures forall x :: x in xs && x in drop ==> Ring([x])
  {
    hide Ring, Kept;
    assert xs[..|xs|] == xs;
    assert [head] + Kept(xs, drop) + xs[|xs|..] == [head] + Kept(xs, drop);
  }

  // The successor of the current item, before the body runs.
  lemma NextItem(head: Item, xs: seq<Item>, drop: set<Item>, i: nat)
    requires i <= |xs| && Visited(head, xs, drop, i)
    ensures head.next != null
    ensures i < |xs| ==> xs[i].next == if i + 1 < |xs| then xs[i + 1] else head
  {
    hide Ring, Kept;
    Neighbours(head, Kept(xs[..i], drop), xs[i..]);
  }

  // The items of a ring, told apart by position.
  lemma Apart(head: Item, xs: seq<Item>)
    requires Ring([head] + xs)
    ensures Distinct(xs) && head !in xs
  {
    RingFrom(head, xs);
  }

  // What the body does with the current item.
  method LoopBody(head: Item, cur: Item, drop: set<Item>, ghost xs: seq<Item>, ghost i: nat)
    requires Distinct(xs) && head !in xs && i < |xs| && cur == xs[i]
    requires Visited(head, xs, drop, i)
    modifies [head] + xs
    ensures Visited(head, xs, drop, i + 1)
  {
    hide Ring;
    ghost var kept, rest := Kept(xs[..i], drop), xs[i + 1..];
    assert xs[..i + 1][..i] == xs[..i];
    assert [head] + kept + xs[i..] == ([head] + kept) + ([cur] + rest);
    Neighbours(head, kept, xs[i..]);
    KeptMembers(xs[..i], drop);
    if cur in drop {
      assert ([head] + xs)[i + 1] == cur;
      assert cur in [head] + xs && cur.next in [head] + xs && cur.prev in [head] + xs;
      var _ := ListRemove(cur, [head] + kept, rest);
      assert kept + [] == kept;
    } else {
      assert [head] + kept + xs[i..] == [head] + (kept + [cur]) + rest;
    }
  }

  lemma {:induction false} KeptMembers(xs: seq<Item>, drop: set<Item>)
    ensures forall x :: x in Kept(xs, drop) <==> x in xs && x !in drop
  {
    if xs != [] {
      KeptMembers(xs[..|xs| - 1], drop);
      assert xs == xs[..|xs| - 1] + [xs[|xs| - 1]];
    }
  }

  // The neighbours of the first of the items still to come.
  lemma Neighbours(head: Item, kept: seq<Item>, rest: seq<Item>)
    requires Ring([head] + kept + rest)
    ensures rest != [] ==> rest[0].next == (if |rest| > 1 then rest[1] else head) && rest[0].prev != null
    ensures rest != [] ==> rest[0].prev in [head] + kept && rest[0] !in [head] + kept
    ensures head.next != null && (kept == [] ==> head.next == (if rest != [] then rest[0] else head))
  {
    var s := [head] + kept + rest;
    var k := 1 + |kept|;
    assert Linked(s[|s| - 1], s[0]);
    assert |s| > 1 ==> Linked(s[0], s[1]);
    if rest != [] {
      assert s[k] == rest[0] && Linked(s[k - 1], s[k]);
      assert s[k - 1] == ([head] + kept)[k - 1];
      if |rest| > 1 {
        assert s[k + 1] == rest[1] && Linked(s[k], s[k + 1]);
      }
      assert forall j :: 0 <= j < k ==> s[j] == ([head] + kept)[j];
    }
  }
}
