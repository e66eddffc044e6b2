/** The slab-backed doubly linked list: slots that are reused, a free list, and stable handles. */
module LinkList {
  import opened Wrappers

  datatype Node<T> = Node(value: T, next: Option<nat>, prev: Option<nat>)

  /** A handle is a slot key, or the invalid one. */
  type ListIndex = Option<nat>

  /** The key at a position of the list, or none past either end. */
  function KeyAt(order: seq<nat>, i: int): ListIndex {
    if 0 <= i < |order| then Some(order[i]) else None
  }

  ghost predicate Distinct(keys: seq<nat>) {
    forall i, j :: 0 <= i < j < |keys| ==> keys[i] != keys[j]
  }

  /** `order` lists the used slots, each once. */
  ghost predicate InUse<T>(slots: seq<Option<Node<T>>>, order: seq<nat>) {
    Distinct(order) && forall k :: k in order <==> 0 <= k < |slots| && slots[k].Some?
  }

  /** `free` lists the unused slots, each once. */
  ghost predicate Unused<T>(slots: seq<Option<Node<T>>>, free: seq<nat>) {
    Distinct(free) && forall k :: k in free <==> 0 <= k < |slots| && slots[k].None?
  }

  /** Every node's links name its neighbours in `order`. */
  ghost predicate Linked<T>(slots: seq<Option<Node<T>>>, order: seq<nat>) {
    forall i {:trigger slots[order[i]]} :: 0 <= i < |order| ==>
      && order[i] < |slots| && slots[order[i]].Some?
      && slots[order[i]].value.next == KeyAt(order, i + 1)
      && slots[order[i]].value.prev == KeyAt(order, i - 1)
  }

  /** The list's content: handles with their values, in order. */
  function ItemsOf<T>(slots: seq<Option<Node<T>>>, order: seq<nat>): (items: seq<(nat, T)>)
    requires forall k :: k in order ==> k < |slots| && slots[k].Some?
    ensures |items| == |order|
  {
    seq(|order|, i requires 0 <= i < |order| => assert order[i] in order; (order[i], slots[order[i]].value.value))
  }

  /** A sequence without its i-th element. */
  function Without<A>(s: seq<A>, i: nat): seq<A>
    requires i < |s|
  {
    s[..i] + s[i + 1..]
  }

  // ---- The slab under single changes.

  /** Changing what a used slot holds changes neither which slots are used nor which are free. */
  lemma Rewrite<T>(slots: seq<Option<Node<T>>>, order: seq<nat>, free: seq<nat>, k: nat, node: Node<T>)
    requires InUse(slots, order) && Unused(slots, free) && k < |slots| && slots[k].Some?
    ensures InUse(slots[k := Some(node)], order) && Unused(slots[k := Some(node)], free)
  {
  }

  /** Filling the last free slot puts it at the end of the used ones. */
  lemma Reuse<T>(slots: seq<Option<Node<T>>>, order: seq<nat>, free: seq<nat>, node: Node<T>)
    requires InUse(slots, order) && Unused(slots, free) && |free| > 0
    ensures var key := free[|free| - 1];
            && key in free && key < |slots| && key !in order
            && InUse(slots[key := Some(node)], order + [key])
            && Unused(slots[key := Some(node)], free[..|free| - 1])
  {
    var key, rest := free[|free| - 1], free[..|free| - 1];
    assert key in free && free == rest + [key];
    assert forall k :: k in free <==> k in rest || k == key;
  }

  /** So does a new slot when there is no free one. */
  lemma Extend<T>(slots: seq<Option<Node<T>>>, order: seq<nat>, free: seq<nat>, node: Node<T>)
    requires InUse(slots, order) && Unused(slots, free)
    ensures |slots| !in order
    ensures InUse(slots + [Some(node)], order + [|slots|]) && Unused(slots + [Some(node)], free)
  {
  }

  /** Freeing a used slot. */
  lemma Free<T>(slots: seq<Option<Node<T>>>, order: seq<nat>, free: seq<nat>, i: nat)
    requires InUse(slots, order) && Unused(slots, free) && i < |order|
    ensures var k := order[i];
            && k in order && k < |slots|
            && InUse(slots[k := None], Without(order, i)) && Unused(slots[k := None], free + [k])
  {
    var k, order' := order[i], Without(order, i);
    assert k in order;
    forall j | j in order && j != k
      ensures j in order'
    {
      var p :| 0 <= p < |order| && order[p] == j;
      assert order'[if p < i then p else p - 1] == j;
    }
    forall j | j in order'
      ensures j in order && j != k
    {
      var p :| 0 <= p < |order'| && order'[p] == j;
      assert order[if p < i then p else p + 1] == j;
    }
  }

  /** The slots are the used ones and the free ones. */
  lemma SlotsCount<T>(slots: seq<Option<Node<T>>>, order: seq<nat>, free: seq<nat>)
    requires InUse(slots, order) && Unused(slots, free)
    ensures |slots| == |order| + |free|
  {
    var used, unused := set k <- order, set k <- free;
    DistinctCount(order, used);
    DistinctCount(free, unused);
    BelowCount(|slots|, used + unused);
  }

  lemma {:induction false} DistinctCount(keys: seq<nat>, all: set<nat>)
    requires Distinct(keys) && all == set k <- keys
    ensures |all| == |keys|
    decreases |keys|
  {
    if keys != [] {
      var n := |keys| - 1;
      var rest := set k <- keys[..n];
      assert keys == keys[..n] + [keys[n]];
      assert all == rest + {keys[n]};
      DistinctCount(keys[..n], rest);
    }
  }

  lemma {:induction false} BelowCount(n: nat, all: set<nat>)
    requires forall k :: k in all <==> 0 <= k < n
    ensures |all| == n
  {
    if n > 0 {
      BelowCount(n - 1, all - {n - 1});
    }
  }

  /** The links after an element has been appended. */
  lemma LinkedAppend<T>(slots: seq<Option<Node<T>>>, order: seq<nat>, after: seq<Option<Node<T>>>, key: nat, v: T)
    requires InUse(slots, order) && Linked(slots, order) && InUse(after, order + [key])
    requires key < |after| && after[key] == Some(Node(v, None, KeyAt(order, |order| - 1)))
    requires forall k :: k in order && k != order[|order| - 1] ==> k < |after| && after[k] == slots[k]
    requires order != [] ==>
               var last := order[|order| - 1];
               last in order && last < |after| && after[last] == Some(slots[last].value.(next := Some(key)))
    ensures Linked(after, order + [key])
  {
    var longer := order + [key];
    assert longer[|order|] == key;
    forall i | 0 <= i < |order|
      ensures longer[i] == order[i] && LinkedAt(after, longer, i)
    {
      assert longer[i] == order[i] && order[i] in order;
      assert i < |order| - 1 ==> order[i] != order[|order| - 1];
      AppendedAt(slots, order, after, key, i);
    }
  }

  lemma AppendedAt<T>(slots: seq<Option<Node<T>>>, order: seq<nat>, after: seq<Option<Node<T>>>, key: nat, i: nat)
    requires InUse(slots, order) && Linked(slots, order) && i < |order| && order[i] in order && order[i] < |after|
    requires after[order[i]] == if i == |order| - 1 then Some(slots[order[i]].value.(next := Some(key)))
                                else slots[order[i]]
    ensures LinkedAt(after, order + [key], i)
  {
    Neighbours(slots, order, i);
    AppendedKeys(order, key, i);
  }

  /** The links of the node at one position. */
  ghost predicate LinkedAt<T>(slots: seq<Option<Node<T>>>, order: seq<nat>, i: nat)
    requires i < |order|
  {
    && order[i] < |slots| && slots[order[i]].Some?
    && slots[order[i]].value.next == KeyAt(order, i + 1) && slots[order[i]].value.prev == KeyAt(order, i - 1)
  }

  lemma AppendedKeys(order: seq<nat>, key: nat, i: nat)
    requires i < |order|
    ensures KeyAt(order + [key], i + 1) == if i + 1 < |order| then KeyAt(order, i + 1) else Some(key)
    ensures KeyAt(order + [key], i - 1) == KeyAt(order, i - 1)
  {
  }

  lemma ItemsAppend<T>(slots: seq<Option<Node<T>>>, order: seq<nat>, after: seq<Option<Node<T>>>, key: nat, v: T)
    requires InUse(slots, order) && InUse(after, order + [key])
    requires key < |after| && after[key].Some? && after[key].value.value == v
    requires forall k :: k in order ==> k < |after| && after[k].Some? && after[k].value.value == slots[k].value.value
    ensures ItemsOf(after, order + [key]) == ItemsOf(slots, order) + [(key, v)]
  {
    var longer := order + [key];
    assert forall i :: 0 <= i < |order| ==> longer[i] == order[i] && order[i] in order;
  }

  /** A well-formed list: every slot is either linked, once, in `order`, or on the free list. */
  ghost predicate WellFormed<T>(slots: seq<Option<Node<T>>>, free: seq<nat>, head: ListIndex, tail: ListIndex,
                                size: nat, order: seq<nat>)
  {
    && InUse(slots, order) && Unused(slots, free) && Linked(slots, order)
    && head == KeyAt(order, 0) && tail == KeyAt(order, |order| - 1) && size == |order|
  }

  /** Appending a taken slot and linking the old tail to it. */
  lemma AppendKeeps<T>(slots: seq<Option<Node<T>>>, head: ListIndex, tail: ListIndex, order: seq<nat>,
                       taken: seq<Option<Node<T>>>, free: seq<nat>, key: nat, v: T)
    returns (after: seq<Option<Node<T>>>)
    requires InUse(slots, order) && Linked(slots, order)
    requires head == KeyAt(order, 0) && tail == KeyAt(order, |order| - 1)
    requires InUse(taken, order + [key]) && Unused(taken, free) && key !in order
    requires key < |taken| && taken[key] == Some(Node(v, None, tail))
    requires forall k :: k in order ==> k < |taken| && taken[k] == slots[k]
    ensures tail.Some? ==> tail.value < |taken| && taken[tail.value].Some?
                           && after == taken[tail.value := Some(taken[tail.value].value.(next := Some(key)))]
    ensures tail.None? ==> after == taken
    ensures WellFormed(after, free, if tail.Some? then head else Some(key), Some(key), |order| + 1, order + [key])
    ensures ItemsOf(after, order + [key]) == ItemsOf(slots, order) + [(key, v)]
    ensures Does(ItemsOf(slots, order), Added(key, v), ItemsOf(after, order + [key]))
  {
    ContentKeys(slots, order);
    after := LinkTail(taken, order, free, tail, key);
    LinkedAppend(slots, order, after, key, v);
    ItemsAppend(slots, order, after, key, v);
  }

  /** Linking the old tail, if there is one, to the taken slot. */
  lemma LinkTail<T>(taken: seq<Option<Node<T>>>, order: seq<nat>, free: seq<nat>, tail: ListIndex, key: nat)
    returns (after: seq<Option<Node<T>>>)
    requires InUse(taken, order + [key]) && Unused(taken, free) && key !in order
    requires tail == KeyAt(order, |order| - 1)
    ensures InUse(after, order + [key]) && Unused(after, free)
    ensures tail.Some? ==> tail.value in order && tail.value < |taken| && taken[tail.value].Some?
                           && after == taken[tail.value := Some(taken[tail.value].value.(next := Some(key)))]
    ensures tail.None? ==> after == taken
    ensures forall k :: k in order && Some(k) != tail ==> k < |after| && k < |taken| && after[k] == taken[k]
    ensures key < |after| && key < |taken| && after[key] == taken[key]
  {
    assert key in order + [key] && forall k :: k in order ==> k in order + [key];
    after := taken;
    if tail.Some? {
      var t := tail.value;
      assert t in order && t in order + [key];
      Rewrite(taken, order + [key], free, t, taken[t].value.(next := Some(key)));
      after := taken[t := Some(taken[t].value.(next := Some(key)))];
    }
  }

  lemma Neighbours<T>(slots: seq<Option<Node<T>>>, order: seq<nat>, i: nat)
    requires InUse(slots, order) && Linked(slots, order) && i < |order|
    ensures order[i] in order
    ensures slots[order[i]].value.prev == KeyAt(order, i - 1) && slots[order[i]].value.next == KeyAt(order, i + 1)
    ensures i > 0 ==> order[i - 1] in order && order[i - 1] != order[i]
    ensures i + 1 < |order| ==> order[i + 1] in order && order[i + 1] != order[i]
  {
    assert order[i] in order;
    assert slots[order[i]].Some?;
  }

  /** The slots after the neighbours `prev` and `next` of `k` have been linked past it, and `k` freed. */
  function Relinked<T>(slots: seq<Option<Node<T>>>, k: nat, prev: ListIndex, next: ListIndex)
    : (after: seq<Option<Node<T>>>)
    requires k < |slots|
    requires prev.Some? ==> prev.value < |slots| && slots[prev.value].Some?
    requires next.Some? ==> next.value < |slots| && slots[next.value].Some?
    ensures |after| == |slots|
  {
    var s1 := if prev.Some? then slots[prev.value := Some(slots[prev.value].value.(next := next))] else slots;
    var s2 := if next.Some? then s1[next.value := Some(s1[next.value].value.(prev := prev))] else s1;
    s2[k := None]
  }

  /** What becomes of the slot of position `j` when position `i` is unlinked. */
  lemma RelinkedAt<T>(slots: seq<Option<Node<T>>>, order: seq<nat>, i: nat, j: nat)
    requires InUse(slots, order) && Linked(slots, order) && i < |order| && j < |order| && j != i
    ensures order[i] in order && order[j] in order && order[i] < |slots|
    ensures i > 0 ==> order[i - 1] in order
    ensures i + 1 < |order| ==> order[i + 1] in order
    ensures var after := Relinked(slots, order[i], KeyAt(order, i - 1), KeyAt(order, i + 1));
            after[order[j]] == Some(slots[order[j]].value.(next := KeyAt(order, if j + 1 == i then i + 1 else j + 1),
                                                           prev := KeyAt(order, if j == i + 1 then i - 1 else j - 1)))
  {
    Neighbours(slots, order, i);
    Neighbours(slots, order, j);
    assert order[j] != order[i];
    assert i > 0 && j != i - 1 ==> order[j] != order[i - 1];
    assert i + 1 < |order| && j != i + 1 ==> order[j] != order[i + 1];
  }

  lemma RelinkedUse<T>(slots: seq<Option<Node<T>>>, order: seq<nat>, free: seq<nat>, i: nat)
    requires InUse(slots, order) && Linked(slots, order) && Unused(slots, free) && i < |order|
    ensures order[i] in order
    ensures i > 0 ==> order[i - 1] in order
    ensures i + 1 < |order| ==> order[i + 1] in order
    ensures var after := Relinked(slots, order[i], KeyAt(order, i - 1), KeyAt(order, i + 1));
            InUse(after, Without(order, i)) && Unused(after, free + [order[i]])
  {
    Free(slots, order, free, i);
    Neighbours(slots, order, i);
    SameUse(slots[order[i] := None], Relinked(slots, order[i], KeyAt(order, i - 1), KeyAt(order, i + 1)),
            Without(order, i), free + [order[i]]);
  }

  lemma SameUse<T>(a: seq<Option<Node<T>>>, b: seq<Option<Node<T>>>, order: seq<nat>, free: seq<nat>)
    requires |a| == |b| && forall k :: 0 <= k < |a| ==> (a[k].None? <==> b[k].None?)
    requires InUse(a, order) && Unused(a, free)
    ensures InUse(b, order) && Unused(b, free)
  {
  }

  /** Removing the element at position `i`. */
  lemma RemoveKeeps<T>(slots: seq<Option<Node<T>>>, free: seq<nat>, head: ListIndex, tail: ListIndex, size: nat,
                       order: seq<nat>, i: nat)
    returns (after: seq<Option<Node<T>>>, prev: ListIndex, next: ListIndex)
    requires WellFormed(slots, free, head, tail, size, order) && i < |order|
    ensures order[i] < |slots| && slots[order[i]].Some?
    ensures prev == slots[order[i]].value.prev && next == slots[order[i]].value.next && next == KeyAt(order, i + 1)
    ensures prev.Some? ==> prev.value < |slots| && slots[prev.value].Some? && prev.value != order[i]
    ensures next.Some? ==> next.value < |slots| && slots[next.value].Some? && next.value != order[i]
    ensures after == Relinked(slots, order[i], prev, next)
    ensures WellFormed(after, free + [order[i]], if prev.Some? then head else next, if next.Some? then tail else prev,
                       |order| - 1, Without(order, i))
    ensures ItemsOf(after, Without(order, i)) == Without(ItemsOf(slots, order), i)
  {
    Neighbours(slots, order, i);
    RelinkedUse(slots, order, free, i);
    prev, next := KeyAt(order, i - 1), KeyAt(order, i + 1);
    after := Relinked(slots, order[i], prev, next);
    LinkedWithout(slots, after, order, i);
    ItemsWithout(slots, after, order, i);
    EndsWithout(order, i);
  }

  /** Which keys are first and last when one is taken out. */
  lemma EndsWithout(order: seq<nat>, i: nat)
    requires i < |order|
    ensures KeyAt(Without(order, i), 0) == if i > 0 then KeyAt(order, 0) else KeyAt(order, 1)
    ensures KeyAt(Without(order, i), |order| - 2)
         == if i + 1 < |order| then KeyAt(order, |order| - 1) else KeyAt(order, i - 1)
  {
  }

  lemma LinkedWithout<T>(slots: seq<Option<Node<T>>>, after: seq<Option<Node<T>>>, order: seq<nat>, i: nat)
    requires InUse(slots, order) && Linked(slots, order) && i < |order|
    requires order[i] in order && (i > 0 ==> order[i - 1] in order) && (i + 1 < |order| ==> order[i + 1] in order)
    requires after == Relinked(slots, order[i], KeyAt(order, i - 1), KeyAt(order, i + 1))
    ensures Linked(after, Without(order, i))
    ensures forall j {:trigger Without(order, i)[j]} :: 0 <= j < |order| - 1 ==>
              var k := Without(order, i)[j];
              && k < |after| && k < |slots| && slots[k].Some? && after[k].Some?
              && after[k].value.value == slots[k].value.value
  {
    var shorter := Without(order, i);
    forall j | 0 <= j < |shorter|
      ensures shorter[j] in order && shorter[j] < |after| && after[shorter[j]].Some?
      ensures after[shorter[j]].value.next == KeyAt(shorter, j + 1)
      ensures after[shorter[j]].value.prev == KeyAt(shorter, j - 1)
      ensures after[shorter[j]].value.value == slots[shorter[j]].value.value
    {
      RelinkedAt(slots, order, i, if j < i then j else j + 1);
    }
  }

  lemma ItemsWithout<T>(slots: seq<Option<Node<T>>>, after: seq<Option<Node<T>>>, order: seq<nat>, i: nat)
    requires InUse(slots, order) && i < |order| && InUse(after, Without(order, i))
    requires forall j {:trigger Without(order, i)[j]} :: 0 <= j < |order| - 1 ==>
               var k := Without(order, i)[j];
               && k < |after| && k < |slots| && slots[k].Some? && after[k].Some?
               && after[k].value.value == slots[k].value.value
    ensures ItemsOf(after, Without(order, i)) == Without(ItemsOf(slots, order), i)
  {
    assert forall j :: 0 <= j < |order| ==> order[j] in order;
    var a, b := ItemsOf(after, Without(order, i)), Without(ItemsOf(slots, order), i);
    forall j | 0 <= j < |order| - 1
      ensures a[j] == b[j]
    {
      var k := Without(order, i)[j];
      assert k == order[if j < i then j else j + 1];
    }
  }

  /** None of the first `n` elements satisfies the predicate. */
  predicate Misses<T>(items: seq<(nat, T)>, pred: T -> bool, n: nat)
    requires n <= |items|
  {
    forall j :: 0 <= j < n ==> !pred(items[j].1)
  }

  lemma MissesNext<T>(items: seq<(nat, T)>, pred: T -> bool, n: nat, v: T)
    requires n < |items| && items[n].1 == v && Misses(items, pred, n)
    ensures !pred(v) ==> Misses(items, pred, n + 1)
  {
  }

  /** The key freed last is taken off the free list. */
  predicate Reuses(free: seq<nat>, free': seq<nat>, key: nat) {
    free == free' + [key]
  }

  class List<T> {
    var slots: seq<Option<Node<T>>>
    var free: seq<nat>
    var head: ListIndex
    var tail: ListIndex
    var size: nat
    ghost var order: seq<nat>

    ghost predicate Valid()
      reads this
    {
      WellFormed(slots, free, head, tail, size, order)
    }

    ghost function Items(): (items: seq<(nat, T)>)
      requires Valid()
      reads this
    {
      ItemsOf(slots, order)
    }

    constructor ()
      ensures Valid() && Items() == []
    {
      slots, free, head, tail, size, order := [], [], None, None, 0, [];
    }

    method Clear()
      modifies this
      ensures Valid() && Items() == [] && slots == [] && free == []
    {
      slots, free, head, tail, size, order := [], [], None, None, 0, [];
    }

    /** Links the node of a used slot to a next one. */
    method SetNext(k: nat, next: ListIndex)
      requires k < |slots| && slots[k].Some?
      modifies this`slots
      ensures slots == old(slots)[k := Some(old(slots)[k].value.(next := next))]
    {
      slots := slots[k := Some(slots[k].value.(next := next))];
    }

    method SetPrev(k: nat, prev: ListIndex)
      requires k < |slots| && slots[k].Some?
      modifies this`slots
      ensures slots == old(slots)[k := Some(old(slots)[k].value.(prev := prev))]
    {
      slots := slots[k := Some(slots[k].value.(prev := prev))];
    }

    /** A slot for a new node: the last one freed, or else a new one. */
    method TakeSlot(node: Node<T>) returns (key: nat)
      requires InUse(slots, order) && Unused(slots, free)
      modifies this`slots, this`free
      ensures InUse(slots, order + [key]) && Unused(slots, free) && key !in order
      ensures key < |slots| && slots[key] == Some(node)
      ensures forall k :: k in order ==> k < |slots| && slots[k] == old(slots)[k]
      ensures old(free) != [] ==> Reuses(old(free), free, key) && |slots| == old(|slots|)
      ensures old(free) == [] ==> free == [] && key == old(|slots|) == |order| && |slots| == |order| + 1
      ensures |order| < |slots|
    {
      SlotsCount(slots, order, free);
      if |free| > 0 {
        Reuse(slots, order, free, node);
        key := free[|free| - 1];
        free := free[..|free| - 1];
        slots := slots[key := Some(node)];
      } else {
        Extend(slots, order, free, node);
        slots := slots + [Some(node)];
        key := |slots| - 1;
      }
    }

    method First() returns (index: ListIndex)
      requires Valid()
      ensures index == KeyAt(order, 0)
    {
      index := head;
    }

    method Last() returns (index: ListIndex)
      requires Valid()
      ensures index == KeyAt(order, |order| - 1)
    {
      index := tail;
    }

    /** The handle one on; none after one that is not live, as long as it once was. */
    method Next(index: ListIndex) returns (next: ListIndex)
      requires Valid() && (index.Some? ==> index.value < |slots|)
      ensures next == if index.None? || index.value !in order then None else KeyAt(order, Position(index.value) + 1)
    {
      if index.None? || slots[index.value].None? {
        return None;
      }
      Neighbours(slots, order, Position(index.value));
      next := slots[index.value].value.next;
    }

    method Prev(index: ListIndex) returns (prev: ListIndex)
      requires Valid() && (index.Some? ==> index.value < |slots|)
      ensures prev == if index.None? || index.value !in order then None else KeyAt(order, Position(index.value) - 1)
    {
      if index.None? || slots[index.value].None? {
        return None;
      }
      Neighbours(slots, order, Position(index.value));
      prev := slots[index.value].value.prev;
    }

    /** The value of a live handle. */
    method At(index: ListIndex) returns (v: T)
      requires Valid() && index.Some? && index.value in order
      ensures (index.value, v) == Items()[Position(index.value)]
    {
      v := slots[index.value].value.value;
    }

    /** The first element that satisfies the predicate; None if there is none. */
    method FindBy(pred: T -> bool) returns (index: ListIndex)
      requires Valid()
      ensures index.None? ==> Misses(Items(), pred, |order|)
      ensures index.Some? ==> index.value in order
                              && var i := Position(index.value); Misses(Items(), pred, i) && pred(Items()[i].1)
    {
      index := First();
      ghost var i := 0;
      ghost var items := Items();
      while index.Some?
        invariant i <= |order| == |items| && index == KeyAt(order, i)
        invariant Misses(items, pred, i)
        decreases |order| - i
      {
        var v, next := Visit(index, i);
        MissesNext(items, pred, i, v);
        if pred(v) {
          PositionIs(i);
          return;
        }
        index, i := next, i + 1;
      }
    }

    /** `remove`: the first element of the value, if there is one; the handle after it. */
    method Remove(pred: T -> bool) returns (next: ListIndex, ghost i: nat)
      requires Valid()
      modifies this
      ensures Valid()
      ensures i <= old(|order|) && Misses(old(Items()), pred, i)
      ensures i == old(|order|) ==> next == None && Items() == old(Items())
      ensures i < old(|order|) ==> pred(old(Items())[i].1) && next == KeyAt(old(order), i + 1)
                                   && Items() == Without(old(Items()), i)
    {
      var index := FindBy(pred);
      i := if index.Some? then Position(index.value) else |order|;
      next := RemoveAt(index);
    }

    /** One turn of an iteration: the value at position `i`, and on. */
    method Visit(index: ListIndex, ghost i: nat) returns (v: T, next: ListIndex)
      requires Valid() && i < |order| && index == KeyAt(order, i)
      ensures v == Items()[i].1 && next == KeyAt(order, i + 1)
    {
      PositionIs(i);
      v := At(index);
      next := Next(index);
    }

    lemma PositionIs(i: nat)
      requires Valid() && i < |order|
      ensures order[i] in order && Position(order[i]) == i
    {
      assert order[i] in order;
    }

    /** The position of a live handle. */
    ghost function Position(k: nat): (i: nat)
      requires Valid() && k in order
      reads this
      ensures i < |order| && order[i] == k
    {
      var i :| 0 <= i < |order| && order[i] == k; i
    }

    /** Removes the element of a handle and returns the handle of the next one; a handle that is not live
        panics in the source, and the invalid one does nothing. */
    method RemoveAt(index: ListIndex) returns (next: ListIndex)
      requires Valid() && (index.Some? ==> index.value in order)
      modifies this
      ensures Valid()
      ensures index.None? ==> next == None && Items() == old(Items()) && order == old(order)
      ensures index.Some? ==>
                var i := old(Position(index.value));
                && next == KeyAt(old(order), i + 1)
                && Items() == Without(old(Items()), i) && order == Without(old(order), i)
                && Does(old(Items()), Removed(index.value), Items())
                && free == old(free) + [index.value] && |slots| == old(|slots|)
      ensures index.None? ==> free == old(free) && slots == old(slots)
    {
      if index.None? {
        return None;
      }
      var k := index.value;
      ghost var i := Position(k);
      ghost var after, p, n := RemoveKeeps(slots, free, head, tail, size, order, i);
      assert Items()[i].0 == k;
      var prev := slots[k].value.prev;
      next := slots[k].value.next;
      if prev.Some? {
        SetNext(prev.value, next);
      } else {
        head := next;
      }
      if next.Some? {
        SetPrev(next.value, prev);
      } else {
        tail := prev;
      }
      slots := slots[k := None];
      assert slots == after;
      free := free + [k];
      size := size - 1;
      order := Without(order, i);
    }

    /** Appends; the handle is the slot freed last when there is one, and in no case that of a live element. A
        new slot is made only when every slot holds an element. */
    method Add(v: T) returns (index: ListIndex)
      requires Valid()
      modifies this
      ensures Valid() && index.Some? && index.value !in old(order)
      ensures Items() == old(Items()) + [(index.value, v)] && order == old(order) + [index.value]
      ensures Does(old(Items()), Added(index.value, v), Items())
      ensures old(free) != [] ==> Reuses(old(free), free, index.value) && |slots| == old(|slots|) >= |order|
      ensures old(free) == [] ==> free == [] && index.value == old(|slots|) && |slots| == |order| == old(|slots|) + 1
    {
      ghost var slots0 := slots;
      var key := TakeSlot(Node(v, None, tail));
      ghost var after := AppendKeeps(slots0, head, tail, order, slots, free, key, v);
      LinkLast(key);
      assert slots == after;
      order := order + [key];
      return Some(key);
    }

    /** Makes a taken slot the tail: the old tail points to it, or the head does. */
    method LinkLast(key: nat)
      requires tail.Some? ==> tail.value < |slots| && slots[tail.value].Some?
      modifies this`slots, this`head, this`tail, this`size
      ensures tail == Some(key) && size == old(size) + 1
      ensures head == if old(tail).Some? then old(head) else Some(key)
      ensures slots == if old(tail).None? then old(slots) else
                var t := old(tail).value;
                old(slots)[t := Some(old(slots)[t].value.(next := Some(key)))]
    {
      if tail.Some? {
        SetNext(tail.value, Some(key));
      } else {
        head := Some(key);
      }
      tail := Some(key);
      size := size + 1;
    }

    /** A copy with the same values in the same order, in slots of its own. */
    method Clone() returns (copy: List<T>)
      requires Valid()
      ensures copy.Valid() && fresh(copy)
      ensures Values(copy.Items()) == Values(Items())
    {
      copy := new List<T>();
      var index := First();
      ghost var values, copied, i := Values(Items()), Values(copy.Items()), 0;
      while index.Some?
        invariant 0 <= i <= |values| && index == KeyAt(order, i)
        invariant copy.Valid() && fresh(copy) && copied == Values(copy.Items())
        invariant copied == values[..i]
        decreases |values| - i
      {
        var v, next := Visit(index, i);
        ghost var before := copy.Items();
        var added := copy.Add(v);
        ValuesAppend(before, (added.value, v));
        TakeMore(values, i);
        copied := copied + [v];
        index := next;
        i := i + 1;
      }
      assert values[..i] == values;
    }
  }

  function Values<T>(items: seq<(nat, T)>): (vs: seq<T>)
    ensures |vs| == |items|
  {
    seq(|items|, i requires 0 <= i < |items| => items[i].1)
  }

  lemma TakeMore<T>(s: seq<T>, i: nat)
    requires i < |s|
    ensures s[..i + 1] == s[..i] + [s[i]]
  {
  }

  lemma ValuesAppend<T>(items: seq<(nat, T)>, x: (nat, T))
    ensures Values(items + [x]) == Values(items) + [x.1]
  {
  }

  /** A list that does not take a value twice. */
  class ListSet<T(==)> {
    const list: List<T>

    constructor ()
      ensures fresh(list) && list.Valid() && list.Items() == []
    {
      list := new List<T>();
    }

    /** The handle of the value: of an old element, or of a new last one if no old element has the value. */
    method AddUnique(v: T) returns (index: ListIndex)
      requires list.Valid()
      modifies list
      ensures list.Valid() && index.Some? && (index.value, v) in list.Items()
      ensures v in Values(old(list.Items())) ==> list.Items() == old(list.Items())
      ensures v !in Values(old(list.Items())) ==>
                && list.Items() == old(list.Items()) + [(index.value, v)]
                && Does(old(list.Items()), Added(index.value, v), list.Items())
    {
      index := list.FindBy(x => x == v);
      ValueAt(list.Items(), v, if index.Some? then list.Position(index.value) else |list.order|);
      if index.Some? {
        assert list.Items()[list.Position(index.value)] == (index.value, v);
        return;
      }
      ghost var items := list.Items();
      index := list.Add(v);
      assert list.Items()[|items|] == (index.value, v);
    }
  }

  /** Whether a value is among the items, from the first place where it could be. */
  lemma ValueAt<T>(items: seq<(nat, T)>, v: T, i: nat)
    requires i <= |items| && forall j :: 0 <= j < i ==> items[j].1 != v
    requires i < |items| ==> items[i].1 == v
    ensures v in Values(items) <==> i < |items|
  {
    var vs := Values(items);
    assert forall j :: 0 <= j < |items| ==> vs[j] == items[j].1;
  }

  // ---- Walks: following the links visits the list's order, and its reverse.

  function Walk<T>(slots: seq<Option<Node<T>>>, from: ListIndex, forward: bool, steps: nat): seq<nat>
    decreases steps
  {
    if steps == 0 || from.None? || from.value >= |slots| || slots[from.value].None? then []
    else
      var node := slots[from.value].value;
      [from.value] + Walk(slots, if forward then node.next else node.prev, forward, steps - 1)
  }

  /** Any number of steps from the head visits exactly the live slots from there on, in order. */
  lemma {:induction false} WalkForward<T>(slots: seq<Option<Node<T>>>, order: seq<nat>, i: nat, steps: nat)
    requires InUse(slots, order) && Linked(slots, order) && i <= |order| && steps >= |order| - i
    ensures Walk(slots, KeyAt(order, i), true, steps) == order[i..]
    decreases steps
  {
    if i < |order| {
      Neighbours(slots, order, i);
      WalkForward(slots, order, i + 1, steps - 1);
    }
  }

  function Reversed(s: seq<nat>): seq<nat> {
    if s == [] then [] else [s[|s| - 1]] + Reversed(s[..|s| - 1])
  }

  /** From the tail, the same slots in the opposite order. */
  lemma {:induction false} WalkBackward<T>(slots: seq<Option<Node<T>>>, order: seq<nat>, n: nat, steps: nat)
    requires InUse(slots, order) && Linked(slots, order) && n <= |order| && steps >= n
    ensures Walk(slots, KeyAt(order, n - 1), false, steps) == Reversed(order[..n])
    decreases steps
  {
    if n > 0 {
      Neighbours(slots, order, n - 1);
      WalkBackward(slots, order, n - 1, steps - 1);
      assert order[..n][..n - 1] == order[..n - 1];
    }
  }

  // ---- Whole runs, on the content of the list: what each method above does to `Items()`.

  datatype Op<T> = Added(key: nat, value: T) | Removed(key: nat) | Cleared

  predicate HasKey<T>(items: seq<(nat, T)>, key: nat) {
    exists i :: 0 <= i < |items| && items[i].0 == key
  }

  ghost predicate Keyed<T>(items: seq<(nat, T)>) {
    forall i, j :: 0 <= i < j < |items| ==> items[i].0 != items[j].0
  }

  /** `after` is `items` once `op` has been done. */
  ghost predicate Does<T>(items: seq<(nat, T)>, op: Op<T>, after: seq<(nat, T)>) {
    match op
    case Added(key, value) => !HasKey(items, key) && after == items + [(key, value)]
    case Removed(key) => exists i :: 0 <= i < |items| && items[i].0 == key && after == Without(items, i)
    case Cleared => after == []
  }

  ghost predicate Runs<T>(states: seq<seq<(nat, T)>>, ops: seq<Op<T>>) {
    && |states| == |ops| + 1 && Keyed(states[0])
    && forall i :: 0 <= i < |ops| ==> Does(states[i], ops[i], states[i + 1])
  }

  /** The keys of the content are the list's order. */
  lemma ContentKeys<T>(slots: seq<Option<Node<T>>>, order: seq<nat>)
    requires InUse(slots, order)
    ensures Keyed(ItemsOf(slots, order)) && forall k :: HasKey(ItemsOf(slots, order), k) <==> k in order
  {
    var items := ItemsOf(slots, order);
    assert forall i :: 0 <= i < |order| ==> items[i].0 == order[i];
  }

  /** Handle `key` is that of `value`, `x` before `y`. */
  ghost predicate Denotes<T>(items: seq<(nat, T)>, key: nat, value: T) {
    (key, value) in items
  }

  ghost predicate Before<T>(items: seq<(nat, T)>, x: nat, y: nat) {
    exists i, j :: 0 <= i < j < |items| && items[i].0 == x && items[j].0 == y
  }

  predicate Spares<T>(op: Op<T>, key: nat) {
    op.Added? || (op.Removed? && op.key != key)
  }

  lemma StepKeeps<T>(items: seq<(nat, T)>, op: Op<T>, after: seq<(nat, T)>, x: nat, y: nat, v: T)
    requires Keyed(items) && Does(items, op, after)
    ensures Keyed(after)
    ensures Spares(op, x) && Denotes(items, x, v) ==> Denotes(after, x, v)
    ensures Spares(op, x) && Spares(op, y) && Before(items, x, y) ==> Before(after, x, y)
  {
    match op
    case Added(key, value) =>
      AddedKeeps(items, key, value, x, y, v);
    case Removed(key) =>
      var i :| 0 <= i < |items| && items[i].0 == key && after == Without(items, i);
      WithoutKeeps(items, i, x, y, v);
    case Cleared =>
  }

  lemma AddedKeeps<T>(items: seq<(nat, T)>, key: nat, value: T, x: nat, y: nat, v: T)
    requires Keyed(items) && !HasKey(items, key)
    ensures var after := items + [(key, value)];
            && Keyed(after) && (Denotes(items, x, v) ==> Denotes(after, x, v))
            && (Before(items, x, y) ==> Before(after, x, y))
  {
    var after := items + [(key, value)];
    assert forall j :: 0 <= j < |items| ==> after[j] == items[j];
    if Before(items, x, y) {
      var i, j :| 0 <= i < j < |items| && items[i].0 == x && items[j].0 == y;
      assert after[i].0 == x && after[j].0 == y;
    }
  }

  lemma WithoutKeeps<T>(items: seq<(nat, T)>, i: nat, x: nat, y: nat, v: T)
    requires Keyed(items) && i < |items|
    ensures Keyed(Without(items, i))
    ensures items[i].0 != x && Denotes(items, x, v) ==> Denotes(Without(items, i), x, v)
    ensures items[i].0 != x && items[i].0 != y && Before(items, x, y) ==> Before(Without(items, i), x, y)
  {
    if items[i].0 != x {
      WithoutDenotes(items, i, x, v);
      if items[i].0 != y {
        WithoutBefore(items, i, x, y);
      }
    }
  }

  lemma WithoutDenotes<T>(items: seq<(nat, T)>, i: nat, x: nat, v: T)
    requires i < |items| && items[i].0 != x
    ensures Denotes(items, x, v) ==> Denotes(Without(items, i), x, v)
  {
    if Denotes(items, x, v) {
      var p :| 0 <= p < |items| && items[p] == (x, v);
      assert Without(items, i)[if p < i then p else p - 1] == (x, v);
    }
  }

  lemma WithoutBefore<T>(items: seq<(nat, T)>, i: nat, x: nat, y: nat)
    requires i < |items| && items[i].0 != x && items[i].0 != y
    ensures Before(items, x, y) ==> Before(Without(items, i), x, y)
  {
    if Before(items, x, y) {
      var after := Without(items, i);
      var p, q :| 0 <= p < q < |items| && items[p].0 == x && items[q].0 == y;
      var p', q' := if p < i then p else p - 1, if q < i then q else q - 1;
      assert after[p'] == items[p] && after[q'] == items[q];
    }
  }

  /** A handle denotes the same element, in the same order relative to any other one that is kept, for
      as long as no operation removes it, whatever else is added and removed and reused. */
  lemma {:induction false} HandlesAreStable<T>(states: seq<seq<(nat, T)>>, ops: seq<Op<T>>, x: nat, y: nat, v: T)
    requires Runs(states, ops) && forall op <- ops :: Spares(op, x) && Spares(op, y)
    requires Denotes(states[0], x, v)
    ensures Keyed(states[|ops|]) && Denotes(states[|ops|], x, v)
    ensures Before(states[0], x, y) ==> Before(states[|ops|], x, y)
    decreases |ops|
  {
    if ops != [] {
      var n := |ops| - 1;
      assert ops[n] in ops;
      HandlesAreStable(states[..n + 1], ops[..n], x, y, v);
      StepKeeps(states[n], ops[n], states[n + 1], x, y, v);
    }
  }

  /** What the operations last gave a handle, if nothing has taken it back since. */
  function LastGiven<T>(ops: seq<Op<T>>, x: nat): Option<T> {
    if ops == [] then None
    else
      match ops[|ops| - 1]
      case Added(key, value) => if key == x then Some(value) else LastGiven(ops[..|ops| - 1], x)
      case Removed(key) => if key == x then None else LastGiven(ops[..|ops| - 1], x)
      case Cleared => None
  }

  /** Exactly what a handle denotes after any run: what was last added under its key, be it the element it was
      first given for or, once that is gone, a later one in the reused slot. */
  lemma {:induction false} HandleDenotes<T>(states: seq<seq<(nat, T)>>, ops: seq<Op<T>>, x: nat, v: T)
    requires Runs(states, ops) && !HasKey(states[0], x)
    ensures Keyed(states[|ops|])
    ensures Denotes(states[|ops|], x, v) <==> LastGiven(ops, x) == Some(v)
    decreases |ops|
  {
    if ops != [] {
      var n := |ops| - 1;
      HandleDenotes(states[..n + 1], ops[..n], x, v);
      StepDenotes(states[n], ops[n], states[n + 1], x, v);
    }
  }

  lemma StepDenotes<T>(items: seq<(nat, T)>, op: Op<T>, after: seq<(nat, T)>, x: nat, v: T)
    requires Keyed(items) && Does(items, op, after)
    ensures Keyed(after)
    ensures Denotes(after, x, v) <==>
              match op
              case Added(key, value) => if key == x then value == v else Denotes(items, x, v)
              case Removed(key) => key != x && Denotes(items, x, v)
              case Cleared => false
  {
    match op
    case Added(key, value) =>
      AddedDenotes(items, key, value, x, v);
    case Removed(key) =>
      var i :| 0 <= i < |items| && items[i].0 == key && after == Without(items, i);
      RemovedDenotes(items, i, x, v);
    case Cleared =>
  }

  lemma AddedDenotes<T>(items: seq<(nat, T)>, key: nat, value: T, x: nat, v: T)
    requires Keyed(items) && !HasKey(items, key)
    ensures var after := items + [(key, value)];
            Keyed(after) && (Denotes(after, x, v) <==> if key == x then value == v else Denotes(items, x, v))
  {
    AddedKeeps(items, key, value, x, x, v);
    assert Denotes(items, x, v) ==> HasKey(items, x);
  }

  lemma RemovedDenotes<T>(items: seq<(nat, T)>, i: nat, x: nat, v: T)
    requires Keyed(items) && i < |items|
    ensures var after := Without(items, i);
            Keyed(after) && (Denotes(after, x, v) <==> items[i].0 != x && Denotes(items, x, v))
  {
    var after := Without(items, i);
    WithoutKeeps(items, i, x, x, v);
    if Denotes(after, x, v) {
      var p :| 0 <= p < |after| && after[p] == (x, v);
      assert items[if p < i then p else p + 1] == (x, v);
    }
  }

  ghost predicate NoDuplicates<T>(items: seq<(nat, T)>) {
    forall i, j :: 0 <= i < j < |items| ==> items[i].1 != items[j].1
  }

  /** A list that is added to only by `add_unique` (which adds a value that is not there) never holds a
      value twice, over any run with any removals. */
  lemma {:induction false} SetsHaveNoDuplicates<T>(states: seq<seq<(nat, T)>>, ops: seq<Op<T>>)
    requires Runs(states, ops) && NoDuplicates(states[0])
    requires forall i :: 0 <= i < |ops| && ops[i].Added? ==> ops[i].value !in Values(states[i])
    ensures NoDuplicates(states[|ops|])
    decreases |ops|
  {
    if ops != [] {
      var n := |ops| - 1;
      SetsHaveNoDuplicates(states[..n + 1], ops[..n]);
      StepNoDuplicates(states[n], ops[n], states[n + 1]);
    }
  }

  lemma StepNoDuplicates<T>(items: seq<(nat, T)>, op: Op<T>, after: seq<(nat, T)>)
    requires NoDuplicates(items) && Does(items, op, after) && (op.Added? ==> op.value !in Values(items))
    ensures NoDuplicates(after)
  {
    if op.Removed? {
      var i :| 0 <= i < |items| && items[i].0 == op.key && after == Without(items, i);
      assert forall j :: 0 <= j < |after| ==> after[j] == items[if j < i then j else j + 1];
    } else if op.Added? {
      assert forall j :: 0 <= j < |items| ==> Values(items)[j] == items[j].1;
    }
  }
}
