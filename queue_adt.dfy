/**
 * The generic queue of QueueADT.c. Without a comparator it is a plain FIFO;
 * with one it keeps its items in comparator order by sorted insertion.
 * Removal always takes slot 0 and shifts the rest left.
 */
module QueueADT {
  import opened Wrappers

  /** Capacity of a fresh queue, and the amount a full queue grows by (INITIAL_SIZE). */
  const InitialSize: nat := 64

  /**
   * The slot a comparator insertion of `x` into `s` uses: the first index i
   * with f(x, s[i]) <= 0, or |s| when there is none.
   */
  function FirstNotAbove<T>(f: (T, T) -> int, x: T, s: seq<T>): (i: nat)
    ensures i <= |s|
    ensures forall j :: 0 <= j < i ==> f(x, s[j]) > 0
    ensures i < |s| ==> f(x, s[i]) <= 0
  {
    if s == [] then 0
    else if f(x, s[0]) <= 0 then 0
    else 1 + FirstNotAbove(f, x, s[1..])
  }

  /** The contents after que_insert of `x`: appended without a comparator, otherwise placed at FirstNotAbove. */
  function Inserted<T>(cmp: Option<(T, T) -> int>, s: seq<T>, x: T): (r: seq<T>)
    ensures |r| == |s| + 1
    ensures multiset(r) == multiset(s) + multiset{x}
    ensures cmp.None? ==> r == s + [x]
    ensures cmp.Some? ==> r == s[..FirstNotAbove(cmp.value, x, s)] + [x] + s[FirstNotAbove(cmp.value, x, s)..]
  {
    match cmp
    case None => s + [x]
    case Some(f) =>
      var i := FirstNotAbove(f, x, s);
      assert s == s[..i] + s[i..];
      s[..i] + [x] + s[i..]
  }

  /** `f(a, b) <= 0` read as "a may come before b" is total and transitive. */
  ghost predicate TotalPreorder<T(!new)>(f: (T, T) -> int)
  {
    (forall a, b :: f(a, b) <= 0 || f(b, a) <= 0) &&
    (forall a, b, c :: f(a, b) <= 0 && f(b, c) <= 0 ==> f(a, c) <= 0)
  }

  /** Non-decreasing under the comparator. */
  ghost predicate Sorted<T>(f: (T, T) -> int, s: seq<T>)
  {
    forall i, j :: 0 <= i < j < |s| ==> f(s[i], s[j]) <= 0
  }

  /** The search stops at the first index that passes the test, and at no other. */
  lemma FirstNotAboveIsFirst<T>(f: (T, T) -> int, x: T, s: seq<T>, i: nat)
    requires i <= |s|
    requires forall j :: 0 <= j < i ==> f(x, s[j]) > 0
    requires i < |s| ==> f(x, s[i]) <= 0
    ensures FirstNotAbove(f, x, s) == i
  {
  }

  /** Where each item of an insertion at slot p comes from. */
  lemma InsertAtSlot<T>(s: seq<T>, x: T, p: nat, k: nat)
    requires p <= |s| && k <= |s|
    ensures (s[..p] + [x] + s[p..])[k] == if k < p then s[k] else if k == p then x else s[k - 1]
  {
  }

  /** Sorted insertion keeps a sorted queue sorted. */
  lemma InsertKeepsSorted<T(!new)>(f: (T, T) -> int, s: seq<T>, x: T)
    requires TotalPreorder(f) && Sorted(f, s)
    ensures Sorted(f, Inserted(Some(f), s, x))
  {
    var p := FirstNotAbove(f, x, s);
    var r := Inserted(Some(f), s, x);
    assert r == s[..p] + [x] + s[p..];
    forall i, j | 0 <= i < j < |r|
      ensures f(r[i], r[j]) <= 0
    {
      InsertAtSlot(s, x, p, i);
      InsertAtSlot(s, x, p, j);
      if i < p && j == p {
        assert f(x, s[i]) > 0;
      } else if i == p && j - 1 > p {
        assert f(x, s[p]) <= 0 && f(s[p], s[j - 1]) <= 0;
      }
    }
  }

  /** An item that compares equal to (or below) an element already queued lands before it. */
  lemma NewestEqualComesFirst<T>(f: (T, T) -> int, s: seq<T>, x: T, k: nat)
    requires k < |s| && f(x, s[k]) <= 0
    ensures FirstNotAbove(f, x, s) <= k
    ensures Inserted(Some(f), s, x)[FirstNotAbove(f, x, s)] == x
    ensures Inserted(Some(f), s, x)[k + 1] == s[k]
  {
  }

  /** struct queue_s: the first currentSize slots of currentQueue are the queue. */
  class Queue<T(0)> {
    var currentQueue: array<T>
    var currentSize: int
    var maxSize: int
    const cmp: Option<(T, T) -> int>

    ghost predicate Valid()
      reads this
    {
      0 <= currentSize <= maxSize && maxSize == currentQueue.Length && maxSize >= InitialSize
    }

    /** The queued items, front first. */
    ghost function Contents(): seq<T>
      reads this, currentQueue
      requires Valid()
    {
      currentQueue[..currentSize]
    }

    /** que_create; None stands for a NULL comparator. */
    constructor (cmp: Option<(T, T) -> int>)
      ensures Valid() && fresh(currentQueue)
      ensures currentSize == 0 && maxSize == InitialSize && this.cmp == cmp
      ensures Contents() == []
    {
      currentQueue := new T[InitialSize];
      currentSize := 0;
      maxSize := InitialSize;
      this.cmp := cmp;
    }

    /**
     * que_insert. A full queue is first moved to an array InitialSize slots
     * larger holding the same items, and the insertion is then retried.
     */
    method Insert(data: T)
      requires Valid()
      modifies this, currentQueue
      ensures Valid()
      ensures Contents() == Inserted(cmp, old(Contents()), data)
      ensures currentSize == old(currentSize) + 1
      ensures maxSize == if old(currentSize) == old(maxSize) then old(maxSize) + InitialSize else old(maxSize)
      ensures old(currentSize) != old(maxSize) ==> currentQueue == old(currentQueue)
      ensures old(currentSize) == old(maxSize) ==> fresh(currentQueue)
      decreases if currentSize == maxSize then 1 else 0
    {
      if currentSize != maxSize {
        if cmp.None? {
          currentQueue[currentSize] := data;
          currentSize := currentSize + 1;
        } else {
          InsertInOrder(data);
        }
      } else {
        var temp := new T[maxSize + InitialSize];
        var i := 0;
        while i < maxSize
          modifies temp
          invariant 0 <= i <= maxSize
          invariant temp[..i] == currentQueue[..i]
        {
          temp[i] := currentQueue[i];
          i := i + 1;
        }
        assert temp[..currentSize] == old(Contents());
        currentQueue := temp;
        maxSize := maxSize + InitialSize;
        Insert(data);
      }
    }

    /**
     * The body of que_insert's comparator branch once slot i is chosen:
     * slots [i, currentSize) move one slot right and `data` goes to slot i.
     */
    method InsertAt(i: int, data: T)
      requires Valid() && 0 <= i <= currentSize < maxSize
      modifies this, currentQueue
      ensures Valid() && currentQueue == old(currentQueue) && maxSize == old(maxSize)
      ensures Contents() == old(Contents())[..i] + [data] + old(Contents())[i..]
      ensures currentSize == old(currentSize) + 1
    {
      ghost var s := currentQueue[..currentSize];
      var j := currentSize;
      while j > i
        modifies currentQueue
        invariant i <= j <= currentSize
        invariant forall k :: 0 <= k < j ==> currentQueue[k] == s[k]
        invariant forall k :: j < k <= currentSize ==> currentQueue[k] == s[k - 1]
      {
        currentQueue[j] := currentQueue[j - 1];
        j := j - 1;
      }
      currentQueue[i] := data;
      currentSize := currentSize + 1;
      assert currentQueue[..currentSize] == s[..i] + [data] + s[i..];
    }

    /**
     * The comparator branch of que_insert: the first slot i whose item the
     * new one does not compare above receives it once slots [i, currentSize)
     * have moved one slot right; with no such slot it is appended.
     */
    method InsertInOrder(data: T)
      requires Valid() && currentSize < maxSize && cmp.Some?
      modifies this, currentQueue
      ensures Valid() && currentQueue == old(currentQueue) && maxSize == old(maxSize)
      ensures Contents() == Inserted(cmp, old(Contents()), data)
      ensures currentSize == old(currentSize) + 1
    {
      ghost var s := currentQueue[..currentSize];
      var i := 0;
      while i < currentSize
        invariant 0 <= i <= currentSize
        invariant Valid() && currentSize == |s| && currentQueue[..currentSize] == s
        invariant currentQueue == old(currentQueue) && maxSize == old(maxSize)
        invariant forall k :: 0 <= k < i ==> cmp.value(data, s[k]) > 0
      {
        if cmp.value(data, currentQueue[i]) <= 0 {
          FirstNotAboveIsFirst(cmp.value, data, s, i);
          InsertAt(i, data);
          return;
        }
        i := i + 1;
      }
      FirstNotAboveIsFirst(cmp.value, data, s, i);
      currentQueue[currentSize] := data;
      currentSize := currentSize + 1;
      assert currentQueue[..currentSize] == s + [data];
    }

    /**
     * que_remove: returns slot 0 and moves every later item one slot left.
     * The C asserts that the queue is not empty.
     */
    method Remove() returns (rValue: T)
      requires Valid() && currentSize != 0
      modifies this, currentQueue
      ensures Valid()
      ensures rValue == old(Contents())[0] && Contents() == old(Contents())[1..]
      ensures currentSize == old(currentSize) - 1
      ensures maxSize == old(maxSize) && currentQueue == old(currentQueue)
    {
      ghost var s := currentQueue[..currentSize];
      rValue := currentQueue[0];
      var i := 0;
      while i < currentSize - 1
        modifies currentQueue
        invariant 0 <= i <= currentSize - 1
        invariant forall k :: 0 <= k < i ==> currentQueue[k] == s[k + 1]
        invariant forall k :: i <= k < currentSize ==> currentQueue[k] == s[k]
      {
        currentQueue[i] := currentQueue[i + 1];
        i := i + 1;
      }
      currentSize := currentSize - 1;
      assert currentQueue[..currentSize] == s[1..];
    }

    /** que_empty */
    function IsEmpty(): (e: bool)
      reads this, currentQueue
      requires Valid()
      ensures e <==> Contents() == []
    {
      currentSize == 0
    }
  }
}
