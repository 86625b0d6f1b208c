/**
 * The BFS frontier of MazeQueue.c: an array of MazeNode records with a head
 * index that only moves forward. Dequeued entries stay in the array, so
 * `Find` can still see them when a predecessor chain is followed.
 */
module MazeQueue {
  import opened Wrappers

  /** Capacity of a freshly created queue (INITIAL_SIZE). */
  const InitialSize: nat := 2

  /** The C `unsigned short` and `short` ranges of the node fields. */
  type UShort = x: int | 0 <= x < 0x1_0000
  type Short = x: int | -0x8000 <= x < 0x8000

  /**
   * A cell of the grid and the cell it was reached from. The predecessor
   * fields are signed, so that -1 can mark the start node. Nodes are never
   * changed after creation.
   */
  datatype MazeNode = MazeNode(currentR: UShort, currentC: UShort, previousR: Short, previousC: Short)

  /** que_create_node: the accessors give back the four values the node was made from. */
  function CreateNode(currentR: UShort, currentC: UShort, previousR: Short, previousC: Short): (node: MazeNode)
    ensures GetCurrentR(node) == currentR && GetCurrentC(node) == currentC
    ensures GetPreviousR(node) == previousR && GetPreviousC(node) == previousC
  {
    MazeNode(currentR, currentC, previousR, previousC)
  }

  /** node_get_currentR: the row that, with the other three fields, makes up the node. */
  function GetCurrentR(node: MazeNode): (r: UShort)
    ensures node == MazeNode(r, node.currentC, node.previousR, node.previousC)
  {
    node.currentR
  }

  /** node_get_currentC */
  function GetCurrentC(node: MazeNode): (c: UShort)
    ensures node == MazeNode(node.currentR, c, node.previousR, node.previousC)
  {
    node.currentC
  }

  /** node_get_previousR */
  function GetPreviousR(node: MazeNode): (pr: Short)
    ensures node == MazeNode(node.currentR, node.currentC, pr, node.previousC)
  {
    node.previousR
  }

  /** node_get_previousC */
  function GetPreviousC(node: MazeNode): (pc: Short)
    ensures node == MazeNode(node.currentR, node.currentC, node.previousR, pc)
  {
    node.previousC
  }

  /** Each accessor returns the argument the node was created with, and nodes are equal exactly when their four fields are. */
  lemma AccessorsReturnFields(r: UShort, c: UShort, pr: Short, pc: Short, node: MazeNode)
    ensures GetCurrentR(CreateNode(r, c, pr, pc)) == r && GetCurrentC(CreateNode(r, c, pr, pc)) == c
    ensures GetPreviousR(CreateNode(r, c, pr, pc)) == pr && GetPreviousC(CreateNode(r, c, pr, pc)) == pc
    ensures CreateNode(GetCurrentR(node), GetCurrentC(node), GetPreviousR(node), GetPreviousC(node)) == node
  {
  }

  /**
   * The test in que_find: the unsigned fields are compared with the signed
   * arguments after both are promoted to int, so a negative argument and a
   * field above 32767 never match.
   */
  predicate Matches(node: MazeNode, r: Short, c: Short)
  {
    node.currentC == c && node.currentR == r
  }

  /**
   * The index que_find stops at in `s` (the slots [0, currentEnd)): the
   * highest index at or above 1 whose node matches, or None. Index 0 is
   * never examined.
   */
  function LastMatch(s: seq<MazeNode>, r: Short, c: Short): (k: Option<nat>)
    ensures k.Some? ==> 1 <= k.value < |s| && Matches(s[k.value], r, c)
    ensures k.Some? ==> forall j :: k.value < j < |s| ==> !Matches(s[j], r, c)
    ensures k.None? <==> forall j :: 1 <= j < |s| ==> !Matches(s[j], r, c)
  {
    if |s| <= 1 then None
    else if Matches(s[|s| - 1], r, c) then Some(|s| - 1)
    else LastMatch(s[..|s| - 1], r, c)
  }

  /**
   * The node que_find returns, None standing for NULL: a matching node from
   * slot 1 or above, and None only when no such slot matches.
   */
  function Lookup(s: seq<MazeNode>, r: Short, c: Short): (found: Option<MazeNode>)
    ensures found.Some? ==> |s| > 1 && Matches(found.value, r, c) && found.value in s[1..]
    ensures found.None? <==> forall j :: 1 <= j < |s| ==> !Matches(s[j], r, c)
  {
    match LastMatch(s, r, c)
    case Some(k) => Some(s[k])
    case None => None
  }

  /** Appending a node: it is found if it matches, otherwise the earlier answer stands. */
  lemma LastMatchAfterAppend(s: seq<MazeNode>, node: MazeNode, r: Short, c: Short)
    requires |s| >= 1
    ensures LastMatch(s + [node], r, c) == if Matches(node, r, c) then Some(|s|) else LastMatch(s, r, c)
  {
  }

  /** Whatever sits in slot 0 (in BFS, the start cell), the search never looks at it. */
  lemma {:induction false} LastMatchIgnoresSlotZero(s: seq<MazeNode>, other: MazeNode, r: Short, c: Short)
    requires |s| >= 1
    ensures LastMatch([other] + s[1..], r, c) == LastMatch(s, r, c)
    decreases |s|
  {
    var t := [other] + s[1..];
    if |s| > 1 {
      assert t[|t| - 1] == s[|s| - 1];
      assert t[..|t| - 1] == [other] + s[..|s| - 1][1..];
      LastMatchIgnoresSlotZero(s[..|s| - 1], other, r, c);
    }
  }

  /**
   * struct maze_queue_s. The slots [0, currentEnd) hold every node ever
   * inserted; [currentStart, currentEnd) are the ones not yet dequeued.
   */
  class Queue {
    var currentQueue: array<MazeNode>
    var currentStart: int
    var currentEnd: int
    var maxSize: int

    ghost predicate Valid()
      reads this
    {
      0 <= currentStart <= currentEnd <= maxSize &&
      maxSize == currentQueue.Length && maxSize >= InitialSize
    }

    /** Every node inserted so far, dequeued or not, in insertion order. */
    ghost function Entries(): seq<MazeNode>
      reads this, currentQueue
      requires Valid()
    {
      currentQueue[..currentEnd]
    }

    /** The nodes still waiting in the queue, oldest first. */
    ghost function Pending(): seq<MazeNode>
      reads this, currentQueue
      requires Valid()
    {
      currentQueue[currentStart..currentEnd]
    }

    /** que_create */
    constructor ()
      ensures Valid() && fresh(currentQueue)
      ensures currentStart == 0 && currentEnd == 0 && maxSize == InitialSize
      ensures Entries() == [] && Pending() == []
    {
      currentQueue := new MazeNode[InitialSize];
      currentStart := 0;
      currentEnd := 0;
      maxSize := InitialSize;
    }

    /**
     * que_insert: the node goes to slot currentEnd. A full array is first
     * replaced by one of twice the size holding the same slots, and the
     * insertion is then retried.
     */
    method Insert(node: MazeNode)
      requires Valid()
      modifies this, currentQueue
      ensures Valid()
      ensures Entries() == old(Entries()) + [node]
      ensures Pending() == old(Pending()) + [node]
      ensures currentStart == old(currentStart) && currentEnd == old(currentEnd) + 1
      ensures maxSize == if old(currentEnd) == old(maxSize) then 2 * old(maxSize) else old(maxSize)
      ensures old(currentEnd) != old(maxSize) ==> currentQueue == old(currentQueue)
      ensures old(currentEnd) == old(maxSize) ==> fresh(currentQueue)
      decreases if currentEnd == maxSize then 1 else 0
    {
      if currentEnd != maxSize {
        currentQueue[currentEnd] := node;
        currentEnd := currentEnd + 1;
      } else {
        var temp := new MazeNode[2 * maxSize];
        var i := 0;
        while i < maxSize
          modifies temp
          invariant 0 <= i <= maxSize
          invariant temp[..i] == currentQueue[..i]
        {
          temp[i] := currentQueue[i];
          i := i + 1;
        }
        assert temp[..currentEnd] == old(Entries());
        currentQueue := temp;
        maxSize := maxSize * 2;
        Insert(node);
      }
    }

    /** que_empty */
    function IsEmpty(): (e: bool)
      reads this, currentQueue
      requires Valid()
      ensures e <==> Pending() == []
    {
      currentEnd == currentStart
    }

    /**
     * que_next: returns the oldest pending node and moves the head past it.
     * The slots are left as they are. The C asserts that the queue is not
     * empty.
     */
    method Next() returns (nextNode: MazeNode)
      requires Valid() && !IsEmpty()
      modifies this
      ensures Valid()
      ensures nextNode == old(Pending())[0] && Pending() == old(Pending())[1..]
      ensures Entries() == old(Entries()) && currentQueue == old(currentQueue)
      ensures currentStart == old(currentStart) + 1 && currentEnd == old(currentEnd)
      ensures nextNode == Entries()[old(currentStart)]
      ensures maxSize == old(maxSize)
    {
      nextNode := currentQueue[currentStart];
      currentStart := currentStart + 1;
    }

    /**
     * que_find: scans the slots from currentEnd - 1 down to 1, dequeued
     * ones included, and returns the first node whose coordinates match.
     */
    method Find(currentR: Short, currentC: Short) returns (found: Option<MazeNode>)
      requires Valid()
      ensures found == Lookup(Entries(), currentR, currentC)
      ensures found.Some? ==> found.value in Entries()[1..]
    {
      var i := currentEnd - 1;
      while i > 0
        invariant -1 <= i < currentEnd
        invariant forall j :: i < j < currentEnd ==> !Matches(currentQueue[j], currentR, currentC)
      {
        if currentQueue[i].currentC == currentC && currentQueue[i].currentR == currentR {
          assert Matches(Entries()[i], currentR, currentC);
          return Some(currentQueue[i]);
        }
        i := i - 1;
      }
      return None;
    }
  }
}
