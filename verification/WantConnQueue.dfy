/**
  wantConnQueue (http/transport.go): a FIFO kept as two slices over two backing
  arrays that trade places. The queues of PoolState are its abstract value.
 */
module WantConnQueueClass {
  import opened Options
  import opened PoolState
  import opened PoolInvariant

  class WantConnQueue {
    var head: array<Option<nat>>   // backing array of the slice head[:headLen]
    var headLen: nat
    var headPos: nat
    var tail: array<Option<nat>>   // backing array of the slice tail[:tailLen]
    var tailLen: nat

    ghost predicate Valid()
      reads this, head, tail
    {
      && headPos <= headLen <= head.Length
      && tailLen <= tail.Length
      && (head == tail ==> head.Length == 0)
      && (forall i :: headPos <= i < headLen ==> head[i].Some?)
      && (forall i :: 0 <= i < tailLen ==> tail[i].Some?)
    }

    /** The queue, front first: head[headPos:] followed by tail. */
    ghost function Queue(): (q: seq<nat>)
      requires Valid()
      reads this, head, tail
    {
      seq(headLen - headPos, i requires 0 <= i < headLen - headPos
        && Valid() reads this, head, tail => head[headPos + i].value)
      + seq(tailLen, i requires 0 <= i < tailLen && Valid() reads this, head, tail => tail[i].value)
    }

    /** The zero wantConnQueue: two nil slices. */
    constructor ()
      ensures Valid() && Queue() == [] && fresh(head) && fresh(tail)
    {
      head := new Option<nat>[0];
      tail := new Option<nat>[0];
      headLen, headPos, tailLen := 0, 0, 0;
    }

    method Len() returns (n: nat)
      requires Valid()
      ensures n == |Queue()|
    {
      n := headLen - headPos + tailLen;
    }

    /** The reallocation of append: the tail moves to a larger array. */
    method Grow(grown: nat)
      requires Valid() && grown > tail.Length
      modifies this`tail
      ensures Valid() && Queue() == old(Queue()) && fresh(tail) && tail.Length == grown
    {
      ghost var q := Queue();
      var bigger := new Option<nat>[grown];
      for i := 0 to tailLen
        modifies bigger
        invariant forall j :: 0 <= j < i ==> bigger[j] == tail[j]
      {
        bigger[i] := tail[i];
      }
      tail := bigger;
      assert Queue() == q;
    }

    /** append(q.tail, w): in place while there is room, otherwise into a larger copy of capacity `grown`. */
    method PushBack(w: nat, grown: nat)
      requires Valid() && grown > tail.Length
      modifies this, tail
      ensures Valid() && Queue() == old(Queue()) + [w]
      ensures head == old(head) && (tail == old(tail) || fresh(tail))
    {
      if tailLen == tail.Length {
        Grow(grown);
      }
      ghost var q := Queue();
      tail[tailLen] := Some(w);
      tailLen := tailLen + 1;
      assert Queue()[..|q|] == q;
    }

    method PopFront() returns (w: Option<nat>)
      requires Valid()
      modifies this, head, tail
      ensures Valid() && {head, tail} == {old(head), old(tail)}
      ensures old(Queue()) == [] ==> w == None && Queue() == []
      ensures old(Queue()) != [] ==> w == Some(old(Queue())[0]) && Queue() == old(Queue())[1..]
    {
      ghost var q := Queue();
      if headPos >= headLen {
        if tailLen == 0 {
          return None;
        }
        head, headLen, headPos, tail, tailLen := tail, tailLen, 0, head, 0;
        assert Queue() == q;
      }
      w := head[headPos];
      head[headPos] := None;
      headPos := headPos + 1;
      assert Queue() == q[1..];
    }

    method PeekFront() returns (w: Option<nat>)
      requires Valid()
      ensures w == if Queue() == [] then None else Some(Queue()[0])
    {
      if headPos < headLen {
        return head[headPos];
      }
      if tailLen > 0 {
        return tail[0];
      }
      return None;
    }

    /** cleanFront: pops exactly the maximal prefix of entries that no longer wait. */
    method CleanFront(wants: seq<Want>) returns (cleaned: bool)
      requires Valid()
      modifies this, head, tail
      ensures Valid() && {head, tail} == {old(head), old(tail)}
      ensures Queue() == DropSettled(wants, old(Queue()))
      ensures cleaned <==> |Queue()| < |old(Queue())|
    {
      cleaned := false;
      while true
        invariant Valid() && {head, tail} == {old(head), old(tail)}
        invariant DropSettled(wants, Queue()) == DropSettled(wants, old(Queue()))
        invariant |Queue()| <= |old(Queue())| && (cleaned <==> |Queue()| < |old(Queue())|)
        decreases |Queue()|
      {
        var w := PeekFront();
        if w.None? || IsWaiting(wants, w.value) {
          return;
        }
        var _ := PopFront();
        cleaned := true;
      }
    }
  }
}
