// MtQueue: a ring of one more element than the queue may hold, with a head and a tail index.
module MessageQueue {
  import opened Words

  datatype Code = None_ | Full | Empty | MemError

  /** The entries from tail up to head, around the end of the ring. */
  function Between<T>(ring: seq<T>, tail: nat, head: nat): (s: seq<T>)
    requires tail < |ring| && head < |ring|
    ensures |s| == Distance(|ring|, tail, head)
  {
    if tail <= head then ring[tail..head] else ring[tail..] + ring[..head]
  }

  function Distance(n: nat, tail: nat, head: nat): nat
    requires tail < n && head < n
  {
    if tail <= head then head - tail else n - tail + head
  }

  lemma {:induction false} NextIndex(n: nat, i: nat)
    requires i < n
    ensures (i + 1) % n == if i + 1 == n then 0 else i + 1
  {
  }

  lemma CountWraps(n: nat)
    requires n < U32
    ensures Wrap32(n + 1) == if n == U32 - 1 then 0 else n + 1
  {
    if n == U32 - 1 {
      Wrap32Unique(n + 1, 1, 0);
    } else {
      Wrap32Unique(n + 1, 0, n + 1);
    }
  }

  lemma OldestFirst<T>(ring: seq<T>, tail: nat, head: nat, next: nat)
    requires tail < |ring| && head < |ring| && tail != head && next == if tail + 1 == |ring| then 0 else tail + 1
    ensures Between(ring, tail, head) == [ring[tail]] + Between(ring, next, head)
  {
  }

  lemma NewestLast<T>(ring: seq<T>, tail: nat, head: nat, next: nat, msg: T)
    requires tail < |ring| && head < |ring| && tail != next && next == if head + 1 == |ring| then 0 else head + 1
    ensures Between(ring[head := msg], tail, next) == Between(ring, tail, head) + [msg]
  {
  }

  class MtQueue<T(0)> {
    const cElements: nat
    const ring: array<T>
    var head: nat
    var tail: nat
    var locked: bool

    ghost predicate Valid()
      reads this
    {
      ring.Length == cElements && 0 < cElements < U32 && head < cElements && tail < cElements
    }

    /** The messages in the queue, oldest first. */
    ghost function Contents(): seq<T>
      requires Valid()
      reads this, ring
    {
      Between(ring[..], tail, head)
    }

    /** Initialize; the ring has room for one element that stays unused, unless the count wraps to 0. */
    constructor (nElementCount: nat)
      requires nElementCount < U32
      ensures fresh(ring) && ring.Length == cElements && head == tail == 0 && !locked
      ensures cElements == if nElementCount == U32 - 1 then 0 else nElementCount + 1
      ensures Valid() <==> nElementCount < U32 - 1
      ensures Valid() ==> Contents() == []
    {
      CountWraps(nElementCount);
      cElements := Wrap32(nElementCount + 1);
      ring := new T[Wrap32(nElementCount + 1)];
      head, tail, locked := 0, 0, false;
    }

    predicate IsFull()
      requires Valid()
      reads this
    {
      (head + 1) % cElements == tail
    }

    predicate IsEmpty()
      requires Valid()
      reads this
    {
      head == tail
    }

    lemma FullIff()
      requires Valid()
      ensures IsFull() <==> |Contents()| == cElements - 1
      ensures IsEmpty() <==> Contents() == []
      ensures |Contents()| <= cElements - 1
    {
      NextIndex(cElements, head);
    }

    method Lock()
      requires !locked
      modifies `locked
      ensures locked
    {
      locked := true;
    }

    method Unlock()
      requires locked
      modifies `locked
      ensures !locked
    {
      locked := false;
    }

    /** While this thread does not have the mutex, others may change the queue in any way. */
    method Others()
      requires Valid() && !locked
      modifies `head, `tail, ring
      ensures Valid() && !locked
    {
      var h: nat :| h < cElements;
      var t: nat :| t < cElements;
      head, tail := h, t;
      modify ring;
    }

    /** Tries for the mutex until there is room; seen is the queue as it was each time the mutex was taken. */
    method AwaitRoom(retries: nat) returns (ok: bool, ghost seen: seq<seq<T>>)
      requires Valid() && !locked && retries > 0
      modifies this, ring
      ensures Valid() && locked == ok
      ensures 0 < |seen| <= retries && seen[0] == old(Contents()) && seen[|seen| - 1] == Contents()
      ensures forall i :: 0 <= i < |seen| - 1 ==> |seen[i]| == cElements - 1
      ensures ok <==> |Contents()| < cElements - 1
      ensures !ok ==> |seen| == retries
    {
      hide Between;
      var cTries := 0;
      seen := [];
      while cTries < retries
        invariant Valid() && !locked && |seen| == cTries <= retries
        invariant seen == [] ==> Contents() == old(Contents())
        invariant seen != [] ==> seen[0] == old(Contents()) && seen[|seen| - 1] == Contents()
        invariant forall i :: 0 <= i < |seen| ==> |seen[i]| == cElements - 1
      {
        if cTries > 0 {
          Others();
        }
        Lock();
        FullIff();
        seen := seen + [Contents()];
        if !IsFull() {
          return true, seen;
        }
        Unlock();
        cTries := cTries + 1;
      }
      ok := false;
    }

    /** Writes at the head, and moves it on. */
    method Put(msg: T)
      requires Valid() && |Contents()| < cElements - 1
      modifies `head, ring
      ensures Valid() && Contents() == old(Contents()) + [msg]
    {
      FullIff();
      NextIndex(cElements, head);
      NewestLast(ring[..], tail, head, (head + 1) % cElements, msg);
      ring[head] := msg;
      assert ring[..] == old(ring[..])[head := msg];
      head := (head + 1) % cElements;
    }

    /** The outcome is decided by the queue as it was at the last try. memory says whether malloc succeeds. */
    method Enqueue(msg: T, nRetries: nat, memory: bool) returns (code: Code, ghost seen: seq<seq<T>>)
      requires Valid() && !locked
      modifies this, ring
      ensures Valid() && !locked
      ensures 0 < |seen| <= (if nRetries == 0 then 1 else nRetries) && seen[0] == old(Contents())
      ensures forall i :: 0 <= i < |seen| - 1 ==> |seen[i]| == cElements - 1
      ensures var last := seen[|seen| - 1];
        && code == (if |last| == cElements - 1 then Full else if memory then None_ else MemError)
        && Contents() == if code == None_ then last + [msg] else last
      ensures code == Full ==> |seen| == if nRetries == 0 then 1 else nRetries
    {
      hide Between;
      var ok;
      ok, seen := AwaitRoom(if nRetries == 0 then 1 else nRetries);
      FullIff();
      if !ok {
        return Full, seen;
      }
      if !memory {
        Unlock();
        return MemError, seen;
      }
      Put(msg);
      Unlock();
      code := None_;
    }

    /** Tries for the mutex until there is a message. */
    method AwaitMessage(retries: nat) returns (ok: bool, ghost seen: seq<seq<T>>)
      requires Valid() && !locked && retries > 0
      modifies this, ring
      ensures Valid() && locked == ok
      ensures 0 < |seen| <= retries && seen[0] == old(Contents()) && seen[|seen| - 1] == Contents()
      ensures forall i :: 0 <= i < |seen| - 1 ==> seen[i] == []
      ensures ok <==> Contents() != []
      ensures !ok ==> |seen| == retries
    {
      hide Between;
      var cTries := 0;
      seen := [];
      while cTries < retries
        invariant Valid() && !locked && |seen| == cTries <= retries
        invariant seen == [] ==> Contents() == old(Contents())
        invariant seen != [] ==> seen[0] == old(Contents()) && seen[|seen| - 1] == Contents()
        invariant forall i :: 0 <= i < |seen| ==> seen[i] == []
      {
        if cTries > 0 {
          Others();
        }
        Lock();
        FullIff();
        seen := seen + [Contents()];
        if !IsEmpty() {
          return true, seen;
        }
        Unlock();
        cTries := cTries + 1;
      }
      ok := false;
    }

    /** Reads at the tail, and moves it on. */
    method Take() returns (msg: T)
      requires Valid() && Contents() != []
      modifies `tail
      ensures Valid() && [msg] + Contents() == old(Contents())
    {
      FullIff();
      NextIndex(cElements, tail);
      OldestFirst(ring[..], tail, head, (tail + 1) % cElements);
      msg := ring[tail];
      tail := (tail + 1) % cElements;
    }

    method Dequeue(nRetries: nat) returns (code: Code, msg: Option<T>, ghost seen: seq<seq<T>>)
      requires Valid() && !locked
      modifies this, ring
      ensures Valid() && !locked
      ensures 0 < |seen| <= (if nRetries == 0 then 1 else nRetries) && seen[0] == old(Contents())
      ensures forall i :: 0 <= i < |seen| - 1 ==> seen[i] == []
      ensures var last := seen[|seen| - 1];
        if last == [] then code == Empty && msg == None && Contents() == last
        else code == None_ && msg.Some? && [msg.value] + Contents() == last
      ensures code == Empty ==> |seen| == if nRetries == 0 then 1 else nRetries
    {
      hide Between;
      var ok;
      ok, seen := AwaitMessage(if nRetries == 0 then 1 else nRetries);
      if !ok {
        return Empty, None, seen;
      }
      var m := Take();
      Unlock();
      code, msg := None_, Some(m);
    }

    /** The loop of Purge: from head around the ring to tail, which leaves the queue empty. */
    method Purge(blank: T)
      requires Valid() && !locked
      modifies this, ring
      ensures Valid() && !locked && Contents() == []
    {
      Lock();
      if !IsEmpty() {
        ring[head] := blank;
        NextIndex(cElements, head);
        head := (head + 1) % cElements;
        while head != tail
          invariant Valid() && locked
          decreases Distance(cElements, head, tail)
        {
          ring[head] := blank;
          NextIndex(cElements, head);
          head := (head + 1) % cElements;
        }
      }
      Unlock();
    }
  }
}
