/**
 The USB read slots (`SubmitPendingReads`, `ReadCompleteBundled_Impl` and
 `StopAsyncRead` in usb_can_driver/usb_can_driver.cpp): sixteen slots, each free or
 in flight, and a count of those in flight. Which reads the pipe accepts and
 completes is up to the environment.
 */
module RxSlots {
  import opened Arithmetic
  import opened Results

  const RX_RING_SIZE := 16

  datatype Slot = Free | Inflight | Ready

  /** How many slots are in flight. */
  function InflightCount(s: seq<Slot>): (n: nat)
    ensures n <= |s|
  {
    if s == [] then 0
    else InflightCount(s[..|s| - 1]) + if s[|s| - 1].Inflight? then 1 else 0
  }

  lemma {:induction false} CountUpdate(s: seq<Slot>, i: nat, v: Slot)
    requires i < |s|
    ensures InflightCount(s[i := v])
         == InflightCount(s) - (if s[i].Inflight? then 1 else 0) + (if v.Inflight? then 1 else 0)
  {
    var n, u := |s| - 1, s[i := v];
    if i == n {
      assert u[..n] == s[..n];
    } else {
      assert u[..n] == s[..n][i := v];
      CountUpdate(s[..n], i, v);
    }
  }

  lemma {:induction false} CountFree(s: seq<Slot>)
    requires forall i :: 0 <= i < |s| ==> s[i].Free?
    ensures InflightCount(s) == 0
  {
    if s != [] {
      CountFree(s[..|s| - 1]);
    }
  }

  /** A run of slots that a submit may use: free, contiguous, from the first free slot
      on, and as long as possible. */
  ghost predicate IsFirstFreeRun(s: seq<Slot>, start: nat, count: nat) {
    && start + count <= |s|
    && (forall i :: 0 <= i < start ==> !s[i].Free?)
    && (forall i :: start <= i < start + count ==> s[i].Free?)
    && (start + count < |s| ==> !s[start + count].Free?)
    && (count == 0 ==> start == |s|)
  }

  lemma FirstFreeRunIsUnique(s: seq<Slot>, start: nat, count: nat, start': nat, count': nat)
    requires IsFirstFreeRun(s, start, count) && IsFirstFreeRun(s, start', count')
    ensures start == start' && count == count'
  {
    assert count > 0 ==> s[start].Free?;
    assert count' > 0 ==> s[start'].Free?;
  }

  /** The i-th slot from `start` on, around the ring. */
  function At(start: nat, i: nat): (k: nat)
    requires start < RX_RING_SIZE && i < RX_RING_SIZE
    ensures k < RX_RING_SIZE
    ensures k == if start + i < RX_RING_SIZE then start + i else start + i - RX_RING_SIZE
  {
    WrapOnce(start + i, RX_RING_SIZE);
    (start + i) % RX_RING_SIZE
  }

  /** `s` with n slots from `start` on set to v. */
  function Marked(s: seq<Slot>, start: nat, n: nat, v: Slot): (r: seq<Slot>)
    requires |s| == RX_RING_SIZE && start < RX_RING_SIZE && n <= RX_RING_SIZE
    ensures |r| == |s|
  {
    if n == 0 then s else Marked(s, start, n - 1, v)[At(start, n - 1) := v]
  }

  /** Exactly the n slots from `start` on are set, counted around the ring. */
  lemma {:induction false} MarkedAt(s: seq<Slot>, start: nat, n: nat, v: Slot, k: nat)
    requires |s| == RX_RING_SIZE && k < RX_RING_SIZE && start < RX_RING_SIZE && n <= RX_RING_SIZE
    ensures Marked(s, start, n, v)[k] == if k - start < n - RX_RING_SIZE || 0 <= k - start < n then v else s[k]
  {
    if n > 0 {
      MarkedAt(s, start, n - 1, v, k);
    }
  }

  /** Every slot of the run is in flight, or every one is not. */
  ghost predicate AllInflight(s: seq<Slot>, start: nat, n: nat, b: bool)
    requires |s| == RX_RING_SIZE && start < RX_RING_SIZE && n <= RX_RING_SIZE
  {
    forall i :: 0 <= i < n ==> s[At(start, i)].Inflight? == b
  }

  lemma {:induction false} MarkedCount(s: seq<Slot>, start: nat, n: nat, v: Slot)
    requires |s| == RX_RING_SIZE && start < RX_RING_SIZE && n <= RX_RING_SIZE
    requires AllInflight(s, start, n, !v.Inflight?)
    ensures InflightCount(Marked(s, start, n, v)) == if v.Inflight? then InflightCount(s) + n else InflightCount(s) - n
  {
    if n > 0 {
      MarkedCount(s, start, n - 1, v);
      MarkedAt(s, start, n - 1, v, At(start, n - 1));
      CountUpdate(Marked(s, start, n - 1, v), At(start, n - 1), v);
    }
  }

  class Reader {
    const slots: array<Slot>
    var inFlight: nat
    var isRunning: bool

    ghost predicate Valid()
      reads this, slots
    {
      slots.Length == RX_RING_SIZE && inFlight == InflightCount(slots[..])
    }

    constructor ()
      ensures Valid() && fresh(slots) && inFlight == 0 && !isRunning
      ensures slots.Length == 16 && forall i :: 0 <= i < 16 ==> slots[i].Free?
    {
      slots := new Slot[RX_RING_SIZE](i => Free);
      inFlight, isRunning := 0, false;
      new;
      CountFree(slots[..]);
    }

    /** The search for slots to submit. The second loop looks for free slots before the
        first free one, so it never finds any. */
    method FindFreeRun() returns (start: nat, count: nat)
      requires slots.Length == RX_RING_SIZE
      ensures IsFirstFreeRun(slots[..], start, count)
    {
      start, count := RX_RING_SIZE, 0;
      var i := 0;
      var found, ended := false, false;
      while i < RX_RING_SIZE && !ended
        invariant 0 <= i <= RX_RING_SIZE
        invariant !found ==> count == 0 && start == RX_RING_SIZE && !ended
        invariant !found ==> forall k :: 0 <= k < i ==> !slots[k].Free?
        invariant found ==> count > 0 && start + count == i && forall k :: 0 <= k < start ==> !slots[k].Free?
        invariant found ==> forall k :: start <= k < start + count ==> slots[k].Free?
        invariant ended ==> i < RX_RING_SIZE && !slots[i].Free?
        decreases RX_RING_SIZE - i, !ended
      {
        if slots[i].Free? {
          if !found {
            start, found := i, true;
          }
          count, i := count + 1, i + 1;
        } else if found {
          ended := true;
        } else {
          i := i + 1;
        }
      }
      if found && start + count == RX_RING_SIZE {
        var more := LeadingFree(start);
        count := count + more;
      }
    }

    /** How many free slots there are at the beginning, up to `limit`. */
    method LeadingFree(limit: nat) returns (n: nat)
      requires slots.Length == RX_RING_SIZE && limit <= RX_RING_SIZE
      ensures n <= limit && (n > 0 ==> slots[0].Free?)
      ensures n < limit ==> !slots[n].Free?
    {
      n := 0;
      while n < limit && slots[n].Free?
        invariant n <= limit && forall k :: 0 <= k < n ==> slots[k].Free?
      {
        n := n + 1;
      }
    }

    /** Submits the free slots; the pipe answers with `ret` and how many it took. */
    method SubmitPendingReads(ret: Status, accepted: nat, ghost start: nat, ghost count: nat)
      returns (status: Status)
      requires Valid() && IsFirstFreeRun(slots[..], start, count) && accepted <= count
      modifies this`inFlight, slots
      ensures Valid()
      ensures status == if !isRunning then NotReady else if count == 0 then Success else ret
      ensures
        var taken := if isRunning && ret == Success then accepted else 0;
        && (if taken == 0 then slots[..] == old(slots[..])
            else slots[..] == Marked(old(slots[..]), start, taken, Inflight))
        && inFlight == old(inFlight) + taken
    {
      if !isRunning {
        return NotReady;
      }
      var first, n := FindFreeRun();
      FirstFreeRunIsUnique(slots[..], start, count, first, n);
      if n == 0 {
        return Success;
      }
      if ret == Success && accepted > 0 {
        ghost var before := slots[..];
        MarkedCount(before, first, accepted, Inflight);
        for i := 0 to accepted
          invariant slots[..] == Marked(before, first, i, Inflight) && inFlight == old(inFlight)
        {
          slots[At(first, i)] := Inflight;
        }
        inFlight := inFlight + accepted;
      }
      status := ret;
    }

    /** The slots of a batch of completions become free. */
    method FreeCompleted(index: nat, completed: nat)
      requires Valid() && index < RX_RING_SIZE && completed <= RX_RING_SIZE
      requires AllInflight(slots[..], index, completed, true)
      modifies this`inFlight, slots
      ensures Valid()
      ensures slots[..] == Marked(old(slots[..]), index, completed, Free)
      ensures inFlight == old(inFlight) - completed
    {
      ghost var before := slots[..];
      MarkedCount(before, index, completed, Free);
      for i := 0 to completed
        invariant slots[..] == Marked(before, index, i, Free)
        invariant inFlight == InflightCount(before) - i
      {
        if inFlight > 0 {
          inFlight := inFlight - 1;
        }
        slots[At(index, i)] := Free;
      }
    }

    /** A batch of completions: the slots become free and are submitted again. The pipe
        completes only reads that are in flight, and answers the submit. */
    method ReadCompleteBundled(index: nat, completed: nat, ret: Status, accepted: nat,
                               ghost start: nat, ghost count: nat)
      requires Valid() && index < RX_RING_SIZE && completed <= RX_RING_SIZE
      requires AllInflight(slots[..], index, completed, true)
      requires IsFirstFreeRun(Marked(slots[..], index, completed, Free), start, count) && accepted <= count
      modifies this`inFlight, slots
      ensures Valid()
      ensures
        var freed := Marked(old(slots[..]), index, completed, Free);
        var taken := if isRunning && ret == Success then accepted else 0;
        && (if taken == 0 then slots[..] == freed else slots[..] == Marked(freed, start, taken, Inflight))
        && inFlight == old(inFlight) - completed + taken
    {
      FreeCompleted(index, completed);
      if isRunning {
        var status := SubmitPendingReads(ret, accepted, start, count);
      }
    }

    /** Stops all reads. */
    method StopAsyncRead()
      requires Valid()
      modifies this`inFlight, slots
      ensures Valid() && inFlight == 0
      ensures forall i :: 0 <= i < RX_RING_SIZE ==> slots[i].Free?
    {
      for i := 0 to RX_RING_SIZE
        invariant forall k :: 0 <= k < i ==> slots[k].Free?
      {
        slots[i] := Free;
      }
      CountFree(slots[..]);
      inFlight := 0;
    }
  }

  /** A batch of completions always leaves something to submit, and if the pipe then
      takes anything, at least one read is in flight. */
  lemma ReadingGoesOn(s: seq<Slot>, index: nat, completed: nat, start: nat, count: nat, accepted: nat)
    requires |s| == RX_RING_SIZE && index < RX_RING_SIZE && 0 < completed <= RX_RING_SIZE
    requires AllInflight(s, index, completed, true)
    requires IsFirstFreeRun(Marked(s, index, completed, Free), start, count) && accepted <= count
    ensures count > 0
    ensures accepted > 0 ==> InflightCount(Marked(Marked(s, index, completed, Free), start, accepted, Inflight)) > 0
  {
    var freed := Marked(s, index, completed, Free);
    MarkedAt(s, index, completed, Free, index);
    assert freed[index].Free?;
    if accepted > 0 {
      assert AllInflight(freed, start, accepted, false);
      MarkedCount(freed, start, accepted, Inflight);
    }
  }
}
