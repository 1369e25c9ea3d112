/**
 The transmit drains of `TxDrain` on the ring they read: 16384 bytes, 32-bit
 counters, and a client that tests for room with their wrapping difference
 (`writeTxFrame` in can_client/can_client.cc). A drain that copies late finds other
 entries' bytes. A drain that publishes late moves the tail back, and the client's test
 then lets it write over entries that were never sent. Positions are unbounded; the
 threads see them modulo 2^32.
 */
module TxRing {
  import opened Arithmetic
  import opened MachineInts
  import opened CanFrame
  import opened RingEntry
  import opened RingWindow
  import TxDrain

  /** One drain call, by the next thing it does. `size` is what the entry announced. */
  datatype DrainPc =
    | CheckFlag
    | LoadTail
    | CopyEntry(pos: nat)
    | Claim(pos: nat, size: nat, frame: Frame)
    | Submit(pos: nat, size: nat, frame: Frame)
    | Release
    | Publish(newTail: nat)
    | Returned

  /** `log` is what the client wrote; `sentAt` is where the frames on the wire came from. */
  datatype State = State(
    region: seq<byte>, log: seq<Frame>, tail: nat, inFlight: bool, outstanding: bool,
    drains: map<nat, DrainPc>, wire: seq<Frame>, sentAt: seq<nat>)

  type Action = TxDrain.Action

  function Start(): State {
    State(seq(TX0_CAPACITY, i => 0), [], 0, false, false, map[], [], [])
  }

  function EntryPos(k: nat): nat {
    TX_ENTRY_SIZE * k
  }

  /** Where the client writes next. */
  function Head(s: State): nat {
    EntryPos(|s.log|)
  }

  /** head - tail for a tail at `pos`, as both threads compute it. */
  function Distance(s: State, pos: nat): u32 {
    Sub32(Head(s) % TWO_32, pos % TWO_32)
  }

  /** The client's test for room. */
  predicate RoomSeen(s: State) {
    TX_ENTRY_SIZE <= Sub32(TX0_CAPACITY, Distance(s, s.tail))
  }

  /** The ring after `bytes` were stored from position `from` on. */
  function Stored(region: seq<byte>, from: nat, bytes: seq<byte>): (r: seq<byte>)
    requires |region| > 0
    ensures |r| == |region|
  {
    if bytes == [] then region
    else
      var n := |bytes| - 1;
      Stored(region, from, bytes[..n])[(from + n) % |region| := bytes[n]]
  }

  function SetPc(s: State, d: nat, pc: DrainPc): State {
    s.(drains := s.drains[d := pc])
  }

  /** What a drain that loaded the tail `pos` makes of the bytes from there to head. */
  function Copied(s: State, pos: nat): DrainPc
    requires |s.region| > 0
  {
    match ParseTx(Window(s.region, pos, Distance(s, pos)))
    case TxIncomplete => Returned
    case TxDropped(n) => Publish(pos + n)
    case TxFrame(f, n) => Claim(pos, n, f)
  }

  function DrainStep(s: State, d: nat, accepted: bool): (s': State)
    requires d in s.drains && |s.region| > 0
    ensures s'.region == s.region && s'.log == s.log
  {
    match s.drains[d]
    case CheckFlag => SetPc(s, d, if s.inFlight then Returned else LoadTail)
    case LoadTail => SetPc(s, d, CopyEntry(s.tail))
    case CopyEntry(p) => SetPc(s, d, Copied(s, p))
    case Claim(p, n, f) =>
      if s.inFlight then SetPc(s, d, Returned) else SetPc(s, d, Submit(p, n, f)).(inFlight := true)
    case Submit(p, n, f) =>
      if accepted
      then SetPc(s, d, Publish(p + n)).(outstanding := true, wire := s.wire + [f], sentAt := s.sentAt + [p])
      else SetPc(s, d, Release)
    case Release => SetPc(s, d, Returned).(inFlight := false)
    case Publish(t) => SetPc(s, d, Returned).(tail := t)
    case Returned => s
  }

  /** The client writes one entry, if it sees room. */
  function Appended(s: State, f: Frame): (s': State)
    requires |s.region| > 0
    ensures |s'.region| == |s.region|
  {
    if RoomSeen(s) then s.(region := Stored(s.region, Head(s), TxEntry(f)), log := s.log + [f]) else s
  }

  function Do(s: State, a: Action): (s': State)
    requires |s.region| > 0
    ensures |s'.region| == |s.region|
  {
    match a
    case Append(f) => Appended(s, f)
    case Begin(d) => if d in s.drains then s else SetPc(s, d, CheckFlag)
    case Advance(d, accepted) => if d in s.drains then DrainStep(s, d, accepted) else s
    case WriteComplete => if s.outstanding then s.(inFlight := false, outstanding := false) else s
  }

  function Run(actions: seq<Action>): (s: State)
    ensures |s.region| == TX0_CAPACITY
  {
    if actions == [] then Start() else Do(Run(actions[..|actions| - 1]), actions[|actions| - 1])
  }

  // ---- Every run: the ring holds the last bytes written ----

  lemma {:induction false} StoredWindow(region: seq<byte>, from: nat, bytes: seq<byte>)
    requires 0 < |bytes| <= |region| || bytes == []
    requires |region| > 0
    ensures Window(Stored(region, from, bytes), from, |bytes|) == bytes
  {
    if bytes != [] {
      var n := |bytes| - 1;
      StoredWindow(region, from, bytes[..n]);
      StoreNext(Stored(region, from, bytes[..n]), from, n, bytes[n]);
      assert bytes[..n] + [bytes[n]] == bytes;
    }
  }

  lemma {:induction false} StoredElsewhere(region: seq<byte>, from: nat, bytes: seq<byte>, q: nat, n: nat)
    requires |region| > 0 && q + n <= from && from + |bytes| <= q + |region|
    ensures Window(Stored(region, from, bytes), q, n) == Window(region, q, n)
  {
    if bytes != [] {
      var m := |bytes| - 1;
      StoredElsewhere(region, from, bytes[..m], q, n);
      StoreOutside(Stored(region, from, bytes[..m]), q, n, from + m, bytes[m]);
    }
  }

  /** Entry k is not overwritten: the client has written no more than one capacity since
      its first byte. */
  predicate InReach(s: State, k: nat) {
    Head(s) <= EntryPos(k) + TX0_CAPACITY
  }

  ghost predicate Intact(s: State, k: nat)
    requires k < |s.log| && |s.region| > 0
  {
    Window(s.region, EntryPos(k), TX_ENTRY_SIZE) == TxEntry(s.log[k])
  }

  ghost predicate RegionOk(s: State) {
    && |s.region| == TX0_CAPACITY
    && forall k :: 0 <= k < |s.log| && InReach(s, k) ==> Intact(s, k)
  }

  lemma AppendKeepsRegion(s: State, f: Frame)
    requires RegionOk(s)
    ensures RegionOk(Appended(s, f))
  {
    if RoomSeen(s) {
      var s', n := Appended(s, f), |s.log|;
      StoredWindow(s.region, Head(s), TxEntry(f));
      forall k | 0 <= k < |s'.log| && InReach(s', k)
        ensures Intact(s', k)
      {
        if k < n {
          assert Intact(s, k);
          StoredElsewhere(s.region, Head(s), TxEntry(f), EntryPos(k), TX_ENTRY_SIZE);
        }
      }
    }
  }

  /** Tail, copies and what was sent stay behind the head. */
  ghost predicate PcBehind(pc: DrainPc, head: nat) {
    match pc
    case CopyEntry(p) => p <= head
    case Claim(p, n, _) => 0 < n && p + n <= head
    case Submit(p, n, _) => 0 < n && p + n <= head
    case Publish(t) => t <= head
    case _ => true
  }

  ghost predicate Behind(s: State) {
    && s.tail <= Head(s)
    && (forall d :: d in s.drains ==> PcBehind(s.drains[d], Head(s)))
    && |s.sentAt| == |s.wire|
    && (forall i :: 0 <= i < |s.sentAt| ==> s.sentAt[i] < Head(s))
  }

  lemma DistanceBound(s: State, pos: nat)
    requires pos <= Head(s)
    ensures Distance(s, pos) <= Head(s) - pos
    ensures Head(s) - pos < TWO_32 ==> Distance(s, pos) == Head(s) - pos
  {
    var d := Head(s) - pos;
    if d < TWO_32 {
      CounterDistance(Head(s), pos);
    }
  }

  lemma CopiedIsBehind(s: State, pos: nat)
    requires |s.region| > 0 && pos <= Head(s)
    ensures PcBehind(Copied(s, pos), Head(s))
  {
    DistanceBound(s, pos);
  }

  lemma DrainKeepsBehind(s: State, d: nat, accepted: bool)
    requires |s.region| > 0 && Behind(s) && d in s.drains
    ensures Behind(DrainStep(s, d, accepted))
  {
    assert PcBehind(s.drains[d], Head(s));
    if s.drains[d].CopyEntry? {
      CopiedIsBehind(s, s.drains[d].pos);
    }
  }

  lemma StepKeepsPlaces(s: State, a: Action)
    requires RegionOk(s) && Behind(s)
    ensures RegionOk(Do(s, a)) && Behind(Do(s, a))
  {
    match a
    case Append(f) =>
      AppendKeepsRegion(s, f);
      var s' := Do(s, a);
      forall d | d in s'.drains
        ensures PcBehind(s'.drains[d], Head(s'))
      {
        assert PcBehind(s.drains[d], Head(s));
      }
    case Advance(d, accepted) =>
      if d in s.drains {
        DrainKeepsBehind(s, d, accepted);
        var s' := Do(s, a);
        assert forall k :: 0 <= k < |s.log| && Intact(s, k) ==> Intact(s', k);
      }
    case Begin(d) =>
      var s' := Do(s, a);
      assert forall k :: 0 <= k < |s.log| && Intact(s, k) ==> Intact(s', k);
    case WriteComplete =>
      var s' := Do(s, a);
      assert forall k :: 0 <= k < |s.log| && Intact(s, k) ==> Intact(s', k);
  }

  lemma {:induction false} RunKeepsPlaces(actions: seq<Action>)
    ensures RegionOk(Run(actions)) && Behind(Run(actions))
  {
    if actions != [] {
      RunKeepsPlaces(actions[..|actions| - 1]);
      StepKeepsPlaces(Run(actions[..|actions| - 1]), actions[|actions| - 1]);
    }
  }

  // ---- While copies are made in time: the ring is the log of TxDrain ----

  /** A drain copies an entry while the client has written no more than one capacity since
      the entry's first byte. */
  predicate CopyInTime(s: State, a: Action) {
    a.Advance? && a.d in s.drains && s.drains[a.d].CopyEntry? ==>
      Head(s) <= s.drains[a.d].pos + TX0_CAPACITY
  }

  predicate CopyInTimeAt(actions: seq<Action>, i: nat)
    requires i < |actions|
  {
    CopyInTime(Run(actions[..i]), actions[i])
  }

  ghost predicate CopiesInTime(actions: seq<Action>) {
    forall i :: 0 <= i < |actions| ==> CopyInTimeAt(actions, i)
  }

  lemma PrefixCopiesInTime(actions: seq<Action>, n: nat)
    requires CopiesInTime(actions) && n <= |actions|
    ensures CopiesInTime(actions[..n])
  {
    forall i | 0 <= i < n
      ensures CopyInTimeAt(actions[..n], i)
    {
      assert actions[..n][..i] == actions[..i] && CopyInTimeAt(actions, i);
    }
  }

  /** The published tail is within one capacity of the head. */
  predicate WithinCapacity(s: State) {
    Head(s) <= s.tail + TX0_CAPACITY
  }

  ghost predicate AlwaysWithin(actions: seq<Action>) {
    forall n :: 0 <= n <= |actions| ==> WithinCapacity(Run(actions[..n]))
  }

  /** The client's wrapping test is right exactly while the tail is within one capacity. */
  lemma RoomSeenIsRoom(s: State)
    requires s.tail <= Head(s) && WithinCapacity(s)
    ensures RoomSeen(s) <==> Head(s) + TX_ENTRY_SIZE <= s.tail + TX0_CAPACITY
  {
    DistanceBound(s, s.tail);
    var free := TX0_CAPACITY - Distance(s, s.tail);
    QuotientUnique(free, 0, free, TWO_32);
  }

  function Index(pos: nat): nat {
    pos / TX_ENTRY_SIZE
  }

  predicate IsEntry(pos: nat) {
    pos == EntryPos(Index(pos))
  }

  lemma IndexOfEntry(k: nat)
    ensures Index(EntryPos(k)) == k && IsEntry(EntryPos(k))
  {
    QuotientUnique(EntryPos(k), k, 0, TX_ENTRY_SIZE);
  }

  lemma NextEntryPos(pos: nat)
    requires IsEntry(pos)
    ensures IsEntry(pos + TX_ENTRY_SIZE) && Index(pos + TX_ENTRY_SIZE) == Index(pos) + 1
  {
    IndexOfEntry(Index(pos) + 1);
  }

  lemma EntriesApart(k: nat, m: nat)
    ensures k < m ==> EntryPos(k) + TX_ENTRY_SIZE <= EntryPos(m)
  {
    MultipleAtLeast(m - k, TX_ENTRY_SIZE);
  }

  ghost predicate PcAligned(pc: DrainPc) {
    match pc
    case CopyEntry(p) => IsEntry(p)
    case Claim(p, n, _) => IsEntry(p) && n == TX_ENTRY_SIZE
    case Submit(p, n, _) => IsEntry(p) && n == TX_ENTRY_SIZE
    case Publish(t) => IsEntry(t) && Index(t) > 0
    case _ => true
  }

  ghost predicate Aligned(s: State) {
    && IsEntry(s.tail)
    && (forall d :: d in s.drains ==> PcAligned(s.drains[d]))
    && (forall i :: 0 <= i < |s.sentAt| ==> IsEntry(s.sentAt[i]))
  }

  function LogPc(pc: DrainPc): TxDrain.DrainPc {
    match pc
    case CheckFlag => TxDrain.CheckFlag
    case LoadTail => TxDrain.LoadTail
    case CopyEntry(p) => TxDrain.CopyEntry(Index(p))
    case Claim(p, _, f) => TxDrain.Claim(Index(p), f)
    case Submit(p, _, f) => TxDrain.Submit(Index(p), f)
    case Release => TxDrain.Release
    case Publish(t) => TxDrain.Publish(if Index(t) > 0 then Index(t) - 1 else 0)
    case Returned => TxDrain.Returned
  }

  /** The state with positions in entries instead of bytes. */
  function LogState(s: State): TxDrain.State {
    TxDrain.State(s.log, Index(s.tail), s.inFlight, s.outstanding,
                  map d | d in s.drains :: LogPc(s.drains[d]), s.wire,
                  seq(|s.sentAt|, i requires 0 <= i < |s.sentAt| => Index(s.sentAt[i])))
  }

  /** A drain in time finds the entry that was written where it looks. */
  lemma CopyFindsEntry(s: State, pos: nat)
    requires RegionOk(s) && IsEntry(pos) && pos <= Head(s) <= pos + TX0_CAPACITY
    ensures Copied(s, pos)
         == if Index(pos) < |s.log| then Claim(pos, TX_ENTRY_SIZE, s.log[Index(pos)]) else Returned
  {
    DistanceBound(s, pos);
    var k, n := Index(pos), Distance(s, pos);
    EntriesApart(k, |s.log|);
    EntriesApart(|s.log|, k);
    if k < |s.log| {
      assert Intact(s, k);
      WindowSplit(s.region, pos, TX_ENTRY_SIZE, n - TX_ENTRY_SIZE);
      ParseTxFirst(s.log[k], Window(s.region, pos + TX_ENTRY_SIZE, n - TX_ENTRY_SIZE));
    }
  }

  lemma LogStateAfterSetPc(s: State, d: nat, pc: DrainPc)
    ensures LogState(SetPc(s, d, pc)) == TxDrain.SetPc(LogState(s), d, LogPc(pc))
  {
  }

  lemma CopyIsAligned(s: State, d: nat)
    requires RegionOk(s) && Behind(s) && Aligned(s) && d in s.drains && s.drains[d].CopyEntry?
    requires Head(s) <= s.drains[d].pos + TX0_CAPACITY
    ensures PcAligned(Copied(s, s.drains[d].pos))
    ensures LogPc(Copied(s, s.drains[d].pos))
         == TxDrain.DrainStep(LogState(s), d, true).drains[d]
  {
    assert PcAligned(s.drains[d]) && PcBehind(s.drains[d], Head(s));
    CopyFindsEntry(s, s.drains[d].pos);
  }

  lemma NewPcIsAligned(s: State, d: nat, accepted: bool)
    requires RegionOk(s) && Behind(s) && Aligned(s) && d in s.drains
    requires CopyInTime(s, TxDrain.Advance(d, accepted))
    ensures PcAligned(DrainStep(s, d, accepted).drains[d])
  {
    var pc := s.drains[d];
    assert PcAligned(pc);
    if pc.CopyEntry? {
      CopyIsAligned(s, d);
    } else if pc.Submit? {
      NextEntryPos(pc.pos);
    }
  }

  lemma DrainKeepsAligned(s: State, d: nat, accepted: bool)
    requires RegionOk(s) && Behind(s) && Aligned(s) && d in s.drains
    requires CopyInTime(s, TxDrain.Advance(d, accepted))
    ensures Aligned(DrainStep(s, d, accepted))
  {
    assert PcAligned(s.drains[d]);
    NewPcIsAligned(s, d, accepted);
  }

  lemma SubmitRefinesLog(s: State, d: nat, accepted: bool)
    requires d in s.drains && s.drains[d].Submit? && PcAligned(s.drains[d]) && |s.region| > 0
    ensures LogState(DrainStep(s, d, accepted)) == TxDrain.DrainStep(LogState(s), d, accepted)
  {
    var s', p := DrainStep(s, d, accepted), s.drains[d].pos;
    NextEntryPos(p);
    LogStateAfterSetPc(s, d, s'.drains[d]);
    assert accepted ==> LogState(s').sentAt == LogState(s).sentAt + [Index(p)];
  }

  lemma DrainRefinesLog(s: State, d: nat, accepted: bool)
    requires RegionOk(s) && Behind(s) && Aligned(s) && d in s.drains
    requires CopyInTime(s, TxDrain.Advance(d, accepted))
    ensures LogState(DrainStep(s, d, accepted)) == TxDrain.DrainStep(LogState(s), d, accepted)
  {
    assert PcAligned(s.drains[d]);
    if s.drains[d].Submit? {
      SubmitRefinesLog(s, d, accepted);
    } else {
      if s.drains[d].CopyEntry? {
        CopyIsAligned(s, d);
      }
      LogStateAfterSetPc(s, d, DrainStep(s, d, accepted).drains[d]);
    }
  }

  /** The actions without the writes that the client's test refuses. */
  function Effective(actions: seq<Action>): seq<Action> {
    if actions == [] then []
    else
      var before, a := actions[..|actions| - 1], actions[|actions| - 1];
      if a.Append? && !RoomSeen(Run(before)) then Effective(before) else Effective(before) + [a]
  }

  lemma StepRefinesLog(s: State, a: Action)
    requires RegionOk(s) && Behind(s) && Aligned(s) && CopyInTime(s, a)
    ensures Aligned(Do(s, a))
    ensures LogState(Do(s, a)) == if a.Append? && !RoomSeen(s) then LogState(s) else TxDrain.Do(LogState(s), a)
  {
    if a.Advance? && a.d in s.drains {
      DrainKeepsAligned(s, a.d, a.accepted);
      DrainRefinesLog(s, a.d, a.accepted);
    } else if a.Begin? && a.d !in s.drains {
      LogStateAfterSetPc(s, a.d, CheckFlag);
    }
  }

  /** While copies are made in time, the drains on the ring do exactly what they do on an
      append-only log. */
  lemma {:induction false} RunRefinesLog(actions: seq<Action>)
    requires CopiesInTime(actions)
    ensures Aligned(Run(actions))
    ensures LogState(Run(actions)) == TxDrain.Run(Effective(actions))
  {
    if actions == [] {
      IndexOfEntry(0);
      assert LogState(Start()) == TxDrain.Start();
    } else {
      var n := |actions| - 1;
      var before := actions[..n];
      PrefixCopiesInTime(actions, n);
      RunRefinesLog(before);
      RunKeepsPlaces(before);
      assert CopyInTimeAt(actions, n);
      StepRefinesLog(Run(before), actions[n]);
      assert (Effective(before) + [actions[n]])[..|Effective(before)|] == Effective(before);
    }
  }

  /** While copies are made in time, every frame on the wire is a frame that the client
      wrote, from its own place. */
  lemma WireIsFromLog(actions: seq<Action>, i: nat)
    requires CopiesInTime(actions) && i < |Run(actions).wire|
    ensures
      var s := Run(actions);
      && i < |s.sentAt| && Index(s.sentAt[i]) < |s.log|
      && s.sentAt[i] == EntryPos(Index(s.sentAt[i])) && s.wire[i] == s.log[Index(s.sentAt[i])]
  {
    var s := Run(actions);
    RunRefinesLog(actions);
    RunKeepsPlaces(actions);
    TxDrain.RunKeepsInv(Effective(actions));
    var t := LogState(s);
    assert t.sentAt[i] < |t.log| && t.wire[i] == t.log[t.sentAt[i]];
    assert IsEntry(s.sentAt[i]);
  }

  // ---- Nothing is lost, exactly when ----

  /** The pipe has accepted entry k, with its own frame. */
  ghost predicate Accepted(s: State, k: nat)
    requires k < |s.log|
  {
    exists i :: 0 <= i < |s.sentAt| && i < |s.wire| && s.sentAt[i] == EntryPos(k) && s.wire[i] == s.log[k]
  }

  /** Entry k still waits in the ring: not below the tail, and not overwritten. */
  predicate Pending(s: State, k: nat) {
    s.tail <= EntryPos(k) && InReach(s, k)
  }

  /** Every entry the client wrote was accepted at least once, or still waits. */
  ghost predicate Safe(s: State) {
    forall k :: 0 <= k < |s.log| ==> Accepted(s, k) || Pending(s, k)
  }

  /** At least once, under any overlap of drains: while copies are made in time, every entry
      below the published tail was accepted by the pipe. */
  lemma BelowTailIsAccepted(actions: seq<Action>, k: nat)
    requires CopiesInTime(actions) && EntryPos(k) < Run(actions).tail
    ensures k < |Run(actions).log| && Accepted(Run(actions), k)
  {
    var s := Run(actions);
    RunRefinesLog(actions);
    RunKeepsPlaces(actions);
    EntriesApart(Index(s.tail), k);
    TxDrain.AtLeastOnce(Effective(actions), k);
    var t := LogState(s);
    var i :| 0 <= i < |t.sentAt| && i < |t.wire| && t.sentAt[i] == k && t.wire[i] == t.log[k];
    assert IsEntry(s.sentAt[i]);
    assert s.sentAt[i] == EntryPos(k);
  }

  /** While, besides, the tail is within one capacity, every entry was accepted or waits
      unaltered in the ring. */
  lemma WithinRunsAreSafe(actions: seq<Action>)
    requires CopiesInTime(actions) && WithinCapacity(Run(actions))
    ensures Safe(Run(actions))
    ensures
      var s := Run(actions);
      forall k :: 0 <= k < |s.log| && Pending(s, k) ==> Intact(s, k)
  {
    var s := Run(actions);
    forall k | 0 <= k < |s.log|
      ensures Accepted(s, k) || Pending(s, k)
    {
      if EntryPos(k) < s.tail {
        BelowTailIsAccepted(actions, k);
      }
    }
    RunKeepsPlaces(actions);
  }

  /** The client writes one frame after another. */
  function Appends(fs: seq<Frame>): seq<Action> {
    seq(|fs|, i requires 0 <= i < |fs| => TxDrain.Append(fs[i]))
  }

  lemma LastAppend(actions: seq<Action>, fs: seq<Frame>)
    requires fs != []
    ensures
      var n := |fs| - 1;
      Run(actions + Appends(fs)) == Do(Run(actions + Appends(fs[..n])), TxDrain.Append(fs[n]))
  {
    var n, all := |fs| - 1, actions + Appends(fs);
    assert all[..|all| - 1] == actions + Appends(fs[..n]);
  }

  lemma AppendKeepsWithin(s: State, f: Frame)
    requires |s.region| > 0 && s.tail <= Head(s) && WithinCapacity(s)
    ensures WithinCapacity(Appended(s, f))
  {
    RoomSeenIsRoom(s);
  }

  lemma {:induction false} AppendsKeepWithin(actions: seq<Action>, fs: seq<Frame>)
    requires WithinCapacity(Run(actions))
    ensures WithinCapacity(Run(actions + Appends(fs)))
    decreases |fs|
  {
    if fs == [] {
      assert actions + Appends(fs) == actions;
    } else {
      var n := |fs| - 1;
      var before := actions + Appends(fs[..n]);
      AppendsKeepWithin(actions, fs[..n]);
      RunKeepsPlaces(before);
      AppendKeepsWithin(Run(before), fs[n]);
      LastAppend(actions, fs);
    }
  }

  lemma AppendsCopyNothing(actions: seq<Action>, fs: seq<Frame>)
    requires CopiesInTime(actions)
    ensures CopiesInTime(actions + Appends(fs))
  {
    var all := actions + Appends(fs);
    forall i | 0 <= i < |all|
      ensures CopyInTimeAt(all, i)
    {
      if i < |actions| {
        assert all[..i] == actions[..i] && CopyInTimeAt(actions, i);
      }
    }
  }

  lemma EntryPosSum(k: nat, m: nat)
    ensures EntryPos(k + m) == EntryPos(k) + EntryPos(m)
  {
  }

  /** Behind an overrun tail the client sees room for every frame. */
  lemma OverrunSeesRoom(s: State)
    requires s.tail + TX0_CAPACITY < Head(s) < s.tail + TWO_32
    ensures RoomSeen(s)
  {
    DistanceBound(s, s.tail);
    var free := TX0_CAPACITY - Distance(s, s.tail);
    QuotientUnique(free, -1, free + TWO_32, TWO_32);
  }

  lemma {:induction false} OverrunAppends(actions: seq<Action>, fs: seq<Frame>)
    requires
      var s := Run(actions);
      s.tail + TX0_CAPACITY < Head(s) && Head(s) + EntryPos(|fs|) < s.tail + TWO_32
    ensures
      var s, s' := Run(actions), Run(actions + Appends(fs));
      s'.log == s.log + fs && s'.tail == s.tail && s'.wire == s.wire && s'.sentAt == s.sentAt
    decreases |fs|
  {
    var s := Run(actions);
    if fs == [] {
      assert actions + Appends(fs) == actions;
    } else {
      var n := |fs| - 1;
      EntriesApart(n, |fs|);
      OverrunAppends(actions, fs[..n]);
      var t := Run(actions + Appends(fs[..n]));
      EntryPosSum(|s.log|, n);
      OverrunSeesRoom(t);
      LastAppend(actions, fs);
      assert s.log + fs == (s.log + fs[..n]) + [fs[n]];
    }
  }

  const LOSING := 222

  function ZeroFrame(): Frame {
    RawFrame.Frame(0, 0, 0, 0, 0, Zeros(CANFD_MAX_DLEN))
  }

  function Repeated(f: Frame, n: nat): seq<Frame> {
    seq(n, i => f)
  }

  /** Once a published tail is more than one capacity behind, the client alone loses
      frames: it overwrites the next one it writes before anybody has read it. */
  lemma OverrunLosesEntries(actions: seq<Action>, f: Frame)
    requires
      var s := Run(actions);
      s.tail + TX0_CAPACITY < Head(s) && Head(s) + EntryPos(LOSING) < s.tail + TWO_32
    ensures !Safe(Run(actions + Appends(Repeated(f, LOSING))))
  {
    var s, fs := Run(actions), Repeated(f, LOSING);
    var s', k := Run(actions + Appends(fs)), |s.log|;
    OverrunAppends(actions, fs);
    RunKeepsPlaces(actions);
    assert Head(s') == EntryPos(k) + EntryPos(LOSING);
    assert !Pending(s', k);
    assert !Accepted(s', k);
  }

  /** Nobody is so late that a 32-bit counter goes round. */
  ghost predicate NoneGoesRound(actions: seq<Action>) {
    forall n :: 0 <= n <= |actions| ==>
      Head(Run(actions[..n])) + EntryPos(LOSING) < Run(actions[..n]).tail + TWO_32
  }

  ghost predicate SafeWith(actions: seq<Action>, n: nat, fs: seq<Frame>)
    requires n <= |actions|
  {
    Safe(Run(actions[..n] + Appends(fs)))
  }

  /** At every point of a run whose copies are made in time the client can go on writing
      without a frame being lost, if and only if no published tail is more than one capacity
      behind the head. */
  lemma SafeIffWithinCapacity(actions: seq<Action>)
    requires NoneGoesRound(actions) && CopiesInTime(actions)
    ensures AlwaysWithin(actions)
      <==> forall n, fs :: 0 <= n <= |actions| ==> SafeWith(actions, n, fs)
  {
    if AlwaysWithin(actions) {
      forall n, fs | 0 <= n <= |actions|
        ensures SafeWith(actions, n, fs)
      {
        PrefixCopiesInTime(actions, n);
        AppendsCopyNothing(actions[..n], fs);
        AppendsKeepWithin(actions[..n], fs);
        WithinRunsAreSafe(actions[..n] + Appends(fs));
      }
    }
    if forall n, fs :: 0 <= n <= |actions| ==> SafeWith(actions, n, fs) {
      forall n | 0 <= n <= |actions|
        ensures WithinCapacity(Run(actions[..n]))
      {
        assert SafeWith(actions, n, Repeated(ZeroFrame(), LOSING));
        if !WithinCapacity(Run(actions[..n])) {
          OverrunLosesEntries(actions[..n], ZeroFrame());
        }
      }
    }
  }

  // ---- Runs that never overrun ----

  lemma CurrentStepStaysWithin(s: State, a: Action)
    requires RegionOk(s) && Behind(s) && WithinCapacity(s) && Aligned(s) && TxDrain.Orderly(LogState(s))
    ensures WithinCapacity(Do(s, a))
  {
    if a.Append? {
      AppendKeepsWithin(s, a.frame);
    } else if a.Advance? && a.d in s.drains && s.drains[a.d].Publish? {
      var t := s.drains[a.d].newTail;
      assert PcAligned(s.drains[a.d]);
      assert TxDrain.CopyOf(LogState(s).drains[a.d], Index(s.tail));
      assert Index(t) == Index(s.tail) + 1;
      EntriesApart(Index(s.tail), Index(t));
    }
  }

  lemma EffectivePrefix(actions: seq<Action>)
    requires actions != []
    ensures
      var earlier := Effective(actions[..|actions| - 1]);
      |earlier| <= |Effective(actions)| && Effective(actions)[..|earlier|] == earlier
  {
  }

  /** If copies are made in time and every accepted submit is of a current copy, no published
      tail is more than one capacity behind. */
  lemma {:induction false} CurrentRunsStayWithin(actions: seq<Action>)
    requires CopiesInTime(actions) && TxDrain.EverySubmitCurrent(Effective(actions))
    ensures WithinCapacity(Run(actions))
  {
    if actions != [] {
      var n := |actions| - 1;
      var before := actions[..n];
      PrefixCopiesInTime(actions, n);
      EffectivePrefix(actions);
      TxDrain.PrefixIsCurrent(Effective(actions), |Effective(before)|);
      CurrentRunsStayWithin(before);
      RunRefinesLog(before);
      RunKeepsPlaces(before);
      TxDrain.CurrentRunsAreOrderly(Effective(before));
      CurrentStepStaysWithin(Run(before), actions[n]);
    }
  }

  /** A drain that nobody overlaps copies at the current tail. */
  lemma SerialisedCopyInTime(s: State, a: Action)
    requires WithinCapacity(s) && Aligned(s) && TxDrain.CopiesCurrent(LogState(s))
    ensures CopyInTime(s, a)
  {
    if a.Advance? && a.d in s.drains && s.drains[a.d].CopyEntry? {
      var pos := s.drains[a.d].pos;
      assert PcAligned(s.drains[a.d]);
      assert LogState(s).drains[a.d] == TxDrain.CopyEntry(Index(pos));
      assert pos == s.tail;
    }
  }

  lemma {:induction false} SerialisedCopiesInTime(actions: seq<Action>)
    requires TxDrain.Serialised(Effective(actions))
    ensures CopiesInTime(actions)
  {
    if actions != [] {
      var n := |actions| - 1;
      var before := actions[..n];
      EffectivePrefix(actions);
      TxDrain.PrefixIsSerialised(Effective(actions), |Effective(before)|);
      SerialisedCopiesInTime(before);
      TxDrain.SerialisedIsCurrent(Effective(before));
      CurrentRunsStayWithin(before);
      RunRefinesLog(before);
      TxDrain.SerialisedCopiesAreCurrent(Effective(before));
      SerialisedCopyInTime(Run(before), actions[n]);
      forall i | 0 <= i < |actions|
        ensures CopyInTimeAt(actions, i)
      {
        if i < n {
          assert before[..i] == actions[..i] && CopyInTimeAt(before, i);
        }
      }
    }
  }

  /** Drains that do not overlap are never late and never overrun the ring: what the pipe
      accepts is a prefix of what the client wrote, once each and in order, and everything
      else waits. */
  lemma SerialisedDrainsLoseNothing(actions: seq<Action>)
    requires TxDrain.Serialised(Effective(actions))
    ensures CopiesInTime(actions) && WithinCapacity(Run(actions)) && Safe(Run(actions))
    ensures Run(actions).wire <= Run(actions).log
  {
    SerialisedCopiesInTime(actions);
    TxDrain.SerialisedIsCurrent(Effective(actions));
    CurrentRunsStayWithin(actions);
    WithinRunsAreSafe(actions);
    RunRefinesLog(actions);
    TxDrain.SerialisedIsExactlyOnce(Effective(actions));
  }

  // ---- A full ring and a late drain lose a frame ----

  lemma Then(actions: seq<Action>, a: Action) returns (longer: seq<Action>)
    ensures longer == actions + [a]
    ensures Run(longer) == Do(Run(actions), a)
  {
    longer := actions + [a];
    assert longer[..|longer| - 1] == actions;
  }

  /** Drain d starts, sees no transfer in flight and loads the tail. */
  lemma LoadPhase(actions: seq<Action>, d: nat) returns (longer: seq<Action>)
    requires d !in Run(actions).drains && !Run(actions).inFlight
    ensures Run(longer) == SetPc(Run(actions), d, CopyEntry(Run(actions).tail))
  {
    longer := Then(actions, TxDrain.Begin(d));
    longer := Then(longer, TxDrain.Advance(d, true));
    longer := Then(longer, TxDrain.Advance(d, true));
    assert Run(longer).drains == Run(actions).drains[d := Run(longer).drains[d]];
  }

  /** ... and copies what is there. */
  lemma CopyPhase(actions: seq<Action>, d: nat) returns (longer: seq<Action>)
    requires d !in Run(actions).drains && !Run(actions).inFlight
    ensures Run(longer) == SetPc(Run(actions), d, Copied(Run(actions), Run(actions).tail))
  {
    longer := LoadPhase(actions, d);
    longer := Then(longer, TxDrain.Advance(d, true));
    assert Run(longer).drains == Run(actions).drains[d := Run(longer).drains[d]];
  }

  /** State s after drain d has sent its copy, published the tail behind it, and the
      transfer has completed. */
  function Finished(s: State, d: nat, pc: DrainPc): State
    requires pc.Claim?
  {
    s.(drains := s.drains[d := Returned], tail := pc.pos + pc.size,
       wire := s.wire + [pc.frame], sentAt := s.sentAt + [pc.pos],
       inFlight := false, outstanding := false)
  }

  lemma SendPhase(actions: seq<Action>, d: nat) returns (longer: seq<Action>)
    requires var s := Run(actions); d in s.drains && s.drains[d].Claim? && !s.inFlight
    ensures Run(longer) == Finished(Run(actions), d, Run(actions).drains[d])
  {
    longer := Then(actions, TxDrain.Advance(d, true));
    longer := Then(longer, TxDrain.Advance(d, true));
    longer := Then(longer, TxDrain.Advance(d, true));
    longer := Then(longer, TxDrain.WriteComplete);
    assert Run(longer).drains == Run(actions).drains[d := Returned];
  }

  lemma WholeDrain(actions: seq<Action>, d: nat) returns (longer: seq<Action>)
    requires var s := Run(actions); d !in s.drains && !s.inFlight && Copied(s, s.tail).Claim?
    ensures Run(longer) == Finished(Run(actions), d, Copied(Run(actions), Run(actions).tail))
  {
    longer := CopyPhase(actions, d);
    longer := SendPhase(longer, d);
    assert Run(longer).drains == Run(actions).drains[d := Returned];
  }

  lemma OneMoreFits(s: State, t: State, n: nat)
    requires |t.log| == |s.log| + n && t.tail == s.tail && t.tail <= Head(t)
    requires Head(s) + EntryPos(n) + TX_ENTRY_SIZE <= s.tail + TX0_CAPACITY
    ensures RoomSeen(t)
  {
    EntryPosSum(|s.log|, n);
    RoomSeenIsRoom(t);
  }

  lemma AppendedBehind(s: State, t: State, fs: seq<Frame>)
    requires fs != [] && |s.region| > 0 && |t.region| > 0
    requires t == s.(log := s.log + fs[..|fs| - 1], region := t.region) && RoomSeen(t)
    ensures
      var s' := Do(t, TxDrain.Append(fs[|fs| - 1]));
      s' == s.(log := s.log + fs, region := s'.region)
  {
    assert s.log + fs == (s.log + fs[..|fs| - 1]) + [fs[|fs| - 1]];
  }

  lemma {:induction false} RoomAppends(actions: seq<Action>, fs: seq<Frame>)
    requires Head(Run(actions)) + EntryPos(|fs|) <= Run(actions).tail + TX0_CAPACITY
    ensures
      var s, s' := Run(actions), Run(actions + Appends(fs));
      s' == s.(log := s.log + fs, region := s'.region)
    decreases |fs|
  {
    var s := Run(actions);
    if fs == [] {
      assert actions + Appends(fs) == actions && s.log + fs == s.log;
    } else {
      var n := |fs| - 1;
      EntriesApart(n, |fs|);
      RoomAppends(actions, fs[..n]);
      var t := Run(actions + Appends(fs[..n]));
      RunKeepsPlaces(actions + Appends(fs[..n]));
      OneMoreFits(s, t, n);
      LastAppend(actions, fs);
      AppendedBehind(s, t, fs);
    }
  }

  /** Read 30 bytes into its entry, its payload looks like an entry of 74 bytes. */
  predicate IsDecoy(f: Frame) {
    f.data[20..26] == [CANFD_MTU, 0, 0, 0, 0, 0]
  }

  lemma DecoyBytes(f: Frame, i: nat)
    requires IsDecoy(f) && i < 6
    ensures TxEntry(f)[30 + i] == if i == 0 then CANFD_MTU else 0
  {
    assert TxEntry(f)[30 + i] == FrameBytes(f)[28 + i] == f.data[20 + i] == f.data[20..26][i];
  }

  lemma ParseDecoy(w: seq<byte>)
    requires |w| >= TX_ENTRY_SIZE && w[0] == CANFD_MTU && forall i :: 1 <= i < 6 ==> w[i] == 0
    ensures ParseTx(w).TxFrame? && ParseTx(w).size == TX_ENTRY_SIZE && ParseTx(w).frame.canId == 0
  {
    var payload := w[2..TX_ENTRY_SIZE];
    assert payload[..4] == w[2..6];
  }

  /** A drain that looks one capacity behind the middle of a decoy takes it for an entry. */
  lemma DecoyIsCopied(s: State, pos: nat, k: nat)
    requires RegionOk(s) && k < |s.log| && InReach(s, k) && IsDecoy(s.log[k])
    requires pos + TX0_CAPACITY == EntryPos(k) + 30 && Distance(s, pos) >= TX_ENTRY_SIZE
    ensures Copied(s, pos).Claim? && Copied(s, pos).pos == pos && Copied(s, pos).size == TX_ENTRY_SIZE
    ensures Copied(s, pos).frame.canId == 0
  {
    var w := Window(s.region, pos, Distance(s, pos));
    assert Intact(s, k);
    forall i | 0 <= i < 6
      ensures w[i] == TxEntry(s.log[k])[30 + i]
    {
      ModShift(pos + i, TX0_CAPACITY);
      var stored := Window(s.region, EntryPos(k), TX_ENTRY_SIZE);
      assert stored[30 + i] == s.region[(EntryPos(k) + (30 + i)) % TX0_CAPACITY];
    }
    forall i | 0 <= i < 6
      ensures w[i] == if i == 0 then CANFD_MTU else 0
    {
      DecoyBytes(s.log[k], i);
    }
    ParseDecoy(w);
  }

  lemma CopyOfEntry(actions: seq<Action>, k: nat)
    requires var s := Run(actions); s.tail == EntryPos(k) && WithinCapacity(s) && k < |s.log|
    ensures Copied(Run(actions), EntryPos(k)) == Claim(EntryPos(k), TX_ENTRY_SIZE, Run(actions).log[k])
  {
    RunKeepsPlaces(actions);
    IndexOfEntry(k);
    CopyFindsEntry(Run(actions), EntryPos(k));
  }

  /** Drain d sends the whole entry k. */
  lemma EntryDrain(actions: seq<Action>, d: nat, k: nat) returns (longer: seq<Action>)
    requires
      var s := Run(actions);
      s.tail == EntryPos(k) && WithinCapacity(s) && k < |s.log| && d !in s.drains && !s.inFlight
    ensures
      var s, s' := Run(actions), Run(longer);
      && s'.log == s.log && s'.tail == EntryPos(k + 1) && !s'.inFlight
      && s'.drains == s.drains[d := Returned] && s'.wire == s.wire + [s.log[k]]
  {
    CopyOfEntry(actions, k);
    longer := WholeDrain(actions, d);
    EntryPosSum(k, 1);
  }

  /** Two frames wait, and drain 1 has copied the first. */
  lemma EarlyCopy(z: Frame) returns (actions: seq<Action>)
    ensures
      var s := Run(actions);
      && s.log == [z, z] && s.tail == 0 && !s.inFlight
      && s.drains == map[1 := Claim(0, TX_ENTRY_SIZE, z)] && s.wire == []
  {
    assert Run([]) == Start();
    RoomAppends([], [z, z]);
    actions := [] + Appends([z, z]);
    assert [] + [z, z] == [z, z];
    CopyOfEntry(actions, 0);
    actions := CopyPhase(actions, 1);
  }

  /** Both frames are sent while drain 1 still holds its copy. */
  lemma LateDrain(z: Frame) returns (actions: seq<Action>)
    ensures
      var s := Run(actions);
      && s.log == [z, z] && s.tail == EntryPos(2) && !s.inFlight
      && s.drains == map[1 := Claim(0, TX_ENTRY_SIZE, z)][0 := Returned][2 := Returned]
      && s.wire == [z, z]
  {
    actions := EarlyCopy(z);
    actions := EntryDrain(actions, 0, 0);
    actions := EntryDrain(actions, 2, 1);
  }

  /** The client fills the ring, and drain 1 sends its copy and moves the tail back. */
  lemma TailMovesBack(z: Frame, v: Frame, g: Frame) returns (actions: seq<Action>)
    ensures
      var s := Run(actions);
      && s.log == [z, z] + ([v] + Repeated(g, 220)) && s.tail == EntryPos(1) && !s.inFlight
      && s.drains.Keys == {0, 1, 2} && s.wire == [z, z, z]
  {
    actions := LateDrain(z);
    var fs := [v] + Repeated(g, 220);
    RoomAppends(actions, fs);
    actions := actions + Appends(fs);
    actions := SendPhase(actions, 1);
  }

  /** The client writes one frame more, although the ring is full. */
  lemma Overrun(z: Frame, v: Frame, g: Frame) returns (actions: seq<Action>)
    ensures
      var s := Run(actions);
      && s.log == [z, z] + ([v] + Repeated(g, 220)) + [g] && s.tail == EntryPos(1) && !s.inFlight
      && s.drains.Keys == {0, 1, 2} && s.wire == [z, z, z]
  {
    actions := TailMovesBack(z, v, g);
    OverrunSeesRoom(Run(actions));
    actions := Then(actions, TxDrain.Append(g));
  }

  lemma DecoyDrain(actions: seq<Action>, d: nat, k: nat) returns (longer: seq<Action>)
    requires
      var s := Run(actions);
      && d !in s.drains && !s.inFlight && k < |s.log| && InReach(s, k) && IsDecoy(s.log[k])
      && s.tail + TX0_CAPACITY == EntryPos(k) + 30 && Head(s) + TX_ENTRY_SIZE < s.tail + TWO_32
    ensures
      var s, s' := Run(actions), Run(longer);
      && s'.log == s.log && s'.tail == s.tail + TX_ENTRY_SIZE && !s'.inFlight
      && s'.drains == s.drains[d := Returned]
      && |s'.wire| == |s.wire| + 1 && s'.wire[..|s.wire|] == s.wire && s'.wire[|s.wire|].canId == 0
  {
    RunKeepsPlaces(actions);
    DistanceBound(Run(actions), Run(actions).tail);
    DecoyIsCopied(Run(actions), Run(actions).tail, k);
    longer := WholeDrain(actions, d);
  }

  lemma NeverSentIsNotSafe(s: State, k: nat)
    requires k < |s.log| && s.log[k] !in s.wire && EntryPos(k) < s.tail
    ensures !Safe(s)
  {
    assert !Accepted(s, k) && !Pending(s, k);
  }

  lemma FirstDecoy(z: Frame, v: Frame, g: Frame) returns (actions: seq<Action>)
    requires IsDecoy(g)
    ensures
      var s := Run(actions);
      && s.log == [z, z] + ([v] + Repeated(g, 220)) + [g] && s.tail == EntryPos(2) && !s.inFlight
      && s.drains.Keys == {0, 1, 2, 3}
      && |s.wire| == 4 && s.wire[..3] == [z, z, z] && s.wire[3].canId == 0
  {
    actions := Overrun(z, v, g);
    assert Run(actions).log[222] == g;
    actions := DecoyDrain(actions, 3, 222);
    EntryPosSum(1, 1);
  }

  lemma NotOnWire(wire: seq<Frame>, z: Frame, v: Frame)
    requires |wire| == 5 && wire[..4][..3] == [z, z, z] && v != z && v.canId != 0
    requires wire[..4][3].canId == wire[4].canId == 0
    ensures v !in wire
  {
    assert wire == wire[..4][..3] + [wire[..4][3], wire[4]];
  }

  /** The drains pass the bytes of frame v, which the last two entries have overwritten:
      it is below the tail and was never sent. */
  lemma FullRingLosesAFrame(z: Frame, v: Frame, g: Frame) returns (actions: seq<Action>)
    requires v != z && v.canId != 0 && IsDecoy(g)
    ensures
      var s := Run(actions);
      && |s.log| == 224 && s.log[2] == v
      && EntryPos(2) < s.tail && v !in s.wire
      && !Safe(s)
  {
    actions := FirstDecoy(z, v, g);
    assert Run(actions).log[2] == v && Run(actions).log[223] == g;
    actions := DecoyDrain(actions, 4, 223);
    NotOnWire(Run(actions).wire, z, v);
    NeverSentIsNotSafe(Run(actions), 2);
  }

  /** Drain 1 has loaded the tail, both frames are sent, and the client fills the ring. */
  lemma LateCopy(z: Frame, g: Frame) returns (actions: seq<Action>)
    ensures
      var s := Run(actions);
      && s.log == [z, z] + Repeated(g, 221) && s.wire == [z, z] && !s.inFlight
      && 1 in s.drains && s.drains[1] == CopyEntry(0)
  {
    assert Run([]) == Start();
    RoomAppends([], [z, z]);
    actions := [] + Appends([z, z]);
    assert [] + [z, z] == [z, z];
    actions := LoadPhase(actions, 1);
    actions := EntryDrain(actions, 0, 0);
    actions := EntryDrain(actions, 2, 1);
    RoomAppends(actions, Repeated(g, 221));
    actions := actions + Appends(Repeated(g, 221));
  }

  /** A copy that is not made in time: the drain sends bytes of two other entries as a frame
      that the client never wrote. */
  lemma LateCopySendsForeignFrame(z: Frame, g: Frame) returns (actions: seq<Action>)
    requires z.canId != 0 && g.canId != 0 && IsDecoy(g)
    ensures
      var s := Run(actions);
      |s.wire| == 3 && s.wire[2] !in s.log
  {
    actions := LateCopy(z, g);
    var s := Run(actions);
    RunKeepsPlaces(actions);
    DistanceBound(s, 0);
    DecoyIsCopied(s, 0, 221);
    actions := Then(actions, TxDrain.Advance(1, true));
    actions := SendPhase(actions, 1);
    assert forall f :: f in s.log ==> f.canId != 0;
  }
}
