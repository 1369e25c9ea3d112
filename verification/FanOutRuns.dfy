/**
 Runs of the client's fan-out: what each reader has been given, whatever the other
 readers do.
 */
module FanOutRuns {
  import opened MachineInts
  import opened CanFrame
  import opened FanOut

  datatype Action =
    | Register(channel: int)
    | Unregister(id: int)
    | Read(id: int)
    | Drain(packet: Packet)
    | Open(channel: int)

  /** Since a reader was registered or its channel opened: the packets drained on its
      channel, those it has read, and how many its full FIFO missed. */
  datatype Log = Log(offered: seq<Packet>, read: seq<Packet>, missed: nat)

  datatype Slot = Slot(reader: Reader, log: Log)

  const EMPTY_LOG := Log([], [], 0)

  function AfterOffer(s: Slot, p: Packet): Slot {
    if !s.reader.active || s.reader.channel != ChannelOf(p) then s
    else
      var full := |s.reader.queue| >= 2047;
      Slot(Offered(s.reader, p, ChannelOf(p)),
           s.log.(offered := s.log.offered + [p], missed := if full then s.log.missed + 1 else s.log.missed))
  }

  function AfterRead(s: Slot): Slot {
    if s.reader.queue == [] then s
    else Slot(s.reader.(queue := s.reader.queue[1..]), s.log.(read := s.log.read + [s.reader.queue[0]]))
  }

  /** What an action does to slot i; `free` is the slot a new reader gets. */
  function SlotAfter(s: Slot, i: nat, free: nat, a: Action): Slot {
    match a
    case Register(channel) => if i == free then Slot(Reader(true, channel, []), EMPTY_LOG) else s
    case Unregister(id) => if i == id then s.(reader := s.reader.(active := false, channel := -1)) else s
    case Read(id) => if i == id then AfterRead(s) else s
    case Drain(p) => AfterOffer(s, p)
    case Open(channel) =>
      if s.reader.active && s.reader.channel == channel
      then Slot(WithoutBacklog(s.reader, channel), EMPTY_LOG) else s
  }

  function Readers(s: seq<Slot>): (rs: seq<Reader>)
    ensures |rs| == |s|
  {
    seq(|s|, i requires 0 <= i < |s| => s[i].reader)
  }

  function Do(s: seq<Slot>, a: Action): (s': seq<Slot>)
    ensures |s'| == |s|
  {
    seq(|s|, i requires 0 <= i < |s| => SlotAfter(s[i], i, FirstFree(Readers(s)), a))
  }

  function Start(): seq<Slot> {
    seq(MAX_READERS, i => Slot(Reader(false, -1, []), EMPTY_LOG))
  }

  function Run(actions: seq<Action>): (s: seq<Slot>)
    ensures |s| == MAX_READERS
  {
    if actions == [] then Start() else Do(Run(actions[..|actions| - 1]), actions[|actions| - 1])
  }

  /** A new client is where the runs start. */
  method NewClient() returns (c: Client)
    ensures fresh(c) && fresh(c.readers) && fresh(c.Fifos())
    ensures c.Represents(Readers(Start()))
  {
    c := new Client();
    assert Readers(Start()) == FreeSlots();
  }

  /** What an action does to the readers of all slots. */
  lemma ReadersAfter(s: seq<Slot>, a: Action)
    requires |s| == MAX_READERS
    ensures
      var rs, next := Readers(s), Readers(Do(s, a));
      match a
      case Register(channel) =>
        next == if FirstFree(rs) < MAX_READERS then rs[FirstFree(rs) := Reader(true, channel, [])] else rs
      case Unregister(id) =>
        next == if 0 <= id < MAX_READERS then rs[id := rs[id].(active := false, channel := -1)] else rs
      case Read(id) =>
        next == if 0 <= id < MAX_READERS
          then rs[id := rs[id].(queue := rs[id].queue[Min(1, |rs[id].queue|)..])] else rs
      case Drain(p) => next == OfferedToAll(rs, p, ChannelOf(p))
      case Open(channel) => next == ChannelCleared(rs, channel)
  {
  }

  lemma ReadIsLogged(s: seq<Slot>, id: int)
    requires 0 <= id < |s|
    ensures
      var queue := Readers(s)[id].queue;
      Do(s, Read(id))[id].log.read == s[id].log.read + queue[..Min(1, |queue|)]
  {
  }

  method PerformRead(c: Client, id: int, ghost s: seq<Slot>) returns (taken: seq<Packet>)
    requires c.Represents(Readers(s))
    modifies c.readers
    ensures c.Represents(Readers(Do(s, Read(id))))
    ensures 0 <= id < |s| ==> Do(s, Read(id))[id].log.read == s[id].log.read + taken
  {
    ReadersAfter(s, Read(id));
    if 0 <= id < |s| {
      ReadIsLogged(s, id);
    }
    taken := c.ReadPacket(id, Readers(s));
  }

  /** The client performs a step of the model; a read returns what the log gains. */
  method Perform(c: Client, a: Action, ghost s: seq<Slot>) returns (taken: seq<Packet>)
    requires c.Represents(Readers(s))
    modifies c.readers, c.Fifos()
    ensures c.Represents(Readers(Do(s, a)))
    ensures a.Read? && 0 <= a.id < |s| ==> Do(s, a)[a.id].log.read == s[a.id].log.read + taken
    ensures !a.Read? ==> taken == []
  {
    ghost var rs := Readers(s);
    ReadersAfter(s, a);
    taken := [];
    match a
    case Register(channel) => var id := c.RegisterReader(channel, rs);
    case Unregister(id) => c.UnregisterReader(id, rs);
    case Read(id) => taken := PerformRead(c, id, s);
    case Drain(p) => c.FanOutPacket(p, ChannelOf(p), rs);
    case Open(channel) => c.ClearChannel(channel, rs);
  }

  // ---- A reader's packets are a subsequence of those drained on its channel ----

  predicate IsSubsequence<T(==)>(a: seq<T>, b: seq<T>) {
    if a == [] then true
    else if b == [] then false
    else
      var a', b' := a[..|a| - 1], b[..|b| - 1];
      IsSubsequence(a, b') || (a[|a| - 1] == b[|b| - 1] && IsSubsequence(a', b'))
  }

  lemma SubsequenceGrows<T>(a: seq<T>, b: seq<T>, x: T)
    requires IsSubsequence(a, b)
    ensures IsSubsequence(a, b + [x]) && IsSubsequence(a + [x], b + [x])
  {
    assert (b + [x])[..|b|] == b && (a + [x])[..|a|] == a;
  }

  lemma {:induction false} SubsequenceIsShorter<T>(a: seq<T>, b: seq<T>)
    requires IsSubsequence(a, b)
    ensures |a| <= |b| && (|a| == |b| ==> a == b)
  {
    if a != [] && b != [] {
      if IsSubsequence(a, b[..|b| - 1]) {
        SubsequenceIsShorter(a, b[..|b| - 1]);
      } else {
        SubsequenceIsShorter(a[..|a| - 1], b[..|b| - 1]);
      }
    }
  }

  predicate Accounted(s: Slot) {
    && IsSubsequence(s.log.read + s.reader.queue, s.log.offered)
    && |s.log.offered| == |s.log.read| + |s.reader.queue| + s.log.missed
  }

  lemma OfferStaysAccounted(s: Slot, p: Packet)
    requires Accounted(s)
    ensures Accounted(AfterOffer(s, p))
  {
    var got := s.log.read + s.reader.queue;
    SubsequenceGrows(got, s.log.offered, p);
    assert got + [p] == s.log.read + (s.reader.queue + [p]);
  }

  lemma SlotStaysAccounted(s: Slot, i: nat, free: nat, a: Action)
    requires Accounted(s)
    ensures Accounted(SlotAfter(s, i, free, a))
  {
    match a
    case Drain(p) => OfferStaysAccounted(s, p);
    case Read(id) =>
      if s.reader.queue != [] {
        assert s.log.read + s.reader.queue == (s.log.read + [s.reader.queue[0]]) + s.reader.queue[1..];
      }
    case _ =>
  }

  /** What a reader has read followed by what waits in its FIFO is a subsequence of the
      packets drained on its channel; it is all of them exactly if its FIFO has never
      been full when one came. */
  lemma {:induction false} ReaderGetsWhatWasOffered(actions: seq<Action>, i: nat)
    requires i < MAX_READERS
    ensures
      var s := Run(actions)[i];
      && IsSubsequence(s.log.read + s.reader.queue, s.log.offered)
      && (s.log.read + s.reader.queue == s.log.offered <==> s.log.missed == 0)
  {
    RunIsAccounted(actions, i);
    var s := Run(actions)[i];
    SubsequenceIsShorter(s.log.read + s.reader.queue, s.log.offered);
  }

  lemma {:induction false} RunIsAccounted(actions: seq<Action>, i: nat)
    requires i < MAX_READERS
    ensures Accounted(Run(actions)[i])
  {
    if actions != [] {
      var before := actions[..|actions| - 1];
      RunIsAccounted(before, i);
      SlotStaysAccounted(Run(before)[i], i, FirstFree(Readers(Run(before))), actions[|actions| - 1]);
    }
  }

  // ---- Channels ----

  /** A reader of channel 1 hears the packets that carry 1, a reader of channel 0 all others. */
  predicate Hears(channel: int, p: Packet) {
    if p.frame.res0 == 1 then channel == 1 else channel == 0
  }

  /** The packets drained on the channel of the reader in slot i since it was registered or
      its channel was opened. */
  function Heard(actions: seq<Action>, i: nat): seq<Packet>
    requires i < MAX_READERS
  {
    if actions == [] then []
    else
      var before, a := actions[..|actions| - 1], actions[|actions| - 1];
      var rs := Readers(Run(before));
      match a
      case Register(_) => if i == FirstFree(rs) then [] else Heard(before, i)
      case Open(channel) => if rs[i].active && rs[i].channel == channel then [] else Heard(before, i)
      case Drain(p) =>
        if rs[i].active && Hears(rs[i].channel, p) then Heard(before, i) + [p] else Heard(before, i)
      case _ => Heard(before, i)
  }

  /** A reader is offered exactly the packets on its channel, in order. */
  lemma {:induction false} OfferedIsHeard(actions: seq<Action>, i: nat)
    requires i < MAX_READERS
    ensures Run(actions)[i].log.offered == Heard(actions, i)
  {
    if actions != [] {
      OfferedIsHeard(actions[..|actions| - 1], i);
    }
  }

  predicate AllHeard(channel: int, ps: seq<Packet>) {
    forall p :: p in ps ==> Hears(channel, p)
  }

  lemma {:induction false} SubsequenceMembers<T>(a: seq<T>, b: seq<T>, x: T)
    requires IsSubsequence(a, b) && x in a
    ensures x in b
  {
    if b != [] && IsSubsequence(a, b[..|b| - 1]) {
      SubsequenceMembers(a, b[..|b| - 1], x);
    } else if b != [] && x != a[|a| - 1] {
      SubsequenceMembers(a[..|a| - 1], b[..|b| - 1], x);
    }
  }

  lemma {:induction false} ActiveHearsItsChannel(actions: seq<Action>, i: nat)
    requires i < MAX_READERS && Run(actions)[i].reader.active
    ensures AllHeard(Run(actions)[i].reader.channel, Run(actions)[i].log.offered)
  {
    if actions != [] {
      var before := actions[..|actions| - 1];
      if Run(before)[i].reader.active {
        ActiveHearsItsChannel(before, i);
      }
    }
  }

  /** What a registered reader has read and what waits for it came on its channel: res0 is 1
      for a reader of channel 1, and not 1 for a reader of channel 0. */
  lemma PacketsAreOnChannel(actions: seq<Action>, i: nat, p: Packet)
    requires i < MAX_READERS && Run(actions)[i].reader.active
    requires p in Run(actions)[i].log.read + Run(actions)[i].reader.queue
    ensures p.frame.res0 == 1 <==> Run(actions)[i].reader.channel == 1
    ensures p.frame.res0 != 1 <==> Run(actions)[i].reader.channel == 0
  {
    var s := Run(actions)[i];
    RunIsAccounted(actions, i);
    SubsequenceMembers(s.log.read + s.reader.queue, s.log.offered, p);
    ActiveHearsItsChannel(actions, i);
  }

  // ---- No reader depends on the reads of another ----

  /** The actions without the reads of all readers but i. */
  function WithoutOtherReads(actions: seq<Action>, i: nat): seq<Action> {
    if actions == [] then []
    else
      var rest, last := WithoutOtherReads(actions[..|actions| - 1], i), actions[|actions| - 1];
      if last.Read? && last.id != i then rest else rest + [last]
  }

  /** The same slots are in use for the same channels, and slot i is the same. */
  predicate SameFor(s: seq<Slot>, t: seq<Slot>, i: nat) {
    && |s| == |t| && i < |s| && s[i] == t[i]
    && forall j :: 0 <= j < |s| ==>
         s[j].reader.active == t[j].reader.active && s[j].reader.channel == t[j].reader.channel
  }

  lemma {:induction false} SameFirstFree(rs: seq<Reader>, qs: seq<Reader>)
    requires |rs| == |qs| && forall j :: 0 <= j < |rs| ==> rs[j].active == qs[j].active
    ensures FirstFree(rs) == FirstFree(qs)
    decreases |rs|
  {
    if rs != [] && rs[0].active {
      SameFirstFree(rs[1..], qs[1..]);
    }
  }

  lemma SameForAfter(s: seq<Slot>, t: seq<Slot>, i: nat, a: Action)
    requires SameFor(s, t, i)
    ensures SameFor(Do(s, a), Do(t, a), i)
  {
    SameFirstFree(Readers(s), Readers(t));
  }

  lemma OtherReadChangesNothing(s: seq<Slot>, i: nat, id: int)
    requires i < |s| && id != i
    ensures SameFor(Do(s, Read(id)), s, i)
  {
  }

  /** A reader's packets do not depend on when, or whether, other readers read. */
  lemma {:induction false} ReadersAreIndependent(actions: seq<Action>, i: nat)
    requires i < MAX_READERS
    ensures SameFor(Run(actions), Run(WithoutOtherReads(actions, i)), i)
  {
    if actions != [] {
      var before, last := actions[..|actions| - 1], actions[|actions| - 1];
      var rest := WithoutOtherReads(before, i);
      ReadersAreIndependent(before, i);
      if last.Read? && last.id != i {
        OtherReadChangesNothing(Run(before), i, last.id);
      } else {
        assert (rest + [last])[..|rest|] == rest;
        SameForAfter(Run(before), Run(rest), i, last);
      }
    }
  }
}
