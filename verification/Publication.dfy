/**
  How a completed gathering is published: writers that hold the mutex set the
  fields one by one, the completion flag next to last and the channel last,
  while readers that hold nothing look at the flag and then at the fields.
  Steps of different threads may interleave in any way.
 */
module Publication {
  import opened Options

  datatype Parameters = Parameters(failed: bool, numID: nat)

  datatype ClientHello = ClientHello(normNumID: int, quic: Option<Parameters>)

  /** What `ParseQUICClientHello` lets through: a hello that parsed, with transport parameters that did too. */
  predicate Usable(h: Option<ClientHello>) {
    h.Some? && h.value.quic.Some? && !h.value.quic.value.failed
  }

  /** Where a writer is in `AddPacket` and `lockedGatherComplete`. */
  datatype Writer = Locked | Reconstructing | HelloSet | ParamsSet | IdSet | Flagged

  datatype Snapshot = Snapshot(numID: nat, hello: Option<ClientHello>, params: Option<Parameters>)

  /** Where a reader is in `Wait` and `GenerateQUICFingerprint`. */
  datatype Reader =
    | Waiting
    | Woken
    | Returned
    | ReadID(numID: nat)
    | ReadHello(numID: nat, hello: Option<ClientHello>)
    | Done(snapshot: Snapshot)
    | Expired
    | Diverged

  /** `first` is the ID computed from the packets gathered so far. */
  datatype State = State(
    first: nat, hello: Option<ClientHello>, params: Option<Parameters>, numID: nat,
    completed: bool, onceUsed: bool, closes: nat,
    mutex: Option<nat>, writer: Writer, readers: map<nat, Reader>)

  datatype Step =
    | Lock(thread: nat)
    | Unlock                                   // the packet is rejected, repeated, or completes nothing
    | Keep(first: nat)                         // the packet is kept
    | Begin                                    // the CRYPTO stream is complete
    | SetHello(parsed: Option<ClientHello>)
    | SetParams
    | SetID
    | SetFlag
    | CloseChannel
    | WaitCalled(reader: nat)
    | TimerFired(reader: nat)
    | ChannelSeen(reader: nat)
    | FlagChecked(reader: nat)
    | Look(reader: nat)

  const INITIAL := State(0, None, None, 0, false, false, 0, None, Locked, map[])

  function TakeWriter(s: State, step: Step): State {
    if step.Lock? then (if s.mutex == None then s.(mutex := Some(step.thread), writer := Locked) else s)
    else if s.mutex == None then s
    else if step.Unlock? && s.writer == Locked then s.(mutex := None)
    else if step.Keep? && s.writer == Locked && s.hello == None then s.(first := step.first)
    else if step.Begin? && s.writer == Locked && s.hello == None then s.(writer := Reconstructing)
    else if step.SetHello? && s.writer == Reconstructing then
      if Usable(step.parsed) then s.(hello := step.parsed, writer := HelloSet) else s.(hello := None, mutex := None)
    else if step.SetParams? && s.writer == HelloSet && s.hello.Some? then
      s.(params := s.hello.value.quic, writer := ParamsSet)
    else if step.SetID? && s.writer == ParamsSet then s.(numID := s.first, writer := IdSet)
    else if step.SetFlag? && s.writer == IdSet then s.(completed := true, writer := Flagged)
    else if step.CloseChannel? && s.writer == Flagged then
      s.(closes := if s.onceUsed then s.closes else s.closes + 1, onceUsed := true, mutex := None)
    else s
  }

  function TakeReader(s: State, r: nat, step: Step): State {
    if r !in s.readers then
      (if step.WaitCalled? then s.(readers := s.readers[r := if s.completed then Returned else Waiting]) else s)
    else
      var at := s.readers[r];
      if step.TimerFired? && at.Waiting? then s.(readers := s.readers[r := Expired])
      else if step.ChannelSeen? && at.Waiting? && s.closes > 0 then s.(readers := s.readers[r := Woken])
      else if step.FlagChecked? && at.Woken? then
        s.(readers := s.readers[r := if s.completed then Returned else Diverged])
      else if step.Look? && at.Returned? then s.(readers := s.readers[r := ReadID(s.numID)])
      else if step.Look? && at.ReadID? then s.(readers := s.readers[r := ReadHello(at.numID, s.hello)])
      else if step.Look? && at.ReadHello? then
        s.(readers := s.readers[r := Done(Snapshot(at.numID, at.hello, s.params))])
      else s
  }

  function Take(s: State, step: Step): State {
    match step
    case WaitCalled(r) => TakeReader(s, r, step)
    case TimerFired(r) => TakeReader(s, r, step)
    case ChannelSeen(r) => TakeReader(s, r, step)
    case FlagChecked(r) => TakeReader(s, r, step)
    case Look(r) => TakeReader(s, r, step)
    case _ => TakeWriter(s, step)
  }

  ghost function Run(steps: seq<Step>): State {
    if steps == [] then INITIAL else Take(Run(steps[..|steps| - 1]), steps[|steps| - 1])
  }

  // ----- What every interleaving keeps -----

  ghost predicate WriterInv(s: State) {
    && (s.mutex == None ==> s.completed == s.hello.Some?)
    && (s.mutex.Some? ==>
          match s.writer
          case Locked => s.completed == s.hello.Some?
          case Reconstructing => !s.completed && s.hello == None
          case HelloSet => !s.completed && Usable(s.hello)
          case ParamsSet => !s.completed && Usable(s.hello) && s.params == s.hello.value.quic
          case IdSet => !s.completed && Usable(s.hello) && s.params == s.hello.value.quic && s.numID == s.first
          case Flagged => s.completed && s.closes == 0)
    && (s.completed ==> Usable(s.hello) && s.params == s.hello.value.quic && s.numID == s.first)
    && (s.closes > 0 ==> s.completed)
    && s.closes == (if s.onceUsed then 1 else 0)
    && (s.completed && !(s.mutex.Some? && s.writer == Flagged) ==> s.closes == 1)
  }

  ghost predicate ReaderInv(s: State, r: Reader) {
    match r
    case Waiting => true
    case Expired => true
    case Woken => s.completed
    case Returned => s.completed
    case ReadID(id) => s.completed && id == s.numID
    case ReadHello(id, h) => s.completed && id == s.numID && h == s.hello
    case Done(x) => s.completed && x == Snapshot(s.numID, s.hello, s.params)
    case Diverged => false
  }

  ghost predicate Inv(s: State) {
    WriterInv(s) && forall r :: r in s.readers ==> ReaderInv(s, s.readers[r])
  }

  /** What readers may look at. */
  ghost predicate SamePublished(s: State, t: State) {
    s.completed ==>
      t.completed && t.hello == s.hello && t.params == s.params && t.numID == s.numID && t.first == s.first
  }

  lemma WriterKeeps(s: State, step: Step)
    requires WriterInv(s)
    ensures var t := TakeWriter(s, step); WriterInv(t) && SamePublished(s, t) && t.readers == s.readers
  {
  }

  lemma ReaderKeeps(s: State, r: nat, step: Step)
    requires Inv(s)
    ensures Inv(TakeReader(s, r, step)) && SamePublished(s, TakeReader(s, r, step))
  {
  }

  lemma TakeKeepsInv(s: State, step: Step)
    requires Inv(s)
    ensures Inv(Take(s, step)) && SamePublished(s, Take(s, step))
  {
    hide TakeWriter, TakeReader, WriterInv;
    match step
    case WaitCalled(r) => ReaderKeeps(s, r, step);
    case TimerFired(r) => ReaderKeeps(s, r, step);
    case ChannelSeen(r) => ReaderKeeps(s, r, step);
    case FlagChecked(r) => ReaderKeeps(s, r, step);
    case Look(r) => ReaderKeeps(s, r, step);
    case _ => WriterKeeps(s, step);
  }

  lemma {:induction false} RunKeepsInv(steps: seq<Step>)
    ensures Inv(Run(steps))
  {
    if steps == [] {
    } else {
      RunKeepsInv(steps[..|steps| - 1]);
      TakeKeepsInv(Run(steps[..|steps| - 1]), steps[|steps| - 1]);
    }
  }

  lemma {:induction false} PublishedForGood(steps: seq<Step>, more: seq<Step>)
    ensures SamePublished(Run(steps), Run(steps + more))
    decreases |more|
  {
    hide Take, Inv, SamePublished;
    if more == [] {
      assert steps + more == steps;
      Unchanged(Run(steps));
    } else {
      var n := |more| - 1;
      var before := steps + more[..n];
      PublishedForGood(steps, more[..n]);
      RunKeepsInv(before);
      TakeKeepsInv(Run(before), more[n]);
      assert (steps + more)[..|before|] == before && (steps + more)[|before|] == more[n];
      Chain(Run(steps), Run(before), Run(steps + more));
    }
  }

  lemma Unchanged(s: State)
    ensures SamePublished(s, s)
  {
  }

  lemma Chain(s: State, t: State, u: State)
    requires SamePublished(s, t) && SamePublished(t, u)
    ensures SamePublished(s, u)
  {
  }

  lemma HelloFrom(s: State, step: Step)
    requires Take(s, step).hello != s.hello
    ensures step.SetHello?
    ensures Take(s, step).hello == None || (Take(s, step).hello == step.parsed && Usable(step.parsed))
  {
  }

  /**
    The hello that the gatherer holds, at any point of any interleaving, was
    parsed as it stands by some writer and passed both checks on its transport
    parameters; so a run in which no parse passes them publishes nothing.
   */
  lemma {:induction false} HeldWasAccepted(steps: seq<Step>)
    requires Run(steps).hello.Some?
    ensures SetHello(Run(steps).hello) in steps && Usable(Run(steps).hello)
  {
    hide Take, Usable;
    var before, last := steps[..|steps| - 1], steps[|steps| - 1];
    if Run(steps).hello == Run(before).hello {
      HeldWasAccepted(before);
      assert forall step :: step in before ==> step in steps;
    } else {
      HelloFrom(Run(before), last);
      assert last == SetHello(Run(steps).hello);
    }
  }

  /** And it is never replaced by a rejected parse: the first usable hello stays. */
  lemma {:induction false} FirstAcceptedStays(steps: seq<Step>, more: seq<Step>)
    requires Run(steps).hello.Some?
    ensures Run(steps + more).hello == Run(steps).hello
    decreases |more|
  {
    hide Take, Inv;
    if more == [] {
      assert steps + more == steps;
    } else {
      var n := |more| - 1;
      var before := steps + more[..n];
      FirstAcceptedStays(steps, more[..n]);
      assert (steps + more)[..|before|] == before && (steps + more)[|before|] == more[n];
      RunKeepsInv(before);
      HelloKept(Run(before), more[n]);
    }
  }

  lemma HelloKept(s: State, step: Step)
    requires Inv(s) && s.hello.Some?
    ensures Take(s, step).hello == s.hello
  {
  }

  /**
    In every interleaving: a reader that saw the flag has read a ClientHello,
    error-free transport parameters that are that hello's own, and the ID of
    the packets gathered, all of them as they stay for good; none finds the channel closed before the
    flag is set; and the channel is closed at most once.
   */
  lemma PublicationSafety(steps: seq<Step>, more: seq<Step>, r: nat)
    requires r in Run(steps).readers
    ensures Run(steps).closes <= 1
    ensures Run(steps).readers[r] != Diverged
    ensures Run(steps).readers[r].Done? ==>
              var x, t := Run(steps).readers[r].snapshot, Run(steps + more);
              && Usable(x.hello) && x.params == x.hello.value.quic
              && t.completed && x == Snapshot(t.numID, t.hello, t.params) && x.numID == t.first
  {
    RunKeepsInv(steps);
    PublishedForGood(steps, more);
    assert ReaderInv(Run(steps), Run(steps).readers[r]);
  }

  // ----- Completion is reached -----

  /** A writer that gets the mutex before completion, with a usable hello, completes and closes the channel. */
  lemma WriterCompletes(s: State, thread: nat, parsed: Option<ClientHello>)
    requires Inv(s) && s.mutex == None && s.hello == None && Usable(parsed)
    ensures var t := Take(Take(Take(Take(Take(Take(Take(
              s, Lock(thread)), Begin), SetHello(parsed)), SetParams), SetID), SetFlag), CloseChannel);
            && t.completed && t.closes == 1 && t.mutex == None
            && t.hello == parsed && t.params == parsed.value.quic && t.numID == s.first
  {
  }

  /** With a hello that cannot be used, it gives up the mutex and nothing is published. */
  lemma WriterGivesUp(s: State, thread: nat, parsed: Option<ClientHello>)
    requires Inv(s) && s.mutex == None && s.hello == None && !Usable(parsed)
    ensures Take(Take(Take(s, Lock(thread)), Begin), SetHello(parsed)).(writer := s.writer) == s
  {
  }

  /** After completion a reader that calls `Wait` goes straight on, and reads all that is published. */
  lemma LateReaderReads(s: State, r: nat)
    requires s.completed && r !in s.readers
    ensures var t := Take(Take(Take(Take(s, WaitCalled(r)), Look(r)), Look(r)), Look(r));
            r in t.readers && t.readers[r] == Done(Snapshot(s.numID, s.hello, s.params))
  {
  }

  /** One that is waiting is woken once the channel is closed, and does the same. */
  lemma WaitingReaderReads(s: State, r: nat)
    requires Inv(s) && s.closes > 0 && r in s.readers && s.readers[r] == Waiting
    ensures var t := Take(Take(Take(Take(Take(s, ChannelSeen(r)), FlagChecked(r)), Look(r)), Look(r)), Look(r));
            r in t.readers && t.readers[r] == Done(Snapshot(s.numID, s.hello, s.params))
  {
  }

  /** Before completion it waits, and its timer alone can end that. */
  lemma EarlyReaderWaits(s: State, r: nat)
    requires Inv(s) && !s.completed && r !in s.readers
    ensures var t := Take(s, WaitCalled(r));
            && t.readers == s.readers[r := Waiting]
            && Take(t, ChannelSeen(r)) == t && Take(t, TimerFired(r)).readers == s.readers[r := Reader.Expired]
  {
  }
}
