/**
  The TLS fingerprinter's map of captured hellos, as steps that may interleave
  in any way. Each stored hello is a new object, named here by a number; its
  delayed goroutine deletes the entry only if it still holds that object.
 */
module TlsExpiry {

  type Key = string

  datatype Entry = Entry(key: Key, hello: nat)

  /**
    `admitted` holds the handlers that have found the fingerprinter open and have
    yet to store, `starting` the entries stored by a handler that has yet to
    start its goroutine.
   */
  datatype State = State(
    hellos: map<Key, nat>, unused: nat, admitted: set<nat>, starting: set<Entry>, timers: set<Entry>, closed: bool)

  datatype Step =
    | Admit(handler: nat)
    | Fail(handler: nat)               // nothing readable or parsable came
    | Store(handler: nat, key: Key)
    | Start(entry: Entry)
    | Expire(entry: Entry)
    | Peek(key: Key)
    | Pop(key: Key)
    | Close

  const INITIAL := State(map[], 0, {}, {}, {}, false)

  /** A step that cannot be taken leaves the state alone. */
  function Take(s: State, step: Step): State {
    match step
    case Admit(h) => if s.closed then s else s.(admitted := s.admitted + {h})
    case Fail(h) => s.(admitted := s.admitted - {h})
    case Store(h, k) =>
      if h !in s.admitted then s
      else s.(admitted := s.admitted - {h}, hellos := s.hellos[k := s.unused], unused := s.unused + 1,
              starting := s.starting + {Entry(k, s.unused)})
    case Start(e) =>
      if e !in s.starting then s else s.(starting := s.starting - {e}, timers := s.timers + {e})
    case Expire(e) =>
      if e !in s.timers then s else
        s.(timers := s.timers - {e},
           hellos := if e.key in s.hellos && s.hellos[e.key] == e.hello then s.hellos - {e.key} else s.hellos)
    case Peek(_) => s
    case Pop(k) => s.(hellos := s.hellos - {k})
    case Close => s.(closed := true)
  }

  ghost function Run(steps: seq<Step>): State {
    if steps == [] then INITIAL else Take(Run(steps[..|steps| - 1]), steps[|steps| - 1])
  }

  /** Every stored hello has its own timer, pending or about to start; no number is used twice. */
  ghost predicate Inv(s: State) {
    && (forall k :: k in s.hellos ==> Entry(k, s.hellos[k]) in s.starting + s.timers)
    && (forall e :: e in s.starting + s.timers ==> e.hello < s.unused)
    && (forall e, f :: e in s.starting + s.timers && f in s.starting + s.timers && e.hello == f.hello ==> e == f)
    && s.starting !! s.timers
  }

  lemma TakeKeepsInv(s: State, step: Step)
    requires Inv(s)
    ensures Inv(Take(s, step))
  {
  }

  lemma {:induction false} RunKeepsInv(steps: seq<Step>)
    ensures Inv(Run(steps))
  {
    hide Inv, Take;
    if steps == [] {
      EmptyInv();
    } else {
      RunKeepsInv(steps[..|steps| - 1]);
      TakeKeepsInv(Run(steps[..|steps| - 1]), steps[|steps| - 1]);
    }
  }

  lemma EmptyInv()
    ensures Inv(INITIAL)
  {
  }

  /** In every interleaving, once no timer is left and none is to start, the map is empty. */
  lemma EmptyWhenAllFired(steps: seq<Step>)
    requires Run(steps).timers == {} && Run(steps).starting == {}
    ensures Run(steps).hellos == map[]
  {
    RunKeepsInv(steps);
    assert Run(steps).starting + Run(steps).timers == {};
  }

  /** A stored hello leaves the map only by its own timer, by a pop of its key, or under a newer hello. */
  lemma LeavesOnlyBy(steps: seq<Step>, step: Step, k: Key)
    requires k in Run(steps).hellos
    ensures var s := Run(steps);
            var t := Run(steps + [step]);
            (k in t.hellos && t.hellos[k] == s.hellos[k]) ||
            step == Expire(Entry(k, s.hellos[k])) || step == Pop(k) ||
            (step.Store? && step.key == k && k in t.hellos && t.hellos[k] > s.hellos[k])
  {
    RunKeepsInv(steps);
    assert (steps + [step])[..|steps|] == steps;
  }

  /** From its store to its own expiry a hello that is neither popped nor replaced can be peeked at. */
  lemma {:induction false} StaysUntil(steps: seq<Step>, more: seq<Step>, k: Key)
    requires k in Run(steps).hellos
    requires forall m :: m in more ==>
               !(m.Store? && m.key == k) && m != Pop(k) && m != Expire(Entry(k, Run(steps).hellos[k]))
    ensures k in Run(steps + more).hellos && Run(steps + more).hellos[k] == Run(steps).hellos[k]
    decreases |more|
  {
    if more == [] {
      assert steps + more == steps;
    } else {
      var n := |more| - 1;
      assert more[n] in more && forall m :: m in more[..n] ==> m in more;
      StaysUntil(steps, more[..n], k);
      assert steps + more == steps + more[..n] + [more[n]];
      LeavesOnlyBy(steps + more[..n], more[n], k);
    }
  }

  /** From a closed fingerprinter entries only go, other than by the handlers that were admitted before. */
  lemma ClosedStep(s: State, step: Step)
    requires s.closed
    ensures var t := Take(s, step);
            && t.closed && t.admitted <= s.admitted
            && (forall k :: k in t.hellos ==>
                  || (k in s.hellos && t.hellos[k] == s.hellos[k])
                  || (step.Store? && step.handler in s.admitted && step.handler !in t.admitted && step.key == k))
  {
  }

  /** Once closed and with no handler left that was admitted before, nothing is ever stored again. */
  lemma {:induction false} ClosedForGood(steps: seq<Step>, more: seq<Step>)
    requires Run(steps).closed && Run(steps).admitted == {}
    ensures var s, t := Run(steps), Run(steps + more);
            t.closed && t.admitted == {} && forall k :: k in t.hellos ==> k in s.hellos && t.hellos[k] == s.hellos[k]
    decreases |more|
  {
    hide Run, Take;
    if more == [] {
      assert steps + more == steps;
    } else {
      var n := |more| - 1;
      var before := steps + more[..n];
      ClosedForGood(steps, more[..n]);
      assert steps + more == before + [more[n]];
      RunSnoc(before, more[n]);
      ClosedStep(Run(before), more[n]);
    }
  }

  lemma RunSnoc(steps: seq<Step>, step: Step)
    ensures Run(steps + [step]) == Take(Run(steps), step)
  {
  }

  /** Exactly then: after a close, no continuation stores anything new just when no admitted handler is left. */
  lemma NothingStoredIff(steps: seq<Step>)
    requires Run(steps).closed
    ensures Run(steps).admitted == {} <==>
            forall more, k :: k in Run(steps + more).hellos ==> HeldBefore(steps, more, k)
  {
    hide Run;
    if Run(steps).admitted == {} {
      forall more, k | k in Run(steps + more).hellos
        ensures HeldBefore(steps, more, k)
      {
        ClosedForGood(steps, more);
      }
    } else {
      var h :| h in Run(steps).admitted;
      var store := [Store(h, "")];
      RunSnoc(steps, store[0]);
      RunKeepsInv(steps);
      assert "" in Run(steps + store).hellos && !HeldBefore(steps, store, "");
    }
  }

  ghost predicate HeldBefore(steps: seq<Step>, more: seq<Step>, k: Key)
    requires k in Run(steps + more).hellos
  {
    k in Run(steps).hellos && Run(steps).hellos[k] == Run(steps + more).hellos[k]
  }

  /** Closing alone does not stop stores: a handler admitted before can still make one, from any run. */
  lemma StoreAfterClose(steps: seq<Step>, h: nat, k: Key)
    requires h in Run(steps).admitted
    ensures var t := Run(steps + [Close] + [Store(h, k)]);
            t.closed && k in t.hellos && t.hellos[k] == Run(steps).unused
  {
    hide Run;
    RunSnoc(steps, Close);
    RunSnoc(steps + [Close], Store(h, k));
  }

  // ----- Entries do go -----

  /** A pop removes the entry at once. */
  lemma PopRemoves(steps: seq<Step>, k: Key)
    ensures k !in Run(steps + [Pop(k)]).hellos
  {
    RunSnoc(steps, Pop(k));
  }

  /** From any run, the entry of a key goes once its own goroutine has started and its timer has fired. */
  lemma EntryExpires(steps: seq<Step>, k: Key)
    requires k in Run(steps).hellos
    ensures var e := Entry(k, Run(steps).hellos[k]);
            k !in Run(steps + [Start(e)] + [Expire(e)]).hellos
  {
    hide Run;
    var e := Entry(k, Run(steps).hellos[k]);
    RunKeepsInv(steps);
    RunSnoc(steps, Start(e));
    RunSnoc(steps + [Start(e)], Expire(e));
  }

  /** A handler that finds the fingerprinter open stores what it has parsed, under a number of its own. */
  lemma OpenStores(steps: seq<Step>, h: nat, k: Key)
    requires !Run(steps).closed
    ensures var t := Run(steps + [Admit(h)] + [Store(h, k)]);
            k in t.hellos && t.hellos[k] == Run(steps).unused
  {
    hide Run;
    RunSnoc(steps, Admit(h));
    RunSnoc(steps + [Admit(h)], Store(h, k));
  }
}
