/**
  The QUIC fingerprinter's map of gatherers, as steps that may interleave in
  any way. A handler loads the gatherer of its source or stores a new one; the
  handler that stored it starts a goroutine that later deletes the key,
  whatever the map holds for it by then; every handler then feeds its packet to
  the gatherer it got.
 */
module QuicExpiry {

  type Key = string

  /** A handler past its lookup: the gatherer it chose, and whether it has yet to start the timer. */
  datatype Handler = Handler(key: Key, chosen: nat, owesTimer: bool)

  datatype Timer = Timer(key: Key, owner: nat)

  /** A packet from source `key` given to a gatherer. */
  datatype Fed = Fed(handler: nat, key: Key, gatherer: nat)

  datatype State = State(
    gatherers: map<Key, nat>, unused: nat, handlers: map<nat, Handler>, timers: set<Timer>, feeds: set<Fed>)

  datatype Step =
    | Lookup(handler: nat, key: Key)
    | Start(handler: nat)
    | Feed(handler: nat)
    | Expire(timer: Timer)
    | Pop(key: Key)

  const INITIAL := State(map[], 0, map[], {}, {})

  /** A step that cannot be taken leaves the state alone. */
  function Take(s: State, step: Step): State {
    match step
    case Lookup(h, k) =>
      if h in s.handlers then s
      else if k in s.gatherers then s.(handlers := s.handlers[h := Handler(k, s.gatherers[k], false)])
      else s.(gatherers := s.gatherers[k := s.unused], unused := s.unused + 1,
              handlers := s.handlers[h := Handler(k, s.unused, true)])
    case Start(h) =>
      if h in s.handlers && s.handlers[h].owesTimer then
        s.(timers := s.timers + {Timer(s.handlers[h].key, s.handlers[h].chosen)},
           handlers := s.handlers[h := s.handlers[h].(owesTimer := false)])
      else s
    case Feed(h) =>
      if h in s.handlers && !s.handlers[h].owesTimer then
        s.(feeds := s.feeds + {Fed(h, s.handlers[h].key, s.handlers[h].chosen)})
      else s
    case Expire(t) =>
      if t in s.timers then s.(timers := s.timers - {t}, gatherers := s.gatherers - {t.key}) else s
    case Pop(k) => s.(gatherers := s.gatherers - {k})
  }

  ghost function Run(steps: seq<Step>): State {
    if steps == [] then INITIAL else Take(Run(steps[..|steps| - 1]), steps[|steps| - 1])
  }

  lemma RunEmpty()
    ensures Run([]) == INITIAL
  {
  }

  lemma RunSnoc(steps: seq<Step>, step: Step)
    ensures Run(steps + [step]) == Take(Run(steps), step)
  {
  }

  lemma RunNext(steps: seq<Step>, i: nat)
    requires i < |steps|
    ensures Run(steps[..i + 1]) == Take(Run(steps[..i]), steps[i])
  {
    assert steps[..i + 1] == steps[..i] + [steps[i]];
    RunSnoc(steps[..i], steps[i]);
  }

  // ----- What every interleaving keeps -----

  ghost predicate Owes(s: State, h: nat, k: Key, g: nat) {
    h in s.handlers && s.handlers[h] == Handler(k, g, true)
  }

  /** A deletion of `k` on behalf of gatherer `g` is pending or about to be started. */
  ghost predicate Pending(s: State, k: Key, g: nat) {
    Timer(k, g) in s.timers || exists h :: Owes(s, h, k, g)
  }

  /** No gatherer has two deletions. */
  ghost predicate OneDeletion(s: State) {
    && (forall h, i :: h in s.handlers && i in s.handlers && h != i && s.handlers[h].owesTimer ==>
          s.handlers[i].owesTimer ==> s.handlers[h].chosen != s.handlers[i].chosen)
    && (forall h, t :: h in s.handlers && t in s.timers && s.handlers[h].owesTimer ==> s.handlers[h].chosen != t.owner)
  }

  ghost predicate AllPending(s: State) {
    forall k :: k in s.gatherers ==> Pending(s, k, s.gatherers[k])
  }

  /** Gatherers are numbered in the order of creation, and what was fed is what the handlers chose. */
  ghost predicate Numbered(s: State) {
    && (forall k :: k in s.gatherers ==> s.gatherers[k] < s.unused)
    && (forall h :: h in s.handlers ==> s.handlers[h].chosen < s.unused)
    && (forall t :: t in s.timers ==> t.owner < s.unused)
    && (forall f :: f in s.feeds ==>
          f.handler in s.handlers && s.handlers[f.handler].key == f.key && s.handlers[f.handler].chosen == f.gatherer)
  }

  ghost predicate Inv(s: State) {
    AllPending(s) && Numbered(s) && OneDeletion(s)
  }

  lemma PendingKept(s: State, step: Step, k: Key, g: nat)
    requires Pending(s, k, g) && (step == Expire(Timer(k, g)) ==> Timer(k, g) !in s.timers)
    ensures Pending(Take(s, step), k, g)
  {
    var t := Take(s, step);
    if Timer(k, g) !in s.timers {
      var h :| Owes(s, h, k, g);
      if step == Start(h) {
        assert Timer(k, g) in t.timers;
      } else {
        assert Owes(t, h, k, g);
      }
    }
  }

  lemma AllPendingKept(s: State, step: Step)
    requires AllPending(s)
    ensures AllPending(Take(s, step))
  {
    hide Pending;
    var t := Take(s, step);
    forall k | k in t.gatherers
      ensures Pending(t, k, t.gatherers[k])
    {
      if k in s.gatherers {
        PendingKept(s, step, k, s.gatherers[k]);
      } else {
        NewPending(s, step.handler, k);
      }
    }
  }

  lemma NewPending(s: State, h: nat, k: Key)
    requires k !in s.gatherers && h !in s.handlers
    ensures Pending(Take(s, Lookup(h, k)), k, s.unused)
  {
    assert Owes(Take(s, Lookup(h, k)), h, k, s.unused);
  }

  lemma NumberedKept(s: State, step: Step)
    requires Numbered(s)
    ensures Numbered(Take(s, step))
  {
  }

  lemma OneDeletionKept(s: State, step: Step)
    requires Numbered(s) && OneDeletion(s)
    ensures OneDeletion(Take(s, step))
  {
  }

  lemma TakeKeepsInv(s: State, step: Step)
    requires Inv(s)
    ensures Inv(Take(s, step))
  {
    hide Take, AllPending, Numbered, OneDeletion;
    AllPendingKept(s, step);
    NumberedKept(s, step);
    OneDeletionKept(s, step);
  }

  /** In every interleaving, each key present has its own deletion pending. */
  lemma {:induction false} RunKeepsInv(steps: seq<Step>)
    ensures Inv(Run(steps))
  {
    hide Inv, Take;
    if steps == [] {
      EmptyInv();
    } else {
      RunKeepsInv(steps[..|steps| - 1]);
      TakeKeepsInv(Run(steps[..|steps| - 1]), steps[|steps| - 1]);
    }
  }

  lemma EmptyInv()
    ensures Inv(INITIAL)
  {
  }

  /** Once no handler owes a timer and all have fired, the map is empty. */
  lemma EmptyWhenAllFired(steps: seq<Step>)
    requires Run(steps).timers == {} && forall h :: h in Run(steps).handlers ==> !Run(steps).handlers[h].owesTimer
    ensures Run(steps).gatherers == map[]
  {
    RunKeepsInv(steps);
    assert forall k :: k in Run(steps).gatherers ==> Pending(Run(steps), k, Run(steps).gatherers[k]);
  }

  // ----- Who feeds which gatherer -----

  /** Step `i` of the run is a lookup of `k` by handler `h`. */
  ghost predicate LooksUp(steps: seq<Step>, i: nat, h: nat, k: Key) {
    i < |steps| && steps[i] == Lookup(h, k) && h !in Run(steps[..i]).handlers
  }

  /** Step `i` of the run stores a new gatherer for `k`, which is `g`. */
  ghost predicate Inserts(steps: seq<Step>, i: nat, k: Key, g: nat) {
    && i < |steps| && steps[i].Lookup? && LooksUp(steps, i, steps[i].handler, k)
    && k !in Run(steps[..i]).gatherers && Run(steps[..i]).unused == g
  }

  /** From after step `i` until step `j` the map has an entry for `k`. */
  ghost predicate Present(steps: seq<Step>, i: nat, j: nat, k: Key) {
    i <= j <= |steps| && forall n :: i < n <= j ==> k in Run(steps[..n]).gatherers
  }

  /** A handler keeps its key and choice, and a new one is there by its lookup. */
  lemma HandlerStep(s: State, step: Step, h: nat)
    ensures var t := Take(s, step);
            && (h in s.handlers ==>
                  && h in t.handlers
                  && t.handlers[h].key == s.handlers[h].key
                  && t.handlers[h].chosen == s.handlers[h].chosen)
            && (h !in s.handlers && h in t.handlers ==> step == Lookup(h, t.handlers[h].key))
  {
  }

  /** The choice of a handler is for good. */
  lemma {:induction false} HandlerKept(steps: seq<Step>, i: nat, h: nat)
    requires i <= |steps| && h in Run(steps[..i]).handlers
    ensures h in Run(steps).handlers
    ensures Run(steps).handlers[h].key == Run(steps[..i]).handlers[h].key
    ensures Run(steps).handlers[h].chosen == Run(steps[..i]).handlers[h].chosen
    decreases |steps|
  {
    hide Run, Take;
    if i == |steps| {
      assert steps[..i] == steps;
    } else {
      var n := |steps| - 1;
      assert steps[..n][..i] == steps[..i] && steps[..n + 1] == steps;
      HandlerKept(steps[..n], i, h);
      RunNext(steps, n);
      HandlerStep(Run(steps[..n]), steps[n], h);
    }
  }

  /** An entry of the map was there before the step, or the step has just inserted it. */
  lemma EntryBefore(s: State, step: Step, k: Key)
    requires k in Take(s, step).gatherers
    ensures var g := Take(s, step).gatherers[k];
            || (k in s.gatherers && s.gatherers[k] == g)
            || (step.Lookup? && step.key == k && step.handler !in s.handlers && k !in s.gatherers && g == s.unused)
  {
  }

  lemma {:induction false} GathererKept(steps: seq<Step>, i: nat, j: nat, k: Key, g: nat)
    requires Inserts(steps, i, k, g) && i < j && Present(steps, i, j, k)
    ensures Run(steps[..j]).gatherers[k] == g
    decreases j
  {
    hide Run, Take;
    RunNext(steps, j - 1);
    EntryBefore(Run(steps[..j - 1]), steps[j - 1], k);
    if j - 1 > i {
      assert k in Run(steps[..j - 1]).gatherers;
      GathererKept(steps, i, j - 1, k, g);
    }
  }

  /**
    Every handler that looks `k` up between the insertion of its gatherer `g`
    and the removal, the inserting one included, keeps that gatherer for good,
    and all that it ever feeds goes there.
   */
  lemma OneGatherer(steps: seq<Step>, i: nat, j: nat, h: nat, k: Key, g: nat)
    requires Inserts(steps, i, k, g) && Present(steps, i, j, k) && LooksUp(steps, j, h, k)
    ensures h in Run(steps).handlers && Run(steps).handlers[h].key == k && Run(steps).handlers[h].chosen == g
    ensures forall f :: f in Run(steps).feeds && f.handler == h ==> f == Fed(h, k, g)
  {
    hide Run;
    RunNext(steps, j);
    if i < j {
      GathererKept(steps, i, j, k, g);
    }
    HandlerKept(steps, j + 1, h);
    RunKeepsInv(steps);
  }

  /** A handler is there because of its lookup. */
  lemma {:induction false} HandlerLookedUp(steps: seq<Step>, h: nat) returns (j: nat)
    requires h in Run(steps).handlers
    ensures LooksUp(steps, j, h, Run(steps).handlers[h].key)
    ensures h in Run(steps[..j + 1]).handlers && Run(steps[..j + 1]).handlers[h].chosen == Run(steps).handlers[h].chosen
  {
    hide Run, Take;
    if steps == [] {
      RunEmpty();
    }
    j := |steps| - 1;
    var before := steps[..j];
    assert steps[..j + 1] == steps;
    RunNext(steps, j);
    HandlerStep(Run(before), steps[j], h);
    if h in Run(before).handlers {
      j := HandlerLookedUp(before, h);
      assert before[..j] == steps[..j] && before[..j + 1] == steps[..j + 1];
    }
  }

  lemma {:induction false} UnusedGrows(steps: seq<Step>, i: nat, j: nat)
    requires i <= j <= |steps|
    ensures Run(steps[..i]).unused <= Run(steps[..j]).unused
    decreases j
  {
    hide Run;
    if i < j {
      UnusedGrows(steps, i, j - 1);
      RunNext(steps, j - 1);
    }
  }

  /** A gatherer that the map holds has been there ever since its insertion. */
  lemma {:induction false} HeldSinceInsertion(steps: seq<Step>, i: nat, j: nat, k: Key, k': Key, g: nat)
    requires Inserts(steps, i, k, g) && j <= |steps|
    requires k' in Run(steps[..j]).gatherers && Run(steps[..j]).gatherers[k'] == g
    ensures k' == k && i < j && Present(steps, i, j, k)
    decreases j
  {
    hide Run, Take, Inv;
    EntryNumbered(steps[..j], k');
    if j <= i {
      UnusedGrows(steps, j, i);
    }
    RunNext(steps, j - 1);
    EntryBefore(Run(steps[..j - 1]), steps[j - 1], k');
    if j - 1 > i {
      InsertionUses(steps, i, k, g);
      UnusedGrows(steps, i + 1, j - 1);
      HeldSinceInsertion(steps, i, j - 1, k, k', g);
    } else if k' in Run(steps[..i]).gatherers {
      EntryNumbered(steps[..i], k');
    }
  }

  lemma EntryNumbered(steps: seq<Step>, k: Key)
    requires k in Run(steps).gatherers
    ensures steps != [] && Run(steps).gatherers[k] < Run(steps).unused
  {
    RunKeepsInv(steps);
  }

  lemma InsertionUses(steps: seq<Step>, i: nat, k: Key, g: nat)
    requires Inserts(steps, i, k, g)
    ensures Run(steps[..i + 1]).unused == g + 1
  {
    RunNext(steps, i);
  }

  /**
    And only they do: whatever was fed to `g` came from source `k`, by a
    handler that looked it up while `g` was in the map.
   */
  lemma FedOnlyWhilePresent(steps: seq<Step>, i: nat, k: Key, g: nat, f: Fed) returns (j: nat)
    requires Inserts(steps, i, k, g) && f in Run(steps).feeds && f.gatherer == g
    ensures f.key == k && Present(steps, i, j, k) && LooksUp(steps, j, f.handler, k)
  {
    RunKeepsInv(steps);
    j := HandlerLookedUp(steps, f.handler);
    RunNext(steps, j);
    if f.key in Run(steps[..j]).gatherers {
      HeldSinceInsertion(steps, i, j, k, f.key, g);
    } else {
      SameInsertion(steps, i, j, k, g);
    }
  }

  /** No two insertions share a gatherer. */
  lemma SameInsertion(steps: seq<Step>, i: nat, j: nat, k: Key, g: nat)
    requires Inserts(steps, i, k, g) && j < |steps| && steps[j].Lookup? && Inserts(steps, j, steps[j].key, g)
    ensures i == j
  {
    InsertionUses(steps, i, k, g);
    InsertionUses(steps, j, steps[j].key, g);
    if i < j {
      UnusedGrows(steps, i + 1, j);
    } else if j < i {
      UnusedGrows(steps, j + 1, i);
    }
  }

  // ----- Whose gatherer a timer removes -----

  /** Every deletion of `k` still to come is for the gatherer that the map holds. */
  ghost predicate OwnKey(s: State, k: Key) {
    forall g :: Pending(s, k, g) ==> k in s.gatherers && s.gatherers[k] == g
  }

  /** The timer of gatherer `g` is about to remove another one from the map. */
  ghost predicate Harms(s: State, k: Key, g: nat) {
    Timer(k, g) in s.timers && k in s.gatherers && s.gatherers[k] != g
  }

  ghost predicate PopsPresent(s: State, step: Step, k: Key) {
    step == Pop(k) && k in s.gatherers
  }

  lemma PendingBefore(s: State, step: Step, k: Key, g: nat)
    requires Pending(Take(s, step), k, g)
    ensures Pending(s, k, g) || (step.Lookup? && step.key == k && k !in s.gatherers && g == s.unused)
  {
    var t := Take(s, step);
    if Timer(k, g) in t.timers {
      if Timer(k, g) !in s.timers {
        assert Owes(s, step.handler, k, g);
      }
    } else {
      var h :| Owes(t, h, k, g);
      if h in s.handlers {
        assert Owes(s, h, k, g);
      }
    }
  }

  lemma ExpireClears(s: State, k: Key, g: nat)
    requires OneDeletion(s) && Timer(k, g) in s.timers
    ensures !Pending(Take(s, Expire(Timer(k, g))), k, g)
  {
  }

  /** Just the pop of `k` while it is present leaves behind a deletion for a gatherer no longer there. */
  lemma OwnUntilPop(s: State, step: Step, k: Key)
    requires Inv(s) && OwnKey(s, k)
    ensures OwnKey(Take(s, step), k) <==> !PopsPresent(s, step, k)
  {
    var t := Take(s, step);
    if PopsPresent(s, step, k) {
      PendingKept(s, step, k, s.gatherers[k]);
    } else {
      forall g | Pending(t, k, g)
        ensures k in t.gatherers && t.gatherers[k] == g
      {
        PendingBefore(s, step, k, g);
        if step.Expire? && step.timer in s.timers && step.timer.key == k {
          assert Pending(s, k, step.timer.owner);
          ExpireClears(s, k, step.timer.owner);
        }
      }
    }
  }

  /** Over a whole run, each source for itself: its deletions stay its gatherer's own just when it is not popped. */
  lemma {:induction false} OwnIffNotPopped(steps: seq<Step>, k: Key)
    ensures (forall i :: 0 <= i <= |steps| ==> OwnKey(Run(steps[..i]), k)) <==>
            (forall i :: 0 <= i < |steps| ==> !PopsPresent(Run(steps[..i]), steps[i], k))
  {
    hide OwnKey, Inv, Run, Take, PopsPresent;
    if steps == [] {
      RunEmpty();
      EmptyOwn(k);
    } else {
      var n := |steps| - 1;
      OwnIffNotPopped(steps[..n], k);
      PrefixesOf(steps, n);
      RunKeepsInv(steps[..n]);
      RunNext(steps, n);
      if OwnKey(Run(steps[..n]), k) {
        OwnUntilPop(Run(steps[..n]), steps[n], k);
      }
    }
  }

  lemma PrefixesOf(steps: seq<Step>, n: nat)
    requires n <= |steps|
    ensures forall i :: 0 <= i <= n ==> steps[..n][..i] == steps[..i]
    ensures steps[..|steps|] == steps
  {
  }

  lemma EmptyOwn(k: Key)
    ensures OwnKey(INITIAL, k)
  {
  }

  /** A timer that harms removes the gatherer that is not its own. */
  lemma HarmDone(s: State, k: Key, g: nat)
    requires Harms(s, k, g)
    ensures k !in Take(s, Expire(Timer(k, g))).gatherers
  {
  }

  ghost predicate NoPopOf(steps: seq<Step>, k: Key) {
    forall step :: step in steps ==> step != Pop(k)
  }

  /** While all deletions of `k` are its gatherer's own, none does harm, until `k` is popped. */
  lemma {:induction false} OwnHarmless(steps: seq<Step>, more: seq<Step>, k: Key, g: nat)
    requires OwnKey(Run(steps), k) && NoPopOf(more, k)
    ensures OwnKey(Run(steps + more), k) && !Harms(Run(steps + more), k, g)
    decreases |more|
  {
    hide Run, Take, Inv, Pending;
    if more == [] {
      assert steps + more == steps;
    } else {
      var n := |more| - 1;
      var before := steps + more[..n];
      assert steps + more == before + [more[n]] && more[n] in more;
      assert forall step :: step in more[..n] ==> step in more;
      OwnHarmless(steps, more[..n], k, g);
      RunKeepsInv(before);
      RunSnoc(before, more[n]);
      OwnUntilPop(Run(before), more[n], k);
    }
    OwnTimer(Run(steps + more), k, g);
  }

  lemma OwnTimer(s: State, k: Key, g: nat)
    requires OwnKey(s, k)
    ensures !Harms(s, k, g)
  {
    assert Timer(k, g) in s.timers ==> Pending(s, k, g);
  }

  lemma {:induction false} NewHandler(used: set<nat>) returns (h: nat)
    ensures forall x :: x in used ==> x < h
  {
    if used == {} {
      h := 0;
    } else {
      var x :| x in used;
      var i := NewHandler(used - {x});
      h := if x < i then i else x + 1;
      assert forall y :: y in used ==> y == x || y in used - {x};
    }
  }

  lemma StaleReaches(s: State, k: Key, g: nat) returns (more: seq<Step>)
    requires Inv(s) && Pending(s, k, g) && !(k in s.gatherers && s.gatherers[k] == g)
    ensures NoPopOf(more, k) && |more| <= 2 && Harms(After(s, more), k, g)
  {
    var t := s;
    more := [];
    if Timer(k, g) !in s.timers {
      var h :| Owes(s, h, k, g);
      more := [Start(h)];
      t := Take(s, Start(h));
      AfterSnoc(s, [], Start(h));
    }
    if k !in s.gatherers {
      var h := NewHandler(t.handlers.Keys);
      AfterSnoc(s, more, Lookup(h, k));
      more := more + [Lookup(h, k)];
    }
  }

  /** Any deletion that is not its gatherer's own can do harm, with no further pop: at most two steps lead there. */
  lemma StaleHarms(s: State, k: Key, g: nat) returns (more: seq<Step>)
    requires Inv(s) && Pending(s, k, g) && !(k in s.gatherers && s.gatherers[k] == g)
    ensures NoPopOf(more, k) && |more| <= 2 && Harms(After(s, more), k, g)
    ensures k !in Take(After(s, more), Expire(Timer(k, g))).gatherers
  {
    hide After, Take, Inv, Harms, NoPopOf;
    more := StaleReaches(s, k, g);
    HarmDone(After(s, more), k, g);
  }

  /** The state that steps lead to from `s`. */
  ghost function After(s: State, steps: seq<Step>): State {
    if steps == [] then s else Take(After(s, steps[..|steps| - 1]), steps[|steps| - 1])
  }

  lemma AfterSnoc(s: State, steps: seq<Step>, step: Step)
    ensures After(s, steps + [step]) == Take(After(s, steps), step)
  {
  }

  lemma {:induction false} RunThen(steps: seq<Step>, more: seq<Step>)
    ensures Run(steps + more) == After(Run(steps), more)
    decreases |more|
  {
    if more == [] {
      assert steps + more == steps;
    } else {
      var n := |more| - 1;
      assert steps + more == steps + more[..n] + [more[n]];
      RunThen(steps, more[..n]);
      RunSnoc(steps + more[..n], more[n]);
    }
  }

  /**
    After any run, some continuation without a pop of `k` lets a timer remove a
    gatherer of `k` that is not its own, just when a deletion of `k` is pending
    that is not for the gatherer in the map.
   */
  lemma HarmlessIffOwn(steps: seq<Step>, k: Key)
    ensures OwnKey(Run(steps), k) <==>
            forall more, g :: NoPopOf(more, k) ==> !Harms(Run(steps + more), k, g)
  {
    hide Run, Take, Inv, Harms, NoPopOf;
    var s := Run(steps);
    if OwnKey(s, k) {
      forall more, g | NoPopOf(more, k)
        ensures !Harms(Run(steps + more), k, g)
      {
        OwnHarmless(steps, more, k, g);
      }
    } else {
      var g :| Pending(s, k, g) && !(k in s.gatherers && s.gatherers[k] == g);
      RunKeepsInv(steps);
      var more := StaleHarms(s, k, g);
      RunThen(steps, more);
    }
  }

  /** The shortest case: a pop, a newer gatherer for the same source, and the old timer removes it. */
  lemma StaleTimerRemovesNewer(k: Key)
    ensures var steps := [Lookup(0, k), Start(0), Pop(k), Lookup(1, k)];
            var s, t := Run(steps), Run(steps + [Expire(Timer(k, 0))]);
            s.gatherers == map[k := 1] && Harms(s, k, 0) && t.gatherers == map[]
  {
    hide Run;
    var a, b, c, d := Lookup(0, k), Start(0), Pop(k), Lookup(1, k);
    RunEmpty();
    RunSnoc([], a);
    RunSnoc([a], b);
    RunSnoc([a, b], c);
    RunSnoc([a, b, c], d);
    RunSnoc([a, b, c, d], Expire(Timer(k, 0)));
    assert [] + [a] == [a] && [a] + [b] == [a, b] && [a, b] + [c] == [a, b, c] && [a, b, c] + [d] == [a, b, c, d];
  }

  // ----- Steps that do happen -----

  /** A pop removes the entry at once. */
  lemma PopRemoves(steps: seq<Step>, k: Key)
    ensures k !in Run(steps + [Pop(k)]).gatherers
  {
    RunSnoc(steps, Pop(k));
  }

  /** From any state that can be reached, the entry of a key goes by its own timer, after at most one other step. */
  lemma EntryExpires(s: State, k: Key) returns (more: seq<Step>)
    requires Inv(s) && k in s.gatherers
    ensures |more| <= 2 && more != [] && more[|more| - 1] == Expire(Timer(k, s.gatherers[k]))
    ensures k !in After(s, more).gatherers
  {
    var g := s.gatherers[k];
    var last := Expire(Timer(k, g));
    if Timer(k, g) in s.timers {
      more := [last];
      AfterSnoc(s, [], last);
    } else {
      var h :| Owes(s, h, k, g);
      more := [Start(h), last];
      AfterSnoc(s, [], Start(h));
      AfterSnoc(s, [Start(h)], last);
      assert [] + [Start(h)] == [Start(h)] && [Start(h)] + [last] == more;
    }
  }

  /** Every handler comes to feed its packet to the gatherer it chose, once it owes no timer. */
  lemma HandlerFeeds(s: State, h: nat)
    requires h in s.handlers
    ensures Fed(h, s.handlers[h].key, s.handlers[h].chosen) in Take(Take(s, Start(h)), Feed(h)).feeds
  {
  }

  /** A lookup by a new handler finds the gatherer that is there, or stores a new one and owes its timer. */
  lemma LookupChooses(s: State, h: nat, k: Key)
    requires h !in s.handlers
    ensures var t := Take(s, Lookup(h, k));
            && k in t.gatherers && h in t.handlers
            && t.handlers[h] == Handler(k, t.gatherers[k], k !in s.gatherers)
            && t.gatherers[k] == (if k in s.gatherers then s.gatherers[k] else s.unused)
  {
  }
}
