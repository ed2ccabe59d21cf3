/**
 The mining controller of the mining page: `restartMining` and the two slots that
 call it, `changeNumberOfCores` (slider moved) and `switchMining` (button clicked),
 plus the state the constructor sets up.

 The controller is a record; each operation maps a record to the next record and
 the calls it made to its collaborators, in order. The answer of the wallet's
 unlock dialog and whether the unlock code is compiled in at all (it is left out
 on Linux builds) are parameters.
 */
module MiningControl {

  datatype Controller = Controller(
    isMining: bool,
    useThreads: int,
    maxGenProc: int,
    hasMiningKey: bool,
    holdsUnlock: bool)

  /** The calls made to collaborators, in the order they are made. */
  datatype Call =
    | RequestUnlock                        // the wallet's unlock dialog
    | SetMining(enable: bool)               // the client model is told the mining state
    | Generate(enable: bool, threads: int)  // the external miner is started or stopped
    | RefreshView(mining: bool)             // the page's labels are redrawn

  datatype Step = Step(next: Controller, calls: seq<Call>)

  /** The state the page starts in, from the hardware thread count, `-genproclimit` and `-gen`. */
  function Init(hardwareThreads: int, genProcLimit: int, genAtStart: bool): (c: Controller)
    ensures c.isMining == genAtStart && c.maxGenProc == genProcLimit
    ensures c.useThreads == if genProcLimit < 0 then hardwareThreads else genProcLimit
    ensures !c.hasMiningKey && !c.holdsUnlock
    ensures UnlockInvariant(c)
    ensures genProcLimit >= 0 ==> ThreadsWithinLimit(c)
  {
    Controller(
      isMining := genAtStart,
      useThreads := if genProcLimit < 0 then hardwareThreads else genProcLimit,
      maxGenProc := genProcLimit,
      hasMiningKey := false,
      holdsUnlock := false)
  }

  /** Starting needs an unlock: the guard is compiled in, no mining key is set and no unlock is held. */
  predicate NeedsUnlock(c: Controller, guarded: bool, fGenerate: bool) {
    guarded && fGenerate && !c.hasMiningKey && !c.holdsUnlock
  }

  predicate CallsGenerate(calls: seq<Call>) {
    exists k :: 0 <= k < |calls| && calls[k].Generate?
  }

  /** The thread count after a request: taken only when it does not exceed `maxGenProc`. */
  function AcceptThreads(c: Controller, requested: int): int {
    if requested <= c.maxGenProc then requested else c.useThreads
  }

  /** The calls and release that follow a granted (or unneeded) unlock. */
  function Proceed(c: Controller, fGenerate: bool, before: seq<Call>): Step {
    var released := if !fGenerate && !c.hasMiningKey then c.(holdsUnlock := false) else c;
    Step(released, before + [SetMining(fGenerate), Generate(fGenerate, c.useThreads), RefreshView(fGenerate)])
  }

  function RestartMining(c: Controller, guarded: bool, granted: bool, fGenerate: bool, requested: int): (r: Step)
    // the mining flag is set first, whatever happens next
    ensures r.next.isMining == fGenerate
    ensures r.next.useThreads == (if requested <= c.maxGenProc then requested else c.useThreads)
    ensures r.next.maxGenProc == c.maxGenProc && r.next.hasMiningKey == c.hasMiningKey
    // the unlock dialog is shown exactly when starting needs it, and only first
    ensures (RequestUnlock in r.calls) <==> NeedsUnlock(c, guarded, fGenerate)
    ensures RequestUnlock in r.calls ==> r.calls[0] == RequestUnlock
    // a declined unlock aborts before the miner is touched and holds nothing
    ensures NeedsUnlock(c, guarded, fGenerate) && !granted ==>
      r.calls == [RequestUnlock] && !r.next.holdsUnlock
    ensures CallsGenerate(r.calls) <==> !(NeedsUnlock(c, guarded, fGenerate) && !granted)
    // otherwise the miner is called once, with the accepted thread count, and the view redrawn last
    ensures CallsGenerate(r.calls) ==>
      |r.calls| >= 3 &&
      r.calls[|r.calls| - 3..] == [SetMining(fGenerate), Generate(fGenerate, r.next.useThreads), RefreshView(fGenerate)]
    // and nothing else is called: at most the unlock dialog comes before those three calls
    ensures CallsGenerate(r.calls) ==>
      r.calls == (if NeedsUnlock(c, guarded, fGenerate) then [RequestUnlock] else [])
        + [SetMining(fGenerate), Generate(fGenerate, r.next.useThreads), RefreshView(fGenerate)]
    // stopping without a mining key holds no unlock afterwards
    ensures !fGenerate && !c.hasMiningKey ==> !r.next.holdsUnlock
    // where the guard applies, the miner is only started while an unlock is held
    ensures guarded && fGenerate && !c.hasMiningKey && CallsGenerate(r.calls) ==> r.next.holdsUnlock
    // an unlock is only ever taken, never kept, when it was not already held
    ensures r.next.holdsUnlock && !c.holdsUnlock ==> NeedsUnlock(c, guarded, fGenerate) && granted
  {
    var c1 := c.(isMining := fGenerate, useThreads := AcceptThreads(c, requested));
    if NeedsUnlock(c, guarded, fGenerate) && !granted then
      var r := Step(c1.(holdsUnlock := false), [RequestUnlock]);
      assert !CallsGenerate(r.calls) by {
        assert forall k :: 0 <= k < |r.calls| ==> r.calls[k] == RequestUnlock;
      }
      r
    else
      var r := if NeedsUnlock(c, guarded, fGenerate) then Proceed(c1.(holdsUnlock := true), fGenerate, [RequestUnlock])
        else Proceed(c1, fGenerate, []);
      assert r.calls[|r.calls| - 2].Generate?;
      r
  }

  /** The slider moved: restart with the current mining flag and the slider's count. */
  function ChangeNumberOfCores(c: Controller, guarded: bool, granted: bool, cores: int): (r: Step)
    ensures r.next.isMining == c.isMining
    ensures r.next.useThreads == AcceptThreads(c, cores)
  {
    RestartMining(c, guarded, granted, c.isMining, cores)
  }

  /** The button clicked: restart with the mining flag negated and the slider's count. */
  function SwitchMining(c: Controller, guarded: bool, granted: bool, slider: int): (r: Step)
    ensures r.next.isMining == !c.isMining
    ensures r.next.useThreads == AcceptThreads(c, slider)
  {
    RestartMining(c, guarded, granted, !c.isMining, slider)
  }

  /** A user action, with the answer the unlock dialog would give if it were shown. */
  datatype Event =
    | CoresChanged(cores: int, granted: bool)
    | SwitchClicked(slider: int, granted: bool)

  function Apply(c: Controller, guarded: bool, e: Event): Step {
    match e
    case CoresChanged(n, g) => ChangeNumberOfCores(c, guarded, g, n)
    case SwitchClicked(n, g) => SwitchMining(c, guarded, g, n)
  }

  /** The state after a sequence of user actions, and all calls made on the way. */
  function Run(c: Controller, guarded: bool, events: seq<Event>): Step
    decreases |events|
  {
    if events == [] then Step(c, [])
    else
      var s := Apply(c, guarded, events[0]);
      var rest := Run(s.next, guarded, events[1..]);
      Step(rest.next, s.calls + rest.calls)
  }

  /** An unlock is held only while mining and only when no mining key stands in for it. */
  predicate UnlockInvariant(c: Controller) {
    c.holdsUnlock ==> c.isMining && !c.hasMiningKey
  }

  /** One restart keeps the unlock invariant. */
  lemma RestartKeepsInvariant(c: Controller, guarded: bool, granted: bool, fGenerate: bool, requested: int)
    requires UnlockInvariant(c)
    ensures UnlockInvariant(RestartMining(c, guarded, granted, fGenerate, requested).next)
  {
  }

  /** Either user action keeps the unlock invariant and leaves the key and the limit alone. */
  lemma ApplyKeepsInvariant(c: Controller, guarded: bool, e: Event)
    requires UnlockInvariant(c)
    ensures UnlockInvariant(Apply(c, guarded, e).next)
    ensures Apply(c, guarded, e).next.hasMiningKey == c.hasMiningKey
    ensures Apply(c, guarded, e).next.maxGenProc == c.maxGenProc
  {
    match e {
      case CoresChanged(n, g) => RestartKeepsInvariant(c, guarded, g, c.isMining, n);
      case SwitchClicked(n, g) => RestartKeepsInvariant(c, guarded, g, !c.isMining, n);
    }
  }

  /** Any sequence of user actions keeps the unlock invariant, and the mining key never changes. */
  lemma {:induction false} RunKeepsInvariant(c: Controller, guarded: bool, events: seq<Event>)
    requires UnlockInvariant(c)
    ensures UnlockInvariant(Run(c, guarded, events).next)
    ensures Run(c, guarded, events).next.hasMiningKey == c.hasMiningKey
    ensures Run(c, guarded, events).next.maxGenProc == c.maxGenProc
    decreases |events|
  {
    if events != [] {
      var s := Apply(c, guarded, events[0]);
      ApplyKeepsInvariant(c, guarded, events[0]);
      RunKeepsInvariant(s.next, guarded, events[1..]);
    }
  }

  /** Where the unlock code is compiled out, the unlock dialog is never shown. */
  lemma {:induction false} UnguardedNeverUnlocks(c: Controller, events: seq<Event>)
    requires !c.holdsUnlock
    ensures RequestUnlock !in Run(c, false, events).calls
    ensures !Run(c, false, events).next.holdsUnlock
    decreases |events|
  {
    if events != [] {
      var s := Apply(c, false, events[0]);
      UnguardedNeverUnlocks(s.next, events[1..]);
    }
  }

  /** Starting and then stopping, without a mining key, leaves no unlock held. */
  lemma StartThenStopReleases(c: Controller, guarded: bool, g1: bool, g2: bool, n1: int, n2: int)
    requires !c.hasMiningKey
    ensures var s1 := RestartMining(c, guarded, g1, true, n1);
      !RestartMining(s1.next, guarded, g2, false, n2).next.holdsUnlock
  {
  }

  /**
   Declining the unlock while starting leaves the flag saying "mining" although the
   miner was never started; the next button click then only stops it again.
   */
  lemma DeclinedStartStillFlagsMining(c: Controller, slider: int)
    requires !c.isMining && !c.hasMiningKey && !c.holdsUnlock
    ensures var r := SwitchMining(c, true, false, slider);
      r.next.isMining && !CallsGenerate(r.calls)
      && SwitchMining(r.next, true, true, slider).calls
        == [SetMining(false), Generate(false, AcceptThreads(r.next, slider)), RefreshView(false)]
  {
  }

  /** When a thread limit is set, every accepted count stays within it. */
  predicate ThreadsWithinLimit(c: Controller) {
    c.useThreads <= c.maxGenProc
  }

  /** A page started with a non-negative `-genproclimit` never runs more threads than the limit. */
  lemma {:induction false} RunKeepsThreadLimit(c: Controller, guarded: bool, events: seq<Event>)
    requires ThreadsWithinLimit(c)
    ensures ThreadsWithinLimit(Run(c, guarded, events).next)
    decreases |events|
  {
    if events != [] {
      var s := Apply(c, guarded, events[0]);
      RunKeepsThreadLimit(s.next, guarded, events[1..]);
    }
  }

  predicate RequestsNonNegative(events: seq<Event>) {
    forall k :: 0 <= k < |events| ==>
      match events[k]
      case CoresChanged(n, _) => n >= 0
      case SwitchClicked(n, _) => n >= 0
  }

  /**
   Without `-genproclimit` the limit is -1, so no slider position is ever taken:
   the thread count stays what the constructor chose.
   */
  lemma {:induction false} NegativeLimitFreezesThreads(c: Controller, guarded: bool, events: seq<Event>)
    requires c.maxGenProc < 0 && RequestsNonNegative(events)
    ensures Run(c, guarded, events).next.useThreads == c.useThreads
    decreases |events|
  {
    if events != [] {
      var s := Apply(c, guarded, events[0]);
      assert RequestsNonNegative(events[1..]) by {
        forall k | 0 <= k < |events| - 1 ensures events[1..][k] == events[k + 1] { }
      }
      NegativeLimitFreezesThreads(s.next, guarded, events[1..]);
    }
  }
}
