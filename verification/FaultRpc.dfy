/**
 Remote calls by page fault. The caller writes a function slot and an argument, touches the
 invoke page and, if the page is missing, blocks; the handler thread reads the request,
 computes, stores the response and then resolves the page. Both threads run step by step.
 */
module FaultRpc {
  import opened Delimited
  import opened Widths
  import Arithmetic

  /** Registered functions, by slot. A function need not return on every argument. */
  type Table = map<U32, U32 -> Option<U64>>

  datatype Caller =
    | AtRest
    | WroteSlot(slot: U32, arg: U32)
    | WroteArg(slot: U32, arg: U32)
    | Blocked(slot: U32, arg: U32)
    | Resumed(slot: U32, arg: U32)

  datatype Handler =
    | Polling
    | GotEvent
    | HasSlot(slot: U32)
    | HasResult(result: U64)
    | StoredResult
    | Panicked

  /** What the calling program has done: invalidated the page, or completed a call. */
  datatype Op = Invalidate | Call(slot: U32, arg: U32, result: U64)

  datatype State = State(
    slotWord: U32, argWord: U32, response: U64,
    present: bool, faultPending: bool,
    caller: Caller, handler: Handler,
    ops: seq<Op>)

  datatype Step =
    | WriteSlot(slot: U32, arg: U32)
    | WriteArg
    | Poke
    | Resume
    | ReadResponse
    | Invalidates
    | TakeEvent
    | LookUp
    | Compute
    | StoreResponse
    | Resolve

  const INIT := State(0, 0, 0, false, false, AtRest, Polling, [])

  predicate Enabled(fns: Table, s: State, step: Step) {
    match step
    case WriteSlot(_, _) => s.caller.AtRest?
    case WriteArg => s.caller.WroteSlot?
    case Poke => s.caller.WroteArg?
    case Resume => s.caller.Blocked? && s.present
    case ReadResponse => s.caller.Resumed?
    case Invalidates => s.caller.AtRest?
    case TakeEvent => s.handler.Polling? && s.faultPending
    case LookUp => s.handler.GotEvent?
    case Compute => s.handler.HasSlot? && Returns(fns, s.handler.slot, s.argWord)
    case StoreResponse => s.handler.HasResult?
    case Resolve => s.handler.StoredResult?
  }

  predicate Returns(fns: Table, slot: U32, arg: U32) {
    slot in fns && fns[slot](arg).Some?
  }

  function Next(fns: Table, s: State, step: Step): State
    requires Enabled(fns, s, step)
  {
    match step
    case WriteSlot(slot, arg) => s.(slotWord := slot, caller := WroteSlot(slot, arg))
    case WriteArg => s.(argWord := s.caller.arg, caller := WroteArg(s.caller.slot, s.caller.arg))
    case Poke =>
      if s.present then s.(caller := Resumed(s.caller.slot, s.caller.arg))
      else s.(faultPending := true, caller := Blocked(s.caller.slot, s.caller.arg))
    case Resume => s.(caller := Resumed(s.caller.slot, s.caller.arg))
    case ReadResponse => s.(caller := AtRest, ops := s.ops + [Call(s.caller.slot, s.caller.arg, s.response)])
    case Invalidates => s.(present := false, ops := s.ops + [Invalidate])
    case TakeEvent => s.(faultPending := false, handler := GotEvent)
    case LookUp => s.(handler := if s.slotWord in fns then HasSlot(s.slotWord) else Panicked)
    case Compute => s.(handler := HasResult(fns[s.handler.slot](s.argWord).value))
    case StoreResponse => s.(response := s.handler.result, handler := StoredResult)
    case Resolve => s.(present := true, handler := Polling)
  }

  // ----- the sequential meaning of a program's operations

  /** The page is present unless it was invalidated since the last call. */
  predicate PagePresent(ops: seq<Op>) {
    ops != [] && ops[|ops| - 1].Call?
  }

  /** The result of the last call that found the page missing. */
  function LastFaulted(ops: seq<Op>): U64 {
    if ops == [] then 0
    else
      var n := |ops| - 1;
      if ops[n].Call? && !PagePresent(ops[..n]) then ops[n].result else LastFaulted(ops[..n])
  }

  /** Each call that finds the page missing returns its own function of its own argument; each
      other call returns what the last such call returned. */
  ghost predicate Correct(fns: Table, ops: seq<Op>) {
    forall k :: 0 <= k < |ops| && ops[k].Call? ==>
      if PagePresent(ops[..k]) then ops[k].result == LastFaulted(ops[..k])
      else Right(fns, ops, k)
  }

  /** The k-th operation is a call that returned its own answer. */
  predicate Right(fns: Table, ops: seq<Op>, k: nat) {
    k < |ops| && ops[k].Call? && ops[k].slot in fns && fns[ops[k].slot](ops[k].arg) == Some(ops[k].result)
  }

  // ----- the invariant

  /** The answer that the call in progress is to return. */
  ghost predicate Answered(fns: Table, s: State)
    requires s.caller.Blocked? || s.caller.Resumed?
  {
    if PagePresent(s.ops) then s.response == LastFaulted(s.ops)
    else s.caller.slot in fns && fns[s.caller.slot](s.caller.arg) == Some(s.response)
  }

  /** While the caller is blocked, the handler works on this call's own request words. */
  ghost predicate HandlerInv(fns: Table, s: State) {
    if !s.caller.Blocked? then s.handler.Polling? && !s.faultPending
    else
      && s.slotWord == s.caller.slot && s.argWord == s.caller.arg
      && !PagePresent(s.ops)
      && (s.faultPending ==> s.handler.Polling? && !s.present)
      && (s.present ==> s.handler.Polling? && Answered(fns, s))
      && (match s.handler
          case Polling => s.faultPending || s.present
          case GotEvent => true
          case HasSlot(slot) => slot == s.slotWord && slot in fns
          case HasResult(r) => s.slotWord in fns && fns[s.slotWord](s.argWord) == Some(r)
          case StoredResult => Answered(fns, s)
          case Panicked => s.slotWord !in fns)
  }

  ghost predicate CallerInv(fns: Table, s: State) {
    match s.caller
    case AtRest => s.present == PagePresent(s.ops) && (s.present ==> s.response == LastFaulted(s.ops))
    case WroteSlot(slot, _) =>
      && s.slotWord == slot && s.present == PagePresent(s.ops)
      && (s.present ==> s.response == LastFaulted(s.ops))
    case WroteArg(slot, arg) =>
      && s.slotWord == slot && s.argWord == arg && s.present == PagePresent(s.ops)
      && (s.present ==> s.response == LastFaulted(s.ops))
    case Blocked(_, _) => true
    case Resumed(_, _) => s.present && Answered(fns, s)
  }

  ghost predicate Inv(fns: Table, s: State) {
    Correct(fns, s.ops) && HandlerInv(fns, s) && CallerInv(fns, s)
  }

  lemma CompletedCall(fns: Table, s: State)
    requires Inv(fns, s) && s.caller.Resumed?
    ensures Inv(fns, Next(fns, s, ReadResponse))
  {
    var s' := Next(fns, s, ReadResponse);
    var n := |s.ops|;
    assert s'.ops[..n] == s.ops;
    forall k | 0 <= k < n ensures s'.ops[..k] == s.ops[..k] {
    }
  }

  lemma Invalidated(fns: Table, s: State)
    requires Inv(fns, s) && s.caller.AtRest?
    ensures Inv(fns, Next(fns, s, Invalidates))
  {
    var s' := Next(fns, s, Invalidates);
    forall k | 0 <= k < |s.ops| ensures s'.ops[..k] == s.ops[..k] {
    }
  }

  lemma StepKeepsInv(fns: Table, s: State, step: Step)
    requires Inv(fns, s) && Enabled(fns, s, step)
    ensures Inv(fns, Next(fns, s, step))
  {
    match step
    case ReadResponse => CompletedCall(fns, s);
    case Invalidates => Invalidated(fns, s);
    case _ =>
  }

  // ----- whole runs

  datatype Run = Illegal | Reached(state: State)

  function After(fns: Table, steps: seq<Step>): Run {
    if steps == [] then Reached(INIT)
    else
      var step := steps[|steps| - 1];
      match After(fns, steps[..|steps| - 1])
      case Illegal => Illegal
      case Reached(s) => if Enabled(fns, s, step) then Reached(Next(fns, s, step)) else Illegal
  }

  /** What the calling program asks for, in order: the words of its calls and its invalidations. */
  datatype Ask = AskCall(slot: U32, arg: U32) | AskInvalidate

  function Asked(steps: seq<Step>): seq<Ask> {
    if steps == [] then [] else Asked(steps[..|steps| - 1]) + AskedBy(steps[|steps| - 1])
  }

  function AskedBy(step: Step): seq<Ask> {
    match step
    case WriteSlot(slot, arg) => [AskCall(slot, arg)]
    case Invalidates => [AskInvalidate]
    case _ => []
  }

  function Done(ops: seq<Op>): seq<Ask> {
    seq(|ops|, i requires 0 <= i < |ops| =>
      match ops[i] case Call(slot, arg, _) => AskCall(slot, arg) case Invalidate => AskInvalidate)
  }

  function InProgress(caller: Caller): seq<Ask> {
    if caller.AtRest? then [] else [AskCall(caller.slot, caller.arg)]
  }

  lemma StepAsked(fns: Table, s: State, step: Step)
    requires Enabled(fns, s, step)
    ensures var s' := Next(fns, s, step);
            Done(s'.ops) + InProgress(s'.caller) == Done(s.ops) + InProgress(s.caller) + AskedBy(step)
  {
  }

  /** The operations completed are those asked for, in order and with their words; only the call
      in progress is not among them. */
  lemma {:induction false} DoneAsAsked(fns: Table, steps: seq<Step>, s: State)
    requires After(fns, steps) == Reached(s)
    ensures Asked(steps) == Done(s.ops) + InProgress(s.caller)
    decreases |steps|
  {
    if steps != [] {
      var before := After(fns, steps[..|steps| - 1]).state;
      DoneAsAsked(fns, steps[..|steps| - 1], before);
      StepAsked(fns, before, steps[|steps| - 1]);
    }
  }

  /** For every table of functions and every interleaving of the two threads, the completed
      calls are correct: those that faulted return their own answer, the others repeat it. */
  lemma {:induction false} AllRunsCorrect(fns: Table, steps: seq<Step>, s: State)
    requires After(fns, steps) == Reached(s)
    ensures Inv(fns, s)
    decreases |steps|
  {
    if steps != [] {
      var before := After(fns, steps[..|steps| - 1]).state;
      AllRunsCorrect(fns, steps[..|steps| - 1], before);
      StepKeepsInv(fns, before, steps[|steps| - 1]);
    }
  }

  /** A program that invalidates the page before every call gets the right answer every time. */
  lemma InvalidatingMakesCallsRight(fns: Table, steps: seq<Step>, s: State)
    requires After(fns, steps) == Reached(s)
    requires forall k :: 0 < k < |s.ops| && s.ops[k].Call? ==> s.ops[k - 1].Invalidate?
    ensures forall k :: 0 <= k < |s.ops| && s.ops[k].Call? ==> Right(fns, s.ops, k)
  {
    AllRunsCorrect(fns, steps, s);
    forall k | 0 <= k < |s.ops| && s.ops[k].Call? ensures !PagePresent(s.ops[..k]) {
      if k > 0 {
        assert s.ops[..k][k - 1] == s.ops[k - 1];
      }
    }
  }

  const FIB_SLOT: U32 := 42

  /** The program's table: the Fibonacci kernel, with the wrapping it has, in slot 42. For the
      largest 32-bit argument its loop does not end. */
  const FIB_TABLE: Table :=
    map[FIB_SLOT := (n: U32) => if n < TWO32 - 1 then Some(Arithmetic.Fib(n) % TWO64) else None]

  /** The invalidate-and-call loop gets Fib(n) modulo 2^64 from every call that returns. */
  lemma InvalidatingFibLoop(steps: seq<Step>, s: State)
    requires After(FIB_TABLE, steps) == Reached(s)
    requires forall k :: 0 <= k < |s.ops| && s.ops[k].Call? ==> s.ops[k].slot == FIB_SLOT
    requires forall k :: 0 < k < |s.ops| && s.ops[k].Call? ==> s.ops[k - 1].Invalidate?
    ensures forall k :: 0 <= k < |s.ops| && s.ops[k].Call? ==>
              s.ops[k].arg < TWO32 - 1 && s.ops[k].result == Arithmetic.Fib(s.ops[k].arg) % TWO64
  {
    InvalidatingMakesCallsRight(FIB_TABLE, steps, s);
    forall k | 0 <= k < |s.ops| && s.ops[k].Call?
      ensures s.ops[k].arg < TWO32 - 1 && s.ops[k].result == Arithmetic.Fib(s.ops[k].arg) % TWO64
    {
      assert Right(FIB_TABLE, s.ops, k);
    }
  }

  // ----- calls without invalidating

  /** The index of the last call that found the page missing. */
  function LastFault(ops: seq<Op>): (j: nat)
    requires PagePresent(ops)
    ensures j < |ops| && ops[j].Call? && !PagePresent(ops[..j]) && LastFaulted(ops) == ops[j].result
  {
    var n := |ops| - 1;
    if !PagePresent(ops[..n]) then n
    else
      var j := LastFault(ops[..n]);
      assert ops[..n][..j] == ops[..j];
      j
  }

  /** A call made without invalidating answers the request words of the last call that
      faulted. It is right if and only if its own words have the same answer. */
  lemma StaleAnswer(fns: Table, steps: seq<Step>, s: State, k: nat)
    requires After(fns, steps) == Reached(s)
    requires 0 < k < |s.ops| && s.ops[k].Call? && s.ops[k - 1].Call? && s.ops[k].slot in fns
    ensures PagePresent(s.ops[..k])
    ensures var j, call := LastFault(s.ops[..k]), s.ops[k];
            var last := s.ops[j];
            && last.slot in fns && fns[last.slot](last.arg) == Some(call.result)
            && (Right(fns, s.ops, k) <==> fns[call.slot](call.arg) == fns[last.slot](last.arg))
  {
    AllRunsCorrect(fns, steps, s);
    assert s.ops[..k][k - 1] == s.ops[k - 1];
    var j := LastFault(s.ops[..k]);
    assert s.ops[..k][..j] == s.ops[..j] && s.ops[..k][j] == s.ops[j];
    assert Right(fns, s.ops, j);
  }

  /** Two runs of the same steps that differ only in what the functions compute. */
  ghost predicate SameWords(ops: seq<Op>, ops': seq<Op>) {
    |ops| == |ops'| && forall k :: 0 <= k < |ops| ==> SameOp(ops[k], ops'[k])
  }

  predicate SameOp(op: Op, op': Op) {
    if op.Call? then op'.Call? && op'.slot == op.slot && op'.arg == op.arg else op'.Invalidate?
  }

  predicate SameHandler(h: Handler, h': Handler) {
    if h.HasResult? then h'.HasResult? else h' == h
  }

  ghost predicate Alike(s: State, s': State) {
    && s'.slotWord == s.slotWord && s'.argWord == s.argWord
    && s'.present == s.present && s'.faultPending == s.faultPending
    && s'.caller == s.caller && SameHandler(s.handler, s'.handler) && SameWords(s.ops, s'.ops)
  }

  /** The same slots are registered, and their functions return on the same arguments. */
  ghost predicate SameReach(fns: Table, fns': Table) {
    && fns'.Keys == fns.Keys
    && forall slot: U32, arg: U32 :: Returns(fns, slot, arg) <==> Returns(fns', slot, arg)
  }

  /** Which steps are possible, and the words of every call, do not depend on what the
      functions return. */
  lemma {:induction false} RunsAlike(fns: Table, fns': Table, steps: seq<Step>)
    requires SameReach(fns, fns')
    ensures After(fns, steps).Reached? <==> After(fns', steps).Reached?
    ensures After(fns, steps).Reached? ==> Alike(After(fns, steps).state, After(fns', steps).state)
  {
    if steps != [] {
      var front, step := steps[..|steps| - 1], steps[|steps| - 1];
      RunsAlike(fns, fns', front);
      if After(fns, front).Reached? {
        StepAlike(fns, fns', After(fns, front).state, After(fns', front).state, step);
      }
    }
  }

  lemma StepAlike(fns: Table, fns': Table, s: State, s': State, step: Step)
    requires SameReach(fns, fns') && Alike(s, s')
    ensures Enabled(fns, s, step) <==> Enabled(fns', s', step)
    ensures Enabled(fns, s, step) ==> Alike(Next(fns, s, step), Next(fns', s', step))
  {
    assert forall slot :: slot in fns <==> slot in fns'.Keys;
  }

  lemma {:induction false} LastFaultAlike(ops: seq<Op>, ops': seq<Op>)
    requires PagePresent(ops) && SameWords(ops, ops')
    ensures PagePresent(ops') && LastFault(ops') == LastFault(ops)
  {
    var n := |ops| - 1;
    assert SameOp(ops[n], ops'[n]);
    if n > 0 {
      assert SameOp(ops[n - 1], ops'[n - 1]) && ops[..n][n - 1] == ops[n - 1] && ops'[..n][n - 1] == ops'[n - 1];
      if PagePresent(ops[..n]) {
        LastFaultAlike(ops[..n], ops'[..n]);
      }
    }
  }

  /** The table that tells the given request words from all others. */
  function Telling(fns: Table, slot: U32, arg: U32): Table {
    map x | x in fns :: (a: U32) =>
      if x !in fns || fns[x](a).None? then None else Some(if x == slot && a == arg then 1 else 0)
  }

  /** A call made without invalidating is right whatever the registered functions return if
      and only if it repeats the request words of the last call that faulted. */
  lemma StaleUnlessRepeated(fns: Table, steps: seq<Step>, s: State, k: nat)
    requires After(fns, steps) == Reached(s)
    requires 0 < k < |s.ops| && s.ops[k].Call? && s.ops[k - 1].Call? && s.ops[k].slot in fns
    ensures PagePresent(s.ops[..k])
    ensures var last := s.ops[LastFault(s.ops[..k])];
            (forall fns': Table | SameReach(fns, fns') ::
               After(fns', steps).Reached? && Right(fns', After(fns', steps).state.ops, k))
            <==> s.ops[k].slot == last.slot && s.ops[k].arg == last.arg
  {
    StaleAnswer(fns, steps, s, k);
    var j, call := LastFault(s.ops[..k]), s.ops[k];
    var last := s.ops[j];
    forall fns': Table | SameReach(fns, fns')
      ensures After(fns', steps).Reached? && StaleUnder(fns', After(fns', steps).state.ops, call, last, k)
    {
      StaleElsewhere(fns, fns', steps, s, k);
    }
    var telling := Telling(fns, call.slot, call.arg);
    assert SameReach(fns, telling);
    assert SameReach(fns, fns);
    assert StaleUnder(telling, After(telling, steps).state.ops, call, last, k);
  }

  ghost predicate StaleUnder(fns: Table, ops: seq<Op>, call: Op, last: Op, k: nat)
    requires call.Call? && last.Call?
  {
    && call.slot in fns && last.slot in fns && fns[last.slot](last.arg).Some?
    && (Right(fns, ops, k) <==> fns[call.slot](call.arg) == fns[last.slot](last.arg))
  }

  lemma StaleElsewhere(fns: Table, fns': Table, steps: seq<Step>, s: State, k: nat)
    requires After(fns, steps) == Reached(s) && SameReach(fns, fns')
    requires 0 < k < |s.ops| && s.ops[k].Call? && s.ops[k - 1].Call? && s.ops[k].slot in fns
    ensures PagePresent(s.ops[..k]) && After(fns', steps).Reached?
    ensures StaleUnder(fns', After(fns', steps).state.ops, s.ops[k], s.ops[LastFault(s.ops[..k])], k)
  {
    RunsAlike(fns, fns', steps);
    var s' := After(fns', steps).state;
    assert s.ops[..k][k - 1] == s.ops[k - 1];
    assert SameOp(s.ops[k], s'.ops[k]) && SameOp(s.ops[k - 1], s'.ops[k - 1]);
    StaleAnswer(fns', steps, s', k);
    LastFaultAlike(s.ops[..k], s'.ops[..k]);
    var j := LastFault(s.ops[..k]);
    assert SameOp(s.ops[j], s'.ops[j]);
  }

  // ----- a wrong answer

  lemma OneMore(fns: Table, steps: seq<Step>, s: State, step: Step)
    requires After(fns, steps) == Reached(s) && Enabled(fns, s, step)
    ensures After(fns, steps + [step]) == Reached(Next(fns, s, step))
  {
    assert (steps + [step])[..|steps|] == steps;
  }

  /** The steps of a call that finds the page missing. */
  function Calling(slot: U32, arg: U32): seq<Step> {
    [WriteSlot(slot, arg), WriteArg, Poke, TakeEvent, LookUp, Compute, StoreResponse, Resolve, Resume, ReadResponse]
  }

  /** The state after the first `i` of them. */
  function Stage(s: State, slot: U32, arg: U32, r: U64, i: nat): State {
    var words, blocked := s.(slotWord := slot, argWord := arg), Blocked(slot, arg);
    match i
    case 0 => s
    case 1 => s.(slotWord := slot, caller := WroteSlot(slot, arg))
    case 2 => words.(caller := WroteArg(slot, arg))
    case 3 => words.(caller := blocked, faultPending := true)
    case 4 => words.(caller := blocked, handler := GotEvent)
    case 5 => words.(caller := blocked, handler := HasSlot(slot))
    case 6 => words.(caller := blocked, handler := HasResult(r))
    case 7 => words.(caller := blocked, handler := StoredResult, response := r)
    case 8 => words.(caller := blocked, response := r, present := true)
    case 9 => words.(caller := Resumed(slot, arg), response := r, present := true)
    case _ => words.(response := r, present := true, ops := s.ops + [Call(slot, arg, r)])
  }

  lemma FaultingCall(fns: Table, steps: seq<Step>, s: State, slot: U32, arg: U32) returns (steps': seq<Step>)
    requires After(fns, steps) == Reached(s) && Returns(fns, slot, arg)
    requires s.caller.AtRest? && s.handler.Polling? && !s.faultPending && !s.present
    ensures var r := fns[slot](arg).value;
            After(fns, steps') == Reached(State(slot, arg, r, true, false, AtRest, Polling, s.ops + [Call(slot, arg, r)]))
  {
    var call, r := Calling(slot, arg), fns[slot](arg).value;
    steps' := steps;
    for i := 0 to |call|
      invariant After(fns, steps') == Reached(Stage(s, slot, arg, r, i))
    {
      OneMore(fns, steps', Stage(s, slot, arg, r, i), call[i]);
      steps' := steps' + [call[i]];
    }
  }

  lemma UnfaultingCall(fns: Table, steps: seq<Step>, s: State, slot: U32, arg: U32) returns (steps': seq<Step>)
    requires After(fns, steps) == Reached(s)
    requires s.caller.AtRest? && s.present
    ensures After(fns, steps')
         == Reached(s.(slotWord := slot, argWord := arg, ops := s.ops + [Call(slot, arg, s.response)]))
  {
    var now := s;
    OneMore(fns, steps, now, WriteSlot(slot, arg));
    steps', now := steps + [WriteSlot(slot, arg)], Next(fns, now, WriteSlot(slot, arg));
    OneMore(fns, steps', now, WriteArg);
    steps', now := steps' + [WriteArg], Next(fns, now, WriteArg);
    OneMore(fns, steps', now, Poke);
    steps', now := steps' + [Poke], Next(fns, now, Poke);
    OneMore(fns, steps', now, ReadResponse);
    steps' := steps' + [ReadResponse];
  }

  /** A run that goes wrong: fib(1), and then fib(3) without invalidating, which returns 1. */
  lemma WrongAnswer() returns (steps: seq<Step>)
    ensures After(FIB_TABLE, steps).Reached?
    ensures After(FIB_TABLE, steps).state.ops == [Call(FIB_SLOT, 1, 1), Call(FIB_SLOT, 3, 1)]
    ensures Arithmetic.Fib(3) == 2
  {
    steps := FaultingCall(FIB_TABLE, [], INIT, FIB_SLOT, 1);
    assert FIB_TABLE[FIB_SLOT](1) == Some(1);
    steps := UnfaultingCall(FIB_TABLE, steps, After(FIB_TABLE, steps).state, FIB_SLOT, 3);
  }

  // ----- progress

  /** Some thread can always move, except that two kinds of call hang with the caller blocked:
      to an unregistered slot, on which the handler panics, and to a function that does not
      return on the argument. */
  lemma StuckIffNoAnswer(fns: Table, steps: seq<Step>, s: State)
    requires After(fns, steps) == Reached(s)
    ensures s.handler.Panicked? ==> s.caller.Blocked? && s.caller.slot !in fns
    ensures s.handler.HasSlot? ==> s.caller.Blocked? && s.caller.slot in fns
    ensures (forall step :: !Enabled(fns, s, step))
            <==> s.handler.Panicked? || (s.handler.HasSlot? && !Returns(fns, s.caller.slot, s.caller.arg))
  {
    AllRunsCorrect(fns, steps, s);
    if !s.handler.Panicked? && (s.handler.HasSlot? ==> Returns(fns, s.caller.slot, s.caller.arg)) {
      var step := match s.caller
        case AtRest => Invalidates
        case WroteSlot(_, _) => WriteArg
        case WroteArg(_, _) => Poke
        case Resumed(_, _) => ReadResponse
        case Blocked(_, _) =>
          match s.handler
          case Polling => if s.present then Resume else TakeEvent
          case GotEvent => LookUp
          case HasSlot(_) => Compute
          case HasResult(_) => StoreResponse
          case StoredResult => Resolve
          case Panicked => Resume;
      assert Enabled(fns, s, step);
    }
  }
}
