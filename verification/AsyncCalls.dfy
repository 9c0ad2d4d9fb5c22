/** Async calls across the FFI: the handle map and the poll/callback protocol over it.
  *
  * A call polls a Rust future, handing Rust a handle that stands for its suspended continuation;
  * Rust later calls back with that handle. Each operation runs under the map's lock, so a run is
  * an interleaving of whole operations.
  */
module AsyncCalls {
  import opened Options

  const READY := 0
  const MAX_HANDLE := 0xFFFF_FFFF_FFFF_FFFF  // UInt64.max: incrementing past it traps

  class UniffiHandleMap<T> {
    var map_: map<nat, T>
    var currentHandle: nat

    ghost predicate Valid()
      reads this
    {
      1 <= currentHandle <= MAX_HANDLE && forall h <- map_ :: 1 <= h < currentHandle
    }

    constructor ()
      ensures Valid() && map_ == map[] && currentHandle == 1
    {
      map_ := map[];
      currentHandle := 1;
    }

    /** Hands out a handle never handed out before; `None` is the overflow trap, which leaves the map alone. */
    method Insert(obj: T) returns (handle: Option<nat>)
      requires Valid()
      modifies this
      ensures Valid()
      ensures old(currentHandle) == MAX_HANDLE ==>
                handle == None && map_ == old(map_) && currentHandle == MAX_HANDLE
      ensures old(currentHandle) < MAX_HANDLE ==>
                handle == Some(old(currentHandle)) && handle.value !in old(map_) &&
                map_ == old(map_)[handle.value := obj] && currentHandle == handle.value + 1
    {
      if currentHandle == MAX_HANDLE {
        return None;
      }
      handle := Some(currentHandle);
      currentHandle := currentHandle + 1;
      map_ := map_[handle.value := obj];
    }

    /** `None` is `unexpectedStaleHandle`. */
    method Get(handle: nat) returns (obj: Option<T>)
      ensures obj == if handle in map_ then Some(map_[handle]) else None
    {
      obj := if handle in map_ then Some(map_[handle]) else None;
    }

    /** A second removal of the same handle finds nothing. */
    method Remove(handle: nat) returns (obj: Option<T>)
      requires Valid()
      modifies this
      ensures Valid() && currentHandle == old(currentHandle)
      ensures obj == if handle in old(map_) then Some(old(map_)[handle]) else None
      ensures map_ == old(map_) - {handle}
    {
      obj := if handle in map_ then Some(map_[handle]) else None;
      map_ := map_ - {handle};
    }
  }

  // ---------- The protocol as a state machine ----------

  type CallId = nat

  datatype Phase =
    | Polling                               // about to poll
    | Waiting(handle: nat)                  // suspended on the continuation behind `handle`
    | Resumed(handle: nat, result: int)     // woken, with the poll result in hand
    | Completed                             // `completeFunc` has run

  datatype Event =
    | Poll(call: CallId)                    // start or repeat: insert the continuation, then `pollFunc`
    | Callback(handle: nat, result: int)    // from Rust, with any handle at all
    | Continue(call: CallId)                // the loop test after the suspension

  /** What an observer sees: handles given out, continuations resumed, calls completed. */
  datatype Entry =
    | Issue(handle: nat, call: CallId)
    | Resume(handle: nat, call: CallId, result: int)
    | Complete(call: CallId, handle: nat)

  datatype State = State(live: map<nat, CallId>, next: nat, phases: map<CallId, Phase>, log: seq<Entry>)

  const INITIAL := State(map[], 1, map[], [])

  function PhaseOf(s: State, c: CallId): Phase {
    if c in s.phases then s.phases[c] else Polling
  }

  function Apply(s: State, e: Event): State {
    match e
    case Poll(c) =>
      if PhaseOf(s, c) != Polling || s.next == MAX_HANDLE then s
      else State(s.live[s.next := c], s.next + 1, s.phases[c := Waiting(s.next)], s.log + [Issue(s.next, c)])
    case Callback(h, r) =>
      if h !in s.live then s
      else State(s.live - {h}, s.next, s.phases[s.live[h] := Resumed(h, r)], s.log + [Resume(h, s.live[h], r)])
    case Continue(c) =>
      (match PhaseOf(s, c)
       case Resumed(h, r) =>
         if r == READY then s.(phases := s.phases[c := Completed], log := s.log + [Complete(c, h)])
         else s.(phases := s.phases[c := Polling])
       case _ => s)
  }

  function Run(s: State, es: seq<Event>): State {
    if es == [] then s else Apply(Run(s, es[..|es| - 1]), es[|es| - 1])
  }

  // ---------- What the log says ----------

  function Issues(log: seq<Entry>, h: nat): nat {
    if log == [] then 0
    else Issues(log[..|log| - 1], h) + if log[|log| - 1].Issue? && log[|log| - 1].handle == h then 1 else 0
  }

  function Resumes(log: seq<Entry>, h: nat): nat {
    if log == [] then 0
    else Resumes(log[..|log| - 1], h) + if log[|log| - 1].Resume? && log[|log| - 1].handle == h then 1 else 0
  }

  function Completions(log: seq<Entry>, c: CallId): nat {
    if log == [] then 0
    else Completions(log[..|log| - 1], c) + if log[|log| - 1].Complete? && log[|log| - 1].call == c then 1 else 0
  }

  lemma {:induction false} Appended(log: seq<Entry>, e: Entry)
    ensures forall h: nat :: Issues(log + [e], h) == Issues(log, h) + if e.Issue? && e.handle == h then 1 else 0
    ensures forall h: nat :: Resumes(log + [e], h) == Resumes(log, h) + if e.Resume? && e.handle == h then 1 else 0
    ensures forall c :: Completions(log + [e], c) == Completions(log, c) + if e.Complete? && e.call == c then 1 else 0
  {
  }

  /** `h` is the handle of the last poll call `c` made in `log`. */
  ghost predicate LastPoll(log: seq<Entry>, c: CallId, h: nat) {
    Issue(h, c) in log && forall k: nat :: Issue(k, c) in log ==> k <= h
  }

  // ---------- The invariant ----------

  /** Every handle below `next` was issued exactly once, and is live until its one resumption. */
  ghost predicate HandlesAccounted(s: State) {
    1 <= s.next <= MAX_HANDLE &&
    (forall h: nat :: Issues(s.log, h) == if 1 <= h < s.next then 1 else 0) &&
    (forall h: nat :: Resumes(s.log, h) + (if h in s.live then 1 else 0) == Issues(s.log, h)) &&
    (forall h: nat, c :: Issue(h, c) in s.log ==> 1 <= h < s.next) &&
    (forall h <- s.live :: Issue(h, s.live[h]) in s.log && PhaseOf(s, s.live[h]) == Waiting(h))
  }

  ghost predicate CallOk(s: State, c: CallId) {
    match PhaseOf(s, c)
    case Polling => Completions(s.log, c) == 0
    case Waiting(h) => h in s.live && s.live[h] == c && LastPoll(s.log, c, h) && Completions(s.log, c) == 0
    case Resumed(h, r) => Resume(h, c, r) in s.log && LastPoll(s.log, c, h) && Completions(s.log, c) == 0
    case Completed => Completions(s.log, c) == 1
  }

  ghost predicate CompletionsEarned(s: State) {
    forall c, h: nat :: Complete(c, h) in s.log ==>
      PhaseOf(s, c) == Completed && Resume(h, c, READY) in s.log && LastPoll(s.log, c, h)
  }

  ghost predicate Inv(s: State) {
    HandlesAccounted(s) && (forall c :: CallOk(s, c)) && CompletionsEarned(s)
  }

  lemma PollKeepsCall(s: State, c: CallId, d: CallId)
    requires Inv(s)
    ensures CallOk(Apply(s, Poll(c)), d)
  {
    hide Issues;
    hide Resumes;
    hide Completions;
    assert CallOk(s, d);
    Appended(s.log, Issue(s.next, c));
  }

  lemma PollKeepsInv(s: State, c: CallId)
    requires Inv(s)
    ensures Inv(Apply(s, Poll(c)))
  {
    hide Issues;
    hide Resumes;
    hide Completions;
    forall d ensures CallOk(Apply(s, Poll(c)), d) {
      PollKeepsCall(s, c, d);
    }
    assert CallOk(s, c);
    hide CallOk;
    Appended(s.log, Issue(s.next, c));
  }

  lemma CallbackKeepsCall(s: State, h: nat, r: int, d: CallId)
    requires Inv(s)
    ensures CallOk(Apply(s, Callback(h, r)), d)
  {
    hide Issues;
    hide Resumes;
    hide Completions;
    assert CallOk(s, d);
    if h in s.live { Appended(s.log, Resume(h, s.live[h], r)); }
  }

  lemma CallbackKeepsInv(s: State, h: nat, r: int)
    requires Inv(s)
    ensures Inv(Apply(s, Callback(h, r)))
  {
    hide Issues;
    hide Resumes;
    hide Completions;
    forall d ensures CallOk(Apply(s, Callback(h, r)), d) {
      CallbackKeepsCall(s, h, r, d);
    }
    hide CallOk;
    if h in s.live { Appended(s.log, Resume(h, s.live[h], r)); }
  }

  lemma ContinueKeepsInv(s: State, c: CallId)
    requires Inv(s)
    ensures Inv(Apply(s, Continue(c)))
  {
    hide Issues;
    hide Resumes;
    hide Completions;
    var t := Apply(s, Continue(c));
    assert CallOk(s, c);
    if PhaseOf(s, c).Resumed? {
      if t.log != s.log {
        Appended(s.log, Complete(c, PhaseOf(s, c).handle));
      }
      forall d ensures CallOk(t, d) {
        assert CallOk(s, d);
      }
    }
  }

  lemma ApplyKeepsInv(s: State, e: Event)
    requires Inv(s)
    ensures Inv(Apply(s, e))
  {
    match e
    case Poll(c) => PollKeepsInv(s, c);
    case Callback(h, r) => CallbackKeepsInv(s, h, r);
    case Continue(c) => ContinueKeepsInv(s, c);
  }

  lemma {:induction false} RunKeepsInv(es: seq<Event>)
    ensures Inv(Run(INITIAL, es))
  {
    if es != [] {
      RunKeepsInv(es[..|es| - 1]);
      ApplyKeepsInv(Run(INITIAL, es[..|es| - 1]), es[|es| - 1]);
    }
  }

  /** Over every interleaving of polls, callbacks (stale, duplicate or invented ones included) and continuations:
    * no handle is given out twice, the map holds exactly the continuations not yet resumed, each is resumed at
    * most once, no suspended call loses its handle, and a call completes at most once, on a READY result for the
    * last poll it made itself. */
  lemma {:induction false} ProtocolSafety(es: seq<Event>)
    ensures var s := Run(INITIAL, es);
            (forall h: nat :: Issues(s.log, h) <= 1 && Resumes(s.log, h) <= Issues(s.log, h)) &&
            (forall h: nat :: h in s.live <==> Issues(s.log, h) == 1 && Resumes(s.log, h) == 0) &&
            (forall c :: PhaseOf(s, c).Waiting? ==>
              PhaseOf(s, c).handle in s.live && s.live[PhaseOf(s, c).handle] == c) &&
            (forall h <- s.live :: PhaseOf(s, s.live[h]) == Waiting(h)) &&
            (forall c :: Completions(s.log, c) <= 1) &&
            (forall c, h: nat :: Complete(c, h) in s.log ==> Resume(h, c, READY) in s.log && LastPoll(s.log, c, h))
  {
    RunKeepsInv(es);
    var s := Run(INITIAL, es);
    forall c ensures Completions(s.log, c) <= 1
                     && (PhaseOf(s, c).Waiting? ==>
                         PhaseOf(s, c).handle in s.live && s.live[PhaseOf(s, c).handle] == c) {
      assert CallOk(s, c);
    }
  }

  // ---------- Progress ----------

  /** The one event that moves a call out of its phase: the poll, the callback with its own handle, the loop test. */
  predicate Moves(p: Phase, c: CallId, e: Event) {
    match p
    case Polling => e == Poll(c)
    case Waiting(h) => e.Callback? && e.handle == h
    case Resumed(_, _) => e == Continue(c)
    case Completed => false
  }

  lemma OthersLeaveAlone(s: State, c: CallId, e: Event)
    requires Inv(s) && !Moves(PhaseOf(s, c), c, e)
    ensures PhaseOf(Apply(s, e), c) == PhaseOf(s, c)
  {
    assert CallOk(s, c);
  }

  /** Whatever the other calls do meanwhile, and whatever stale callbacks come in. */
  lemma {:induction false} StaysInPhase(es: seq<Event>, mid: seq<Event>, c: CallId)
    requires forall e <- mid :: !Moves(PhaseOf(Run(INITIAL, es), c), c, e)
    ensures PhaseOf(Run(INITIAL, es + mid), c) == PhaseOf(Run(INITIAL, es), c)
  {
    hide Apply;
    hide Inv;
    if mid == [] {
      assert es + mid == es;
    } else {
      var (init, e) := (mid[..|mid| - 1], mid[|mid| - 1]);
      StaysInPhase(es, init, c);
      RunKeepsInv(es + init);
      RunNext(es + init, e);
      assert es + mid == es + init + [e];
      OthersLeaveAlone(Run(INITIAL, es + init), c, e);
    }
  }

  lemma {:induction false} RunNext(es: seq<Event>, e: Event)
    ensures Run(INITIAL, es + [e]) == Apply(Run(INITIAL, es), e)
  {
  }

  /** A call suspended on `h` is resumed by the callback with `h`, however late, and its own loop test then ends it on
    * READY and makes it poll again on any other result.
    */
  lemma {:induction false} CallbackEnds(es: seq<Event>, mid: seq<Event>, r: int, after: seq<Event>, c: CallId, h: nat)
    requires PhaseOf(Run(INITIAL, es), c) == Waiting(h)
    requires (forall e <- mid :: !(e.Callback? && e.handle == h)) && Continue(c) !in after
    ensures var s := Run(INITIAL, es + mid + [Callback(h, r)] + after + [Continue(c)]);
            Resume(h, c, r) in Run(INITIAL, es + mid + [Callback(h, r)]).log &&
            if r == READY then PhaseOf(s, c) == Completed && Complete(c, h) in s.log else PhaseOf(s, c) == Polling
  {
    hide Run;
    StaysInPhase(es, mid, c);
    RunKeepsInv(es + mid);
    assert CallOk(Run(INITIAL, es + mid), c);
    RunNext(es + mid, Callback(h, r));
    var woken := es + mid + [Callback(h, r)];
    assert PhaseOf(Run(INITIAL, woken), c) == Resumed(h, r);
    StaysInPhase(woken, after, c);
    RunNext(woken + after, Continue(c));
  }

  /** A call about to poll gets a handle never seen before when it does, unless the counter is at its end. */
  lemma {:induction false} PollIssues(es: seq<Event>, mid: seq<Event>, c: CallId)
    requires PhaseOf(Run(INITIAL, es), c) == Polling && Poll(c) !in mid
    ensures var (s, t) := (Run(INITIAL, es + mid), Run(INITIAL, es + mid + [Poll(c)]));
            if s.next == MAX_HANDLE then t == s
            else PhaseOf(t, c) == Waiting(s.next) && t.live == s.live[s.next := c] && Issue(s.next, c) in t.log &&
                 Issues(s.log, s.next) == 0
  {
    hide Run;
    StaysInPhase(es, mid, c);
    RunKeepsInv(es + mid);
    RunNext(es + mid, Poll(c));
  }

  // ---------- The runtime ----------

  class AsyncRuntime {
    const handles: UniffiHandleMap<CallId>
    var phases: map<CallId, Phase>
    ghost var log: seq<Entry>

    ghost function Model(): State
      reads this, handles
    {
      State(handles.map_, handles.currentHandle, phases, log)
    }

    ghost predicate Valid()
      reads this, handles
    {
      handles.Valid() && Inv(Model())
    }

    constructor ()
      ensures Valid() && fresh(handles) && Model() == INITIAL
    {
      handles := new UniffiHandleMap();
      phases := map[];
      log := [];
      new;
      RunKeepsInv([]);
    }

    /** One turn of the poll loop, up to the suspension. */
    method PollOnce(c: CallId)
      requires Valid()
      modifies this, handles
      ensures Valid() && Model() == Apply(old(Model()), Poll(c))
    {
      hide Inv;
      ApplyKeepsInv(Model(), Poll(c));
      if c in phases && phases[c] != Polling {
        return;
      }
      var h := handles.Insert(c);
      if h.Some? {
        phases := phases[c := Waiting(h.value)];
        log := log + [Issue(h.value, c)];
      }
    }

    /** `uniffiFutureContinuationCallback`. */
    method OnCallback(h: nat, r: int)
      requires Valid()
      modifies this, handles
      ensures Valid() && Model() == Apply(old(Model()), Callback(h, r))
    {
      hide Inv;
      ApplyKeepsInv(Model(), Callback(h, r));
      var c := handles.Remove(h);
      if c.Some? {
        phases := phases[c.value := Resumed(h, r)];
        log := log + [Resume(h, c.value, r)];
      } else {
        assert handles.map_ == old(handles.map_);
      }
    }

    /** The `while pollResult != READY` test, and `completeFunc` once it fails. */
    method AfterResume(c: CallId)
      requires Valid()
      modifies this
      ensures Valid() && Model() == Apply(old(Model()), Continue(c))
    {
      hide Inv;
      ApplyKeepsInv(Model(), Continue(c));
      if c in phases && phases[c].Resumed? {
        if phases[c].result == READY {
          log := log + [Complete(c, phases[c].handle)];
          phases := phases[c := Completed];
        } else {
          phases := phases[c := Polling];
        }
      }
    }
  }
}
