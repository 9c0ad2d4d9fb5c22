/** The reference-counted, re-entrant closure through which Rust hands an `FnMut` to JavaScript. */
module MutClosure {

  datatype Event =
    | Enter      // a call begins: count up, take the pointer, leave 0 in its place
    | Leave      // the innermost call ends (returning or throwing): put the pointer back, count down
    | Unref      // the owner lets go; it does so at most once
    | Collect    // the garbage collector found the closure unreachable and runs the registered finaliser

  /** `frames` holds the pointers taken by the calls in progress, outermost first;
    * `destroyed` the pointers passed to `__wbindgen_destroy_closure`, in order. */
  datatype State = State(a: nat, cnt: int, frames: seq<nat>, owned: bool, registered: bool, collected: bool,
    destroyed: seq<nat>)

  function Fresh(ptr: nat): State {
    State(ptr, 1, [], true, true, false, [])
  }

  /** `_wbg_cb_unref`. */
  function Release(s: State): State {
    if s.cnt == 1 then s.(cnt := 0, destroyed := s.destroyed + [s.a], a := 0, registered := false)
    else s.(cnt := s.cnt - 1)
  }

  function Apply(s: State, e: Event): State {
    if s.collected then s
    else match e
      case Enter => s.(cnt := s.cnt + 1, frames := s.frames + [s.a], a := 0)
      case Leave =>
        if s.frames == [] then s
        else Release(s.(a := s.frames[|s.frames| - 1], frames := s.frames[..|s.frames| - 1]))
      case Unref => if s.owned then Release(s.(owned := false)) else s
      case Collect =>
        if s.frames != [] || !s.registered then s
        else s.(destroyed := s.destroyed + [s.a], registered := false, collected := true)
  }

  function Run(ptr: nat, es: seq<Event>): State {
    if es == [] then Fresh(ptr) else Apply(Run(ptr, es[..|es| - 1]), es[|es| - 1])
  }

  /** How many calls began with the count already at 0, that is after the destructor had run. */
  function LateCalls(ptr: nat, es: seq<Event>): nat {
    if es == [] then 0
    else
      var s := Run(ptr, es[..|es| - 1]);
      LateCalls(ptr, es[..|es| - 1]) +
      if es[|es| - 1] == Enter && s.cnt == 0 && !s.collected then 1 else 0
  }

  ghost predicate Inv(s: State, ptr: nat, late: nat) {
    s.cnt == |s.frames| + (if s.owned then 1 else 0) &&
    // every pointer but the outermost one taken is the 0 its caller left behind
    (forall i :: 1 <= i < |s.frames| ==> s.frames[i] == 0) &&
    (s.frames != [] ==> s.a == 0) &&
    // while registered, the original pointer is in one place: the state, or the outermost call
    (s.registered <==> !s.collected && s.destroyed == []) &&
    (s.registered ==> (if s.frames == [] then s.a else s.frames[0]) == ptr) &&
    (!s.registered ==> s.a == 0 || s.collected) &&
    (!s.registered && s.frames != [] ==> s.frames[0] == 0) &&
    (s.destroyed != [] ==> s.destroyed[0] == ptr) &&
    // one destructor call each time the count came down to 0, or one from the collector
    (s.collected ==> s.frames == [] && |s.destroyed| == 1 + late) &&
    (!s.collected ==> |s.destroyed| == late + if s.cnt == 0 then 1 else 0) &&
    (s.collected ==> late == 0) &&
    (late > 0 ==> !s.owned)
  }

  lemma ApplyKeepsInv(s: State, e: Event, ptr: nat, late: nat)
    requires Inv(s, ptr, late)
    ensures Inv(Apply(s, e), ptr, late + if e == Enter && s.cnt == 0 && !s.collected then 1 else 0)
  {
  }

  lemma {:induction false} RunKeepsInv(ptr: nat, es: seq<Event>)
    ensures Inv(Run(ptr, es), ptr, LateCalls(ptr, es))
  {
    if es != [] {
      RunKeepsInv(ptr, es[..|es| - 1]);
      ApplyKeepsInv(Run(ptr, es[..|es| - 1]), es[|es| - 1], ptr, LateCalls(ptr, es[..|es| - 1]));
    }
  }

  /** The destructor has run exactly when the owner has let go and no call is in progress (or the closure was
    * collected), it was given the original pointer, and it ran exactly once iff no call began at count 0. */
  lemma {:induction false} DestroyedOnce(ptr: nat, es: seq<Event>)
    ensures var s := Run(ptr, es);
            (LateCalls(ptr, es) == 0 ==>
               s.destroyed == if (!s.owned && s.frames == []) || s.collected then [ptr] else []) &&
            (s.cnt == 0 ==> (s.destroyed == [ptr] <==> LateCalls(ptr, es) == 0))
  {
    RunKeepsInv(ptr, es);
    var s := Run(ptr, es);
    if s.destroyed != [] { assert s.destroyed == [s.destroyed[0]] + s.destroyed[1..]; }
  }

  /** The calls in progress after these events. */
  function Depth(es: seq<Event>): nat {
    if es == [] then 0
    else
      var d := Depth(es[..|es| - 1]);
      match es[|es| - 1]
      case Enter => d + 1
      case Leave => if d == 0 then 0 else d - 1
      case _ => d
  }

  /** The count is the calls in progress and the owner, as the events tell them; with both gone, no call having begun
   * too
    * late, the environment is destroyed, once and with its own pointer, and before that it is not.
    */
  lemma {:induction false} CountsEvents(ptr: nat, es: seq<Event>)
    requires Collect !in es
    ensures var s := Run(ptr, es);
            !s.collected && |s.frames| == Depth(es) && (s.owned <==> Unref !in es) &&
            s.cnt == Depth(es) + (if Unref in es then 0 else 1) &&
            (LateCalls(ptr, es) == 0 ==> s.destroyed == if Unref in es && Depth(es) == 0 then [ptr] else [])
  {
    RunKeepsInv(ptr, es);
    DestroyedOnce(ptr, es);
    if es != [] {
      var (init, e) := (es[..|es| - 1], es[|es| - 1]);
      assert es == init + [e];
      CountsEvents(ptr, init);
    }
  }

  /** The step that destroys leaves no call in progress: the closure environment outlives every invocation. */
  lemma {:induction false} DestroyedAfterLastCall(ptr: nat, es: seq<Event>, e: Event)
    ensures var (s, t) := (Run(ptr, es), Run(ptr, es + [e]));
            t == Apply(s, e) &&
            (t.destroyed != s.destroyed ==>
               t.frames == [] && t.destroyed == s.destroyed + [t.destroyed[|s.destroyed|]])
  {
    RunKeepsInv(ptr, es);
    assert (es + [e])[..|es|] == es;
  }

  /** The pointer a new call takes is the original one iff no call is in progress and the closure is alive;
    * a re-entrant or late call takes 0. */
  lemma {:induction false} OnlyOutermostTakesPointer(ptr: nat, es: seq<Event>)
    requires ptr != 0 && !Run(ptr, es).collected
    ensures Run(ptr, es).a == (if Run(ptr, es).frames == [] && Run(ptr, es).destroyed == [] then ptr else 0)
  {
    RunKeepsInv(ptr, es);
  }

  /** A call made too late: the destructor runs a second time, on the null pointer. */
  lemma {:induction false} LateCallDestroysAgain(ptr: nat)
    ensures Run(ptr, [Unref, Enter, Leave]).destroyed == [ptr, 0]
  {
    var es := [Unref, Enter, Leave];
    assert es[..2] == [Unref, Enter] && [Unref, Enter][..1] == [Unref] && [Unref][..0] == [];
    assert Run(ptr, []) == Fresh(ptr);
    assert Run(ptr, [Unref]).destroyed == [ptr];
  }

  // ---------- The closure as it runs ----------

  class Closure {
    var a: nat
    var cnt: int
    var registered: bool
    ghost var frames: seq<nat>
    ghost var owned: bool
    ghost var destroyed: seq<nat>

    ghost function Model(): State
      reads this
    {
      State(a, cnt, frames, owned, registered, false, destroyed)
    }

    constructor (arg0: nat)
      ensures Model() == Fresh(arg0)
    {
      a, cnt, registered := arg0, 1, true;
      frames, owned, destroyed := [], true, [];
    }

    /** The first half of a call, up to the invocation of the Rust function on `taken`. */
    method Begin() returns (taken: nat)
      modifies this
      ensures Model() == Apply(old(Model()), Enter) && taken == old(a)
    {
      cnt := cnt + 1;
      taken := a;
      a := 0;
      frames := frames + [taken];
    }

    /** The `finally` block of the innermost call. */
    method End(taken: nat)
      requires frames != [] && frames[|frames| - 1] == taken
      modifies this
      ensures Model() == Apply(old(Model()), Leave)
    {
      a := taken;
      frames := frames[..|frames| - 1];
      UnrefClosure();
    }

    /** `_wbg_cb_unref`, called by `End` and by the owner. */
    method UnrefClosure()
      modifies this
      ensures Model() == Release(old(Model()))
    {
      cnt := cnt - 1;
      if cnt == 0 {
        destroyed := destroyed + [a];
        a := 0;
        registered := false;
      }
    }

    method OwnerUnref()
      requires owned
      modifies this
      ensures Model() == Apply(old(Model()), Unref)
    {
      owned := false;
      UnrefClosure();
    }
  }
}
