/** Which classes the document root carries and which theme color it shows, as surfaces come and go. */
module DocumentSurface {
  import opened Options

  datatype Surface = Surface(id: nat, className: string, themeColor: Option<string>)  // no class is ""

  datatype Event =
    | Activate(className: string, themeColor: Option<string>)
    | Release(id: nat)     // a call of the closure the `id`-th activation returned, perhaps not the first
    | SetBase(color: string)

  /** `undefined` until first captured, then the attribute's value, `null` when absent. */
  datatype Captured = NotCaptured | Captured(content: Option<string>)

  /** The page: the classes on the root element, and the theme-color meta with its content attribute. */
  datatype Page = Page(classes: set<string>, hasMeta: bool, content: Option<string>)

  datatype State = State(
    active: seq<Surface>,
    base: Option<string>,
    initial: Captured,
    flags: seq<bool>,      // the `active` variable of each release closure
    page: Page)

  function Start(page: Page): State {
    State([], None, NotCaptured, [], page)
  }

  // ---------- The code ----------

  function CaptureInitial(s: State): State {
    if s.initial != NotCaptured then s
    else s.(initial := Captured(if s.page.hasMeta then s.page.content else None))
  }

  predicate Themed(s: Surface) { s.themeColor.Some? && s.themeColor.value != "" }

  /** The color of the last surface that has one. */
  function Override(active: seq<Surface>): (r: Option<string>)
    ensures active == [] ==> r == None
  {
    if active == [] then None
    else if Themed(active[|active| - 1]) then active[|active| - 1].themeColor
    else Override(active[..|active| - 1])
  }

  function ApplyThemeColor(s: State): State {
    if !s.page.hasMeta then s
    else if Override(s.active).Some? then s.(page := s.page.(content := Override(s.active)))
    else if s.base.Some? then s.(page := s.page.(content := s.base))
    else match s.initial
      case Captured(c) => s.(page := s.page.(content := c))
      case NotCaptured => s
  }

  function IndexOf(active: seq<Surface>, id: nat): (i: nat)
    ensures i <= |active| && (i < |active| ==> active[i].id == id)
  {
    if active == [] || active[0].id == id then 0 else 1 + IndexOf(active[1..], id)
  }

  predicate Carried(active: seq<Surface>, className: string) {
    exists s <- active :: s.className == className
  }

  function Splice(active: seq<Surface>, id: nat): seq<Surface> {
    var i := IndexOf(active, id);
    if i < |active| then active[..i] + active[i + 1..] else active
  }

  function DropClass(page: Page, active: seq<Surface>, className: string): Page {
    if className != "" && !Carried(active, className) then page.(classes := page.classes - {className}) else page
  }

  function Apply(s: State, e: Event): State {
    match e
    case SetBase(color) => ApplyThemeColor(CaptureInitial(s).(base := Some(color)))
    case Activate(className, color) =>
      var s := CaptureInitial(s);
      ApplyThemeColor(s.(
        active := s.active + [Surface(|s.flags|, className, color)],
        flags := s.flags + [true],
        page := if className != "" then s.page.(classes := s.page.classes + {className}) else s.page))
    case Release(id) =>
      if id >= |s.flags| || !s.flags[id] then s
      else
        var className := ClassOf(s.active, id);
        var active := Splice(s.active, id);
        ApplyThemeColor(s.(active := active, flags := s.flags[id := false],
          page := DropClass(s.page, active, className)))
  }

  /** The class name the closure of activation `id` captured. */
  function ClassOf(active: seq<Surface>, id: nat): string {
    var i := IndexOf(active, id);
    if i < |active| then active[i].className else ""
  }

  function Run(page: Page, es: seq<Event>): State {
    if es == [] then Start(page) else Apply(Run(page, es[..|es| - 1]), es[|es| - 1])
  }

  // ---------- What should be showing ----------

  function Activations(es: seq<Event>): nat {
    if es == [] then 0 else Activations(es[..|es| - 1]) + if es[|es| - 1].Activate? then 1 else 0
  }

  /** The activations not released since, in order. */
  function Live(es: seq<Event>): seq<Surface> {
    if es == [] then []
    else
      var (init, e) := (es[..|es| - 1], es[|es| - 1]);
      match e
      case Activate(c, t) => Live(init) + [Surface(Activations(init), c, t)]
      case Release(id) => Others(Live(init), id)
      case SetBase(_) => Live(init)
  }

  function Others(s: seq<Surface>, id: nat): seq<Surface> {
    if s == [] then [] else (if s[0].id == id then [] else [s[0]]) + Others(s[1..], id)
  }

  function LastBase(es: seq<Event>): Option<string> {
    if es == [] then None
    else if es[|es| - 1].SetBase? then Some(es[|es| - 1].color)
    else LastBase(es[..|es| - 1])
  }

  /** Some activation, released or not, named the class. */
  predicate Managed(es: seq<Event>, className: string) {
    className != "" && exists e <- es :: e.Activate? && e.className == className
  }

  /** The latest live surface with a color decides, else the base, else what the page had. */
  function Showing(live: seq<Surface>, base: Option<string>, initial: Option<string>): Option<string> {
    if Override(live).Some? then Override(live) else if base.Some? then base else initial
  }

  /** The latest, by index: a live surface with a color after which none has one. */
  lemma {:induction false} LatestThemed(live: seq<Surface>, i: nat)
    ensures i < |live| && Themed(live[i]) && (forall j :: i < j < |live| ==> !Themed(live[j])) ==>
              Override(live) == live[i].themeColor
    ensures (forall j :: 0 <= j < |live| ==> !Themed(live[j])) ==> Override(live) == None
  {
    if live != [] && !Themed(live[|live| - 1]) { LatestThemed(live[..|live| - 1], i); }
  }

  // ---------- The code shows what it should ----------

  ghost predicate DistinctIds(s: seq<Surface>, bound: nat) {
    (forall i :: 0 <= i < |s| ==> s[i].id < bound) &&
    (forall i, j :: 0 <= i < j < |s| ==> s[i].id != s[j].id)
  }

  lemma {:induction false} SpliceIsOthers(s: seq<Surface>, id: nat)
    requires forall i, j :: 0 <= i < j < |s| ==> s[i].id != s[j].id
    ensures Splice(s, id) == Others(s, id)
  {
    if s != [] {
      var rest := s[1..];
      SpliceIsOthers(rest, id);
      SpliceFirst(s, id);
      hide Splice;
      if s[0].id == id { OthersAbsent(rest, id); }
    }
  }

  lemma SpliceFirst(s: seq<Surface>, id: nat)
    requires s != []
    ensures Splice(s, id) == if s[0].id == id then s[1..] else [s[0]] + Splice(s[1..], id)
  {
    var rest := s[1..];
    var i := IndexOf(rest, id);
    if s[0].id != id && i < |rest| {
      assert s[..i + 1] == [s[0]] + rest[..i] && s[i + 2..] == rest[i + 1..];
    }
  }

  lemma {:induction false} OthersAbsent(s: seq<Surface>, id: nat)
    requires forall x <- s :: x.id != id
    ensures Others(s, id) == s
  {
    if s != [] {
      OthersAbsent(s[1..], id);
    }
  }

  lemma {:induction false} OthersKept(s: seq<Surface>, id: nat, bound: nat)
    requires DistinctIds(s, bound)
    ensures DistinctIds(Others(s, id), bound)
    ensures forall x :: x in Others(s, id) <==> x in s && x.id != id
  {
    if s != [] {
      var rest := s[1..];
      OthersKept(rest, id, bound);
      assert s == [s[0]] + rest;
      assert forall x <- Others(rest, id) :: x in rest;
    }
  }

  /** The bookkeeping: the stack holds the live surfaces, and a closure's flag is up while its surface is there. */
  ghost predicate StackOk(es: seq<Event>, s: State) {
    s.active == Live(es) && s.base == LastBase(es) && |s.flags| == Activations(es) &&
    DistinctIds(s.active, |s.flags|) && FlagsOk(s.flags, s.active)
  }

  ghost predicate FlagsOk(flags: seq<bool>, active: seq<Surface>) {
    forall i :: 0 <= i < |flags| ==> (flags[i] <==> exists x <- active :: x.id == i)
  }

  predicate Up(s: State, e: Event) { e.Release? && e.id < |s.flags| && s.flags[e.id] }

  /** The new state, field by field; the color never decides any other field. */
  lemma ApplyFields(s: State, e: Event)
    ensures var t := Apply(s, e);
            t.base == (if e.SetBase? then Some(e.color) else s.base) &&
            t.active == (if e.Activate? then s.active + [Surface(|s.flags|, e.className, e.themeColor)]
                         else if Up(s, e) then Splice(s.active, e.id) else s.active) &&
            t.flags == (if e.Activate? then s.flags + [true] else if Up(s, e) then s.flags[e.id := false]
                        else s.flags) &&
            t.page.classes == (if e.Activate? && e.className != "" then s.page.classes + {e.className}
                               else if Up(s, e) then DropClass(s.page, t.active, ClassOf(s.active, e.id)).classes
                               else s.page.classes)
  {
    hide Override;
    hide Showing;
    hide Splice;
    hide ClassOf;
    hide Carried;
  }

  /** A managed class is on the root iff a live surface carries it; others are as they were. */
  ghost predicate RootOk(page: Page, es: seq<Event>, classes: set<string>, active: seq<Surface>) {
    (forall c :: c in classes <==> if Managed(es, c) then Carried(active, c) else c in page.classes) &&
    (forall x <- active :: x.className != "" ==> Managed(es, x.className))
  }

  ghost predicate ClassesOk(page: Page, es: seq<Event>, s: State) {
    RootOk(page, es, s.page.classes, s.active)
  }

  ghost predicate ColorOk(page: Page, s: State) {
    s.page.hasMeta == page.hasMeta &&
    s.page.content == (if page.hasMeta then Showing(s.active, s.base, page.content) else page.content) &&
    (s.initial == NotCaptured ==> s.active == [] && s.base == None) &&
    (s.initial != NotCaptured ==> s.initial.content == if page.hasMeta then page.content else None)
  }

  ghost predicate Inv(page: Page, es: seq<Event>, s: State) {
    StackOk(es, s) && ClassesOk(page, es, s) && ColorOk(page, s)
  }

  lemma {:induction false} HistoryNext(es: seq<Event>, e: Event)
    ensures e.Activate? ==> Live(es + [e]) == Live(es) + [Surface(Activations(es), e.className, e.themeColor)]
    ensures e.Release? ==> Live(es + [e]) == Others(Live(es), e.id)
    ensures e.SetBase? ==> Live(es + [e]) == Live(es)
    ensures LastBase(es + [e]) == if e.SetBase? then Some(e.color) else LastBase(es)
    ensures Activations(es + [e]) == Activations(es) + if e.Activate? then 1 else 0
  {
  }

  /** Applying a color touches nothing but the attribute. */
  lemma ApplyThemeFrame(s: State)
    ensures var t := ApplyThemeColor(s);
            t.active == s.active && t.base == s.base && t.initial == s.initial && t.flags == s.flags &&
            t.page.classes == s.page.classes && t.page.hasMeta == s.page.hasMeta &&
            t.page.content == if !s.page.hasMeta then s.page.content else
              Showing(s.active, s.base, if s.initial.Captured? then s.initial.content else s.page.content)
  {
  }

  lemma StepKeepsStack(es: seq<Event>, e: Event, s: State)
    requires StackOk(es, s)
    ensures StackOk(es + [e], Apply(s, e))
  {
    hide Apply;
    hide Splice;
    hide Others;
    ApplyFields(s, e);
    HistoryNext(es, e);
    if e.Activate? {
      PushKeepsIds(s.active, Surface(|s.flags|, e.className, e.themeColor));
      PushKeepsFlags(s.flags, s.active, Surface(|s.flags|, e.className, e.themeColor));
    } else if Up(s, e) {
      SpliceIsOthers(s.active, e.id);
      OthersKept(s.active, e.id, |s.flags|);
    } else if e.Release? {
      OthersAbsent(s.active, e.id);
    }
  }

  lemma PushKeepsFlags(flags: seq<bool>, active: seq<Surface>, x: Surface)
    requires FlagsOk(flags, active) && DistinctIds(active, |flags|) && x.id == |flags|
    ensures FlagsOk(flags + [true], active + [x])
  {
  }

  lemma PushKeepsIds(active: seq<Surface>, x: Surface)
    requires DistinctIds(active, x.id)
    ensures DistinctIds(active + [x], x.id + 1)
    ensures forall y :: y in active + [x] <==> y in active || y == x
  {
  }

  lemma ManagedNext(es: seq<Event>, e: Event)
    ensures forall c :: Managed(es + [e], c) <==> Managed(es, c) || (c != "" && e.Activate? && e.className == c)
    ensures !Managed(es, "")
  {
  }

  lemma PushKeepsRoot(page: Page, es: seq<Event>, e: Event, classes: set<string>, active: seq<Surface>, x: Surface)
    requires RootOk(page, es, classes, active) && e.Activate? && e.className == x.className
    ensures RootOk(page, es + [e], if x.className != "" then classes + {x.className} else classes, active + [x])
  {
    ManagedNext(es, e);
    hide Managed;
    assert x in active + [x];
    assert forall y :: y in active + [x] <==> y in active || y == x;
    assert forall c :: Carried(active + [x], c) <==> Carried(active, c) || c == x.className;
  }

  lemma DropKeepsRoot(page: Page, es: seq<Event>, e: Event, p: Page, active: seq<Surface>, kept: seq<Surface>, id: nat)
    requires RootOk(page, es, p.classes, active) && !e.Activate?
    requires forall x :: x in kept <==> x in active && x.id != id
    requires exists x <- active :: x.id == id
    requires forall x <- active :: x.id == id ==> x.className == ClassOf(active, id)
    ensures RootOk(page, es + [e], DropClass(p, kept, ClassOf(active, id)).classes, kept)
  {
    ManagedNext(es, e);
    hide Managed;
    hide ClassOf;
    var c := ClassOf(active, id);
    forall d ensures Carried(active, d) <==> Carried(kept, d) || d == c {
      if d == c {
        var x :| x in active && x.id == id;
        assert x.className == d;
      }
    }
  }

  lemma StepKeepsClasses(page: Page, es: seq<Event>, e: Event, s: State)
    requires StackOk(es, s) && ClassesOk(page, es, s)
    ensures ClassesOk(page, es + [e], Apply(s, e))
  {
    hide Apply;
    hide Splice;
    hide DropClass;
    ApplyFields(s, e);
    ManagedNext(es, e);
    if e.Activate? {
      PushKeepsRoot(page, es, e, s.page.classes, s.active, Surface(|s.flags|, e.className, e.themeColor));
    } else if Up(s, e) {
      SpliceIsOthers(s.active, e.id);
      OthersKept(s.active, e.id, |s.flags|);
      ReleasedClass(s.active, e.id, |s.flags|);
      DropKeepsRoot(page, es, e, s.page, s.active, Splice(s.active, e.id), e.id);
    }
  }

  /** The one surface released is the one whose class the closure captured. */
  lemma {:induction false} ReleasedClass(active: seq<Surface>, id: nat, bound: nat)
    requires DistinctIds(active, bound)
    ensures forall x <- active :: x.id == id ==> x.className == ClassOf(active, id)
    ensures (exists x <- active :: x.id == id) ==> IndexOf(active, id) < |active|
  {
    forall x <- active | x.id == id ensures IndexOf(active, id) < |active| && active[IndexOf(active, id)] == x {
      IndexFound(active, id);
    }
  }

  lemma {:induction false} IndexFound(active: seq<Surface>, id: nat)
    requires exists x <- active :: x.id == id
    ensures IndexOf(active, id) < |active|
  {
    if active[0].id != id {
      IndexFound(active[1..], id);
    }
  }

  lemma StepKeepsColor(page: Page, es: seq<Event>, e: Event, s: State)
    requires StackOk(es, s) && ColorOk(page, s)
    ensures ColorOk(page, Apply(s, e))
  {
    hide Live;
    hide LastBase;
    hide Activations;
    hide Override;
    hide ApplyThemeColor;
    hide Splice;
    match e
    case SetBase(color) => ApplyThemeFrame(CaptureInitial(s).(base := Some(color)));
    case Activate(c, t) =>
      var s' := CaptureInitial(s);
      ApplyThemeFrame(s'.(active := s.active + [Surface(|s.flags|, c, t)], flags := s.flags + [true],
        page := if c != "" then s.page.(classes := s.page.classes + {c}) else s.page));
    case Release(id) =>
      if id < |s.flags| && s.flags[id] {
        var active := Splice(s.active, id);
        ApplyThemeFrame(s.(active := active, flags := s.flags[id := false],
          page := DropClass(s.page, active, ClassOf(s.active, id))));
      }
  }

  lemma {:induction false} RunKeepsInv(page: Page, es: seq<Event>)
    ensures Inv(page, es, Run(page, es))
  {
    if es != [] {
      var (init, e) := (es[..|es| - 1], es[|es| - 1]);
      RunKeepsInv(page, init);
      var s := Run(page, init);
      StepKeepsStack(init, e, s);
      StepKeepsClasses(page, init, e, s);
      StepKeepsColor(page, init, e, s);
      assert es == init + [e];
    }
  }

  /** Over every run, in any order, with repeated releases: each managed class is on the root iff a live surface
    * carries it, and the theme color, where the page has the tag, is that of the latest live surface having one,
    * else the base, else the page's own. */
  lemma {:induction false} SurfacesShow(page: Page, es: seq<Event>)
    ensures var s := Run(page, es);
            (forall c | Managed(es, c) :: c in s.page.classes <==> Carried(Live(es), c)) &&
            (forall c | !Managed(es, c) :: c in s.page.classes <==> c in page.classes) &&
            s.page.content == if page.hasMeta then Showing(Live(es), LastBase(es), page.content) else page.content
  {
    RunKeepsInv(page, es);
  }

  /** The color by index, where the page has the tag: that of a live surface with a color after which none has one, and
    * with no such surface the last base, else the page's own.
    */
  lemma {:induction false} ColorShown(page: Page, es: seq<Event>, i: nat)
    requires page.hasMeta
    ensures var (live, shown) := (Live(es), Run(page, es).page.content);
            (i < |live| && Themed(live[i]) && (forall j :: i < j < |live| ==> !Themed(live[j])) ==>
              shown == live[i].themeColor) &&
            ((forall j :: 0 <= j < |live| ==> !Themed(live[j])) ==>
              shown == if LastBase(es).Some? then LastBase(es) else page.content)
  {
    SurfacesShow(page, es);
    LatestThemed(Live(es), i);
  }

  /** Everything released and no base ever set: the attribute is back as it was, absent included, and no managed
   * class is left. */
  lemma {:induction false} ReleasingAllRestores(page: Page, es: seq<Event>)
    requires Live(es) == [] && LastBase(es) == None
    ensures Run(page, es).page.content == page.content
    ensures forall c | Managed(es, c) :: c !in Run(page, es).page.classes
  {
    RunKeepsInv(page, es);
  }

  // ---------- The module as it runs ----------

  class DocumentSurfaces {
    var active: seq<Surface>
    var base: Option<string>
    var initial: Captured
    var flags: seq<bool>
    var page: Page

    ghost function Model(): State
      reads this
    {
      State(active, base, initial, flags, page)
    }

    constructor (page: Page)
      ensures Model() == Run(page, [])
    {
      active, base, initial, flags, this.page := [], None, NotCaptured, [], page;
    }

    method CaptureInitialThemeColor()
      modifies this`initial
      ensures Model() == CaptureInitial(old(Model()))
    {
      if initial == NotCaptured {
        initial := Captured(if page.hasMeta then page.content else None);
      }
    }

    method ApplyTheme()
      modifies this`page
      ensures Model() == ApplyThemeColor(old(Model()))
    {
      if !page.hasMeta {
        return;
      }
      var i := |active|;
      assert active[..i] == active;
      while i > 0 && !Themed(active[i - 1])
        invariant 0 <= i <= |active| && Override(active) == Override(active[..i])
      {
        assert active[..i][..i - 1] == active[..i - 1];
        i := i - 1;
      }
      if i > 0 {
        page := page.(content := active[i - 1].themeColor);
      } else if base.Some? {
        page := page.(content := base);
      } else if initial.Captured? {
        page := page.(content := initial.content);
      }
    }

    method SetDocumentThemeColor(color: string)
      modifies this
      ensures Model() == Apply(old(Model()), SetBase(color))
    {
      CaptureInitialThemeColor();
      base := Some(color);
      ApplyTheme();
    }

    /** The result stands for the release closure. */
    method ActivateDocumentSurface(className: string, themeColor: Option<string>) returns (id: nat)
      modifies this
      ensures Model() == Apply(old(Model()), Activate(className, themeColor)) && id == |old(flags)|
    {
      CaptureInitialThemeColor();
      id := |flags|;
      active := active + [Surface(id, className, themeColor)];
      if className != "" {
        page := page.(classes := page.classes + {className});
      }
      flags := flags + [true];
      ApplyTheme();
    }

    method CallRelease(id: nat)
      modifies this
      ensures Model() == Apply(old(Model()), Release(id))
    {
      if id >= |flags| || !flags[id] {
        return;
      }
      flags := flags[id := false];
      var className := ClassOf(active, id);
      var index := IndexOf(active, id);
      if index < |active| {
        active := active[..index] + active[index + 1..];
      }
      if className != "" && !Carried(active, className) {
        page := page.(classes := page.classes - {className});
      }
      ApplyTheme();
    }
  }
}
