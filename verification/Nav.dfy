/** Page navigation (src/gtk/nav.c): a stack of menu ids, a widget per id, and beamenu's current node. */
module Nav {
  import opened Beamenu

  const STACK_SIZE := 8
  const EXIT_BACK := 0

  /** A GtkWidget pointer. */
  datatype Ptr = Null | Widget(id: int)

  /** The statics of nav.c and beamenu_now; `stack` holds the entries below the stack cursor, `exits` the back exits. */
  datatype State = State(widgets: seq<Ptr>, stack: seq<int>, now: int, exits: seq<int>) {
    function Top(): int
      requires stack != []
    {
      stack[|stack| - 1]
    }

    function Pop(): seq<int>
      requires stack != []
    {
      stack[..|stack| - 1]
    }

    /** Ids index both tables, and every exit that names a node names an existing one. */
    ghost predicate InBounds() {
      && |widgets| == |exits| && 0 <= now < |exits|
      && (forall k :: 0 <= k < |stack| ==> 0 <= stack[k] < |widgets|)
      && (forall i :: 0 <= i < |exits| ==>
            0 <= exits[i] && (exits[i] < |exits| || exits[i] == DEFAULT || exits[i] == ROOT))
    }
  }

  datatype Op = Set(widget: Ptr, id: int) | Back(force: bool)

  /** kee_nav_set (nav.c:30-43): an id that has a widget is refused. */
  function DoSet(s: State, widget: Ptr, id: int): State
    requires 0 <= id < |s.widgets|
  {
    if s.widgets[id] != Null then s
    else s.(widgets := s.widgets[id := widget], now := id, stack := s.stack + [id])
  }

  datatype BackResult = BackResult(state: State, widget: Ptr)

  /** The tail of kee_nav_back: show the widget of `r`, if it has one. */
  function Show(s: State, r: int): BackResult
    requires 0 <= r < |s.widgets|
  {
    if s.widgets[r] == Null then BackResult(s, Null) else BackResult(s.(now := r), s.widgets[r])
  }

  /** kee_nav_back (nav.c:53-91) with beamenu_use_exit (beamenu.c:49-67): the exit is taken, and the register moved,
      before the stack is looked at; the root exit pops like the default one. */
  function DoBack(s: State, force: bool): BackResult
    requires s.InBounds()
  {
    if s.stack == [] then BackResult(s, Null)
    else
      var e := s.exits[s.now];
      if e == INACTIVE && !force then BackResult(s, Null)
      else
        var r := if e == ROOT then 0 else e;
        var s1 := if e == INACTIVE then s else s.(now := r);
        if r == 0 || r == DEFAULT then
          if |s.stack| < 2 then BackResult(s1, Null)
          else
            var s2 := s1.(widgets := s.widgets[s.Top() := Null], stack := s.Pop());
            Show(s2, s2.Top())
        else Show(s1, r)
  }

  /** A menu whose back exits are inactive, default or root. */
  ghost predicate PlainExits(exits: seq<int>) {
    forall i :: 0 <= i < |exits| ==> exits[i] in {INACTIVE, DEFAULT, ROOT}
  }

  ghost predicate Distinct(stack: seq<int>) {
    forall i, j :: 0 <= i < j < |stack| ==> stack[i] != stack[j]
  }

  /** The navigation invariant. */
  ghost predicate Inv(s: State) {
    && s.InBounds() && PlainExits(s.exits) && Distinct(s.stack)
    && (forall id :: 0 <= id < |s.widgets| ==> (s.widgets[id] != Null <==> id in s.stack))
    && (s.stack != [] ==> s.now == s.Top() && s.exits[s.stack[0]] == INACTIVE)
  }

  /** What callers must respect: real widgets, existing ids, and a first page without a back exit. */
  predicate Allowed(s: State, op: Op) {
    match op
    case Set(widget, id) => widget != Null && 0 <= id < |s.widgets| == |s.exits|
        && (s.stack == [] ==> s.exits[id] == INACTIVE)
    case Back(_) => true
  }

  function Do(s: State, op: Op): State
    requires s.InBounds() && Allowed(s, op)
  {
    match op
    case Set(widget, id) => DoSet(s, widget, id)
    case Back(force) => DoBack(s, force).state
  }

  lemma SetKeepsInv(s: State, widget: Ptr, id: int)
    requires Inv(s) && Allowed(s, Set(widget, id))
    ensures Inv(DoSet(s, widget, id))
  {
    var s' := DoSet(s, widget, id);
    if s.widgets[id] == Null {
      assert s'.Top() == id;
      forall k | 0 <= k < |s'.widgets|
        ensures s'.widgets[k] != Null <==> k in s'.stack
      {
        assert k in s'.stack <==> k in s.stack || k == id;
      }
      assert s'.stack[0] == if s.stack == [] then id else s.stack[0];
    }
  }

  /** Back pops exactly one page, or does nothing; its widget is the new current page's. The bottom page stays. */
  lemma BackKeepsInv(s: State, force: bool)
    requires Inv(s)
    ensures var r := DoBack(s, force);
            && Inv(r.state) && r.state.exits == s.exits
            && (if |s.stack| >= 2 && (force || s.exits[s.now] != INACTIVE)
                then r.state.stack == s.Pop() && r.widget == s.widgets[r.state.Top()] != Null
                else r == BackResult(s, Null))
  {
    if |s.stack| >= 2 && (force || s.exits[s.now] != INACTIVE) {
      BelowTop(s);
      BackPops(s, force);
      PopKeepsInv(s);
    } else {
      BackStays(s, force);
    }
  }

  /** The state without its top page. */
  function Popped(s: State): State
    requires |s.stack| >= 2 && s.InBounds()
  {
    s.(widgets := s.widgets[s.Top() := Null], stack := s.Pop(), now := s.Pop()[|s.stack| - 2])
  }

  lemma BelowTop(s: State)
    requires Inv(s) && |s.stack| >= 2
    ensures var shown := s.Pop()[|s.stack| - 2];
            0 <= shown < |s.widgets| && shown != s.Top() && s.widgets[shown] != Null
  {
    var shown := s.Pop()[|s.stack| - 2];
    assert shown == s.stack[|s.stack| - 2] && shown in s.stack;
  }

  lemma BackPops(s: State, force: bool)
    requires s.InBounds() && |s.stack| >= 2 && (force || s.exits[s.now] != INACTIVE) && PlainExits(s.exits)
    requires var shown := s.Pop()[|s.stack| - 2]; shown != s.Top() && s.widgets[shown] != Null
    ensures DoBack(s, force) == BackResult(Popped(s), s.widgets[s.Pop()[|s.stack| - 2]])
  {
  }

  lemma BackStays(s: State, force: bool)
    requires Inv(s) && !(|s.stack| >= 2 && (force || s.exits[s.now] != INACTIVE))
    ensures DoBack(s, force) == BackResult(s, Null)
  {
  }

  lemma PopKeepsInv(s: State)
    requires Inv(s) && |s.stack| >= 2
    ensures Inv(Popped(s)) && Popped(s).exits == s.exits && Popped(s).stack == s.Pop()
  {
    var s' := Popped(s);
    var top, below := s.Top(), s.Pop();
    assert s.stack == below + [top] && top !in below;
    forall k | 0 <= k < |s'.widgets|
      ensures s'.widgets[k] != Null <==> k in s'.stack
    {
      assert k in s.stack <==> k in below || k == top;
    }
  }

  // ---- runs

  lemma StepKeepsInv(s: State, op: Op)
    requires Inv(s) && Allowed(s, op)
    ensures Inv(Do(s, op)) && Do(s, op).exits == s.exits
    ensures s.stack != [] ==> Do(s, op).stack != [] && Do(s, op).stack[0] == s.stack[0]
  {
    match op {
      case Set(widget, id) => SetKeepsInv(s, widget, id);
      case Back(force) => BackKeepsInv(s, force);
    }
  }

  ghost predicate AllAllowed(s: State, ops: seq<Op>)
    requires Inv(s)
    decreases |ops|
  {
    ops == [] || (Allowed(s, ops[0]) && (StepKeepsInv(s, ops[0]); AllAllowed(Do(s, ops[0]), ops[1..])))
  }

  ghost function DoAll(s: State, ops: seq<Op>): State
    requires Inv(s) && AllAllowed(s, ops)
    decreases |ops|
  {
    if ops == [] then s else StepKeepsInv(s, ops[0]); DoAll(Do(s, ops[0]), ops[1..])
  }

  function Initial(exits: seq<int>): State {
    State(seq(|exits|, _ => Null), [], 0, exits)
  }

  function Ids(n: nat): (r: set<int>)
    ensures |r| == n && forall k :: k in r <==> 0 <= k < n
  {
    if n == 0 then {} else Ids(n - 1) + {n - 1}
  }

  function Elements(stack: seq<int>): (r: set<int>)
    ensures forall x :: x in r <==> x in stack
  {
    set x | x in stack
  }

  lemma {:induction false} DistinctCount(stack: seq<int>)
    requires Distinct(stack)
    ensures |Elements(stack)| == |stack|
  {
    if stack != [] {
      var n := |stack| - 1;
      DistinctCount(stack[..n]);
      assert stack == stack[..n] + [stack[n]];
      assert stack[n] !in Elements(stack[..n]);
      assert Elements(stack) == Elements(stack[..n]) + {stack[n]};
    }
  }

  /** Distinct ids below `n` are at most `n` many. */
  lemma Pigeonhole(stack: seq<int>, n: nat)
    requires Distinct(stack) && forall k :: 0 <= k < |stack| ==> 0 <= stack[k] < n
    ensures |stack| <= n
  {
    DistinctCount(stack);
    var used, ids := Elements(stack), Ids(n);
    assert used <= ids;
    assert ids == used + (ids - used);
  }

  /** Over every run the invariant holds, the first page is never popped, and with at most eight widget slots (seven in
      the shipped menu) the stack array never overflows. */
  lemma {:induction false} RunsKeepInv(s: State, ops: seq<Op>)
    requires Inv(s) && AllAllowed(s, ops)
    ensures var s' := DoAll(s, ops);
            && Inv(s') && s'.exits == s.exits
            && (s.stack != [] ==> s'.stack != [] && s'.stack[0] == s.stack[0])
            && (|s.exits| <= STACK_SIZE ==> |s'.stack| <= STACK_SIZE)
    decreases |ops|
  {
    if ops == [] {
      Pigeonhole(s.stack, |s.widgets|);
    } else {
      StepKeepsInv(s, ops[0]);
      RunsKeepInv(Do(s, ops[0]), ops[1..]);
    }
  }

  lemma InitialInv(exits: seq<int>)
    requires PlainExits(exits) && exits != []
    ensures Inv(Initial(exits))
  {
  }

  /** So it is from the start of the program, for every menu whose back exits are plain. */
  lemma AllRunsKeepInv(exits: seq<int>, ops: seq<Op>)
    requires PlainExits(exits) && exits != []
    ensures Inv(Initial(exits))
    ensures AllAllowed(Initial(exits), ops) ==>
              var s := DoAll(Initial(exits), ops);
              Inv(s) && s.exits == exits && (|exits| <= STACK_SIZE ==> |s.stack| <= STACK_SIZE)
  {
    InitialInv(exits);
    if AllAllowed(Initial(exits), ops) {
      RunsKeepInv(Initial(exits), ops);
    }
  }

  /** A forced back undoes a fresh set exactly; an unforced one does so exactly when the page has a back exit. */
  lemma BackUndoesSet(s: State, widget: Ptr, id: int, force: bool)
    requires Inv(s) && Allowed(s, Set(widget, id)) && s.stack != [] && s.widgets[id] == Null
    ensures DoBack(DoSet(s, widget, id), force).state == s <==> force || s.exits[id] != INACTIVE
    ensures force ==> DoBack(DoSet(s, widget, id), force) == BackResult(s, s.widgets[s.Top()])
  {
    SetKeepsInv(s, widget, id);
    var s1 := DoSet(s, widget, id);
    BackKeepsInv(s1, force);
    assert s1.Pop() == s.stack && s.Top() in s.stack;
    assert s1.widgets[id := Null] == s.widgets;
  }

  // ---- whose widget is shown

  /** What a set of a free id does: the id is on top and current, its slot holds the given widget, the rest stays. */
  lemma SetPlaces(s: State, widget: Ptr, id: int)
    requires 0 <= id < |s.widgets| && s.widgets[id] == Null
    ensures var s' := DoSet(s, widget, id);
            && s'.now == id && s'.widgets[id] == widget && s'.stack == s.stack + [id] && s'.exits == s.exits
            && |s'.widgets| == |s.widgets|
            && forall k :: 0 <= k < |s.widgets| && k != id ==> s'.widgets[k] == s.widgets[k]
  {
  }

  /** A set of a filled slot is refused. */
  lemma SetRefused(s: State, widget: Ptr, id: int)
    requires 0 <= id < |s.widgets| && s.widgets[id] != Null
    ensures DoSet(s, widget, id) == s
  {
  }

  /** The widget of the last set of each id that was not refused. */
  ghost function Given(s: State, ops: seq<Op>, given: map<int, Ptr>): map<int, Ptr>
    requires Inv(s) && AllAllowed(s, ops)
    decreases |ops|
  {
    if ops == [] then given
    else
      var next := if ops[0].Set? && s.widgets[ops[0].id] == Null then given[ops[0].id := ops[0].widget] else given;
      StepKeepsInv(s, ops[0]);
      Given(Do(s, ops[0]), ops[1..], next)
  }

  /** Every page on the stack shows the widget it was given. */
  ghost predicate ShowsGiven(s: State, given: map<int, Ptr>) {
    forall id :: 0 <= id < |s.widgets| && s.widgets[id] != Null ==> id in given && given[id] == s.widgets[id]
  }

  lemma StepShowsGiven(s: State, op: Op, given: map<int, Ptr>)
    requires Inv(s) && Allowed(s, op) && ShowsGiven(s, given)
    ensures ShowsGiven(Do(s, op), if op.Set? && s.widgets[op.id] == Null then given[op.id := op.widget] else given)
  {
    match op {
      case Set(widget, id) =>
        if s.widgets[id] == Null {
          SetPlaces(s, widget, id);
        } else {
          SetRefused(s, widget, id);
        }
      case Back(force) =>
        if |s.stack| >= 2 && (force || s.exits[s.now] != INACTIVE) {
          BelowTop(s);
          BackPops(s, force);
          hide DoBack;
        } else {
          BackStays(s, force);
        }
    }
  }

  /** Over every run each page keeps the widget of its last set. */
  lemma {:induction false} RunsShowGiven(s: State, ops: seq<Op>, given: map<int, Ptr>)
    requires Inv(s) && AllAllowed(s, ops) && ShowsGiven(s, given)
    ensures ShowsGiven(DoAll(s, ops), Given(s, ops, given))
    decreases |ops|
  {
    hide ShowsGiven, Do;
    if ops != [] {
      StepKeepsInv(s, ops[0]);
      StepShowsGiven(s, ops[0], given);
      RunsShowGiven(Do(s, ops[0]), ops[1..],
                    if ops[0].Set? && s.widgets[ops[0].id] == Null then given[ops[0].id := ops[0].widget] else given);
    }
  }

  /** From the start of the program: what a back that pops returns is the widget last given to the page it shows. */
  lemma BackShowsGiven(exits: seq<int>, ops: seq<Op>, force: bool)
    requires PlainExits(exits) && exits != [] && Inv(Initial(exits)) && AllAllowed(Initial(exits), ops)
    ensures var s, given := DoAll(Initial(exits), ops), Given(Initial(exits), ops, map[]);
            && Inv(s)
            && (|s.stack| >= 2 && (force || s.exits[s.now] != INACTIVE) ==>
                  var r := DoBack(s, force);
                  r.state.now in given && r.widget == given[r.state.now] && r.state.now == s.stack[|s.stack| - 2])
  {
    var s := DoAll(Initial(exits), ops);
    RunsKeepInv(Initial(exits), ops);
    assert ShowsGiven(Initial(exits), map[]);
    RunsShowGiven(Initial(exits), ops, map[]);
    if |s.stack| >= 2 && (force || s.exits[s.now] != INACTIVE) {
      BelowTop(s);
      BackPops(s, force);
      hide DoBack, DoAll, Given;
    }
  }

  /** The three plain exits by their codes: 0xfe and 0xff pop a page, 0x00 does only when forced. */
  lemma PlainExitsByCode(s: State, force: bool)
    requires Inv(s) && |s.stack| >= 2
    ensures s.exits[s.now] in {0x00, 0xfe, 0xff}
    ensures s.exits[s.now] in {0xfe, 0xff} || force ==> DoBack(s, force).state == Popped(s)
    ensures s.exits[s.now] == 0x00 && !force ==> DoBack(s, force) == BackResult(s, Null)
  {
    if s.exits[s.now] in {0xfe, 0xff} || force {
      BelowTop(s);
      BackPops(s, force);
      hide DoBack;
    }
  }

  /** An exit to another node (a menu may have such back exits): the register moves there, the stack stays, and the
      node's widget is shown if it has one. */
  lemma BackElsewhere(s: State, force: bool)
    requires s.InBounds() && s.stack != [] && s.exits[s.now] !in {INACTIVE, DEFAULT, ROOT}
    ensures DoBack(s, force) == BackResult(s.(now := s.exits[s.now]), s.widgets[s.exits[s.now]])
  {
  }

  // ---- the statics of nav.c

  class NavStatics {
    const menu: Menu
    const widgets: array<Ptr>
    const stack: array<int>
    var crsr: nat

    ghost predicate Valid()
      reads this, menu, menu.node, widgets, stack
    {
      && menu.Valid() && menu.nExits > EXIT_BACK
      && widgets.Length == menu.nDst + 1 && stack.Length == STACK_SIZE && crsr <= STACK_SIZE
    }

    ghost function View(): State
      requires Valid()
      reads this, menu, menu.node, widgets, stack
    {
      State(widgets[..], stack[..crsr], menu.now,
            seq(menu.nDst + 1, i requires 0 <= i <= menu.nDst reads menu, menu.node
              requires menu.Valid() && menu.nExits > EXIT_BACK => menu.node[i].dst[EXIT_BACK]))
    }

    constructor (menu: Menu)
      requires menu.Valid() && menu.nExits > EXIT_BACK
      ensures Valid() && this.menu == menu && fresh(widgets) && fresh(stack)
      ensures View().stack == [] && forall id :: 0 <= id <= menu.nDst ==> widgets[id] == Null
    {
      this.menu := menu;
      widgets := new Ptr[menu.nDst + 1](_ => Null);
      stack := new int[STACK_SIZE](_ => 0);
      crsr := 0;
    }

    /** kee_nav_set (nav.c:30-43). */
    method Set(widget: Ptr, id: int) returns (r: int)
      requires Valid() && 0 <= id < widgets.Length && (widgets[id] == Null ==> crsr < STACK_SIZE)
      modifies this`crsr, menu`now, widgets, stack
      ensures Valid() && r == if old(widgets[id]) != Null then 1 else 0
      ensures View() == DoSet(old(View()), widget, id)
    {
      if widgets[id] != Null {
        return 1;
      }
      widgets[id] := widget;
      var now := menu.Jump(id);
      stack[crsr] := id;
      crsr := crsr + 1;
      assert View().widgets == old(View()).widgets[id := widget];
      return 0;
    }

    /** kee_nav_unset (nav.c:45-51). */
    method Unset(id: int) returns (r: int)
      requires 0 <= id < widgets.Length
      modifies widgets
      ensures r == if old(widgets[id]) == Null then 1 else 0
      ensures widgets[..] == old(widgets[..])[id := Null]
    {
      if widgets[id] == Null {
        return 1;
      }
      widgets[id] := Null;
      return 0;
    }

    /** kee_nav_back (nav.c:53-91). */
    method Back(force: bool) returns (widget: Ptr)
      requires Valid() && View().InBounds()
      modifies this`crsr, menu`now, widgets
      ensures Valid() && BackResult(View(), widget) == DoBack(old(View()), force)
    {
      if crsr == 0 {
        return Null;
      }
      var r := UseBackExit();
      if r < 0 {
        if !force {
          return Null;
        }
        r := 0;
      }
      if r == 0 || r == DEFAULT {
        if crsr < 2 {
          return Null;
        }
        r := PopPage();
      }
      widget := ShowPage(r);
    }

    /** Take the back exit of the current node. */
    method UseBackExit() returns (r: int)
      requires Valid() && View().InBounds()
      modifies menu`now
      ensures Valid()
      ensures var e := old(View()).exits[old(View()).now];
              && r == (if e == INACTIVE then -1 else if e == ROOT then 0 else e)
              && View() == if e == INACTIVE then old(View()) else old(View()).(now := r)
    {
      r := menu.UseExit(EXIT_BACK);
    }

    /** Drop the top page and its widget; the new top is returned. */
    method PopPage() returns (r: int)
      requires Valid() && crsr >= 2 && View().stack != [] && 0 <= View().Top() < widgets.Length
      modifies this`crsr, widgets
      ensures Valid() && var s := old(View());
              View() == s.(widgets := s.widgets[s.Top() := Null], stack := s.Pop()) && r == s.Pop()[|s.stack| - 2]
    {
      r := stack[crsr - 1];
      var u := Unset(r);
      crsr := crsr - 1;
      r := stack[crsr - 1];
      assert stack[..crsr] == old(stack[..crsr])[..crsr];
    }

    method ShowPage(r: int) returns (widget: Ptr)
      requires Valid() && 0 <= r < widgets.Length
      modifies menu`now
      ensures Valid() && BackResult(View(), widget) == Show(old(View()), r)
    {
      if widgets[r] == Null {
        return Null;
      }
      widget := widgets[r];
      var u := menu.Jump(r);
    }
  }
}
