/** The planner that turns guest window commands into host actions, the host it drives, and
    the proof that the two stay in step. */
module HostWindows {
  import opened Words

  type Hwnd = u32
  const SW_HIDE: i32 := 0

  datatype WindowCommand =
    | Create(hwnd: Hwnd, parent: Hwnd, w: u32, h: u32, visible: bool, title: string)
    | SetTitle(hwnd: Hwnd, title: string)
    | Show(hwnd: Hwnd, cmd: i32)
    | Pos(hwnd: Hwnd, width: i32, height: i32)
    | Present(hwnd: Hwnd, w: u32, h: u32)
    | Destroy(hwnd: Hwnd)

  datatype HostAction =
    | Open(hwnd: Hwnd, w: u32, h: u32, title: string)
    | Title(hwnd: Hwnd, title: string)
    | Front(hwnd: Hwnd)
    | Hide(hwnd: Hwnd)
    | Resize(hwnd: Hwnd, w: u32, h: u32)
    | Paint(hwnd: Hwnd)
    | Close(hwnd: Hwnd)

  datatype Top = Top(w: u32, h: u32, title: string, open: bool, shown: bool)

  predicate NoDuplicates(order: seq<Hwnd>) {
    forall i, j :: 0 <= i < j < |order| ==> order[i] != order[j]
  }

  datatype Model = Model(order: seq<Hwnd>, tops: map<Hwnd, Top>, children: set<Hwnd>) {
    predicate Known(hwnd: Hwnd) {
      hwnd in tops || hwnd in children
    }

    predicate IsOpen(hwnd: Hwnd) {
      hwnd in tops && tops[hwnd].open
    }

    /** No window is listed twice, the list and the table agree, and a shown window is open. */
    ghost predicate Valid() {
      && NoDuplicates(order)
      && (forall h :: h in order <==> h in tops)
      && (forall h :: h in tops && tops[h].shown ==> tops[h].open)
    }
  }

  // --------------------------------------------------------------- planning

  function Without(order: seq<Hwnd>, hwnd: Hwnd): (r: seq<Hwnd>)
    ensures forall h :: h in r <==> h in order && h != hwnd
  {
    if order == [] then []
    else
      var n := |order| - 1;
      Without(order[..n], hwnd) + if order[n] != hwnd then [order[n]] else []
  }

  lemma {:induction false} WithoutNoDuplicates(order: seq<Hwnd>, hwnd: Hwnd)
    requires NoDuplicates(order)
    ensures NoDuplicates(Without(order, hwnd))
  {
    if order != [] {
      var n := |order| - 1;
      WithoutNoDuplicates(order[..n], hwnd);
      assert order[n] !in order[..n];
    }
  }

  function Forget(m: Model, hwnd: Hwnd): Model {
    Model(Without(m.order, hwnd), m.tops - {hwnd}, m.children - {hwnd})
  }

  function Clamp(n: u32): u32 {
    if n == 0 then 1 else n
  }

  function Insert(m: Model, hwnd: Hwnd, top: Top): Model {
    m.(order := m.order + [hwnd], tops := m.tops[hwnd := top])
  }

  function Update(m: Model, hwnd: Hwnd, top: Top): Model {
    m.(tops := m.tops[hwnd := top])
  }

  /** Open the window if it is not, then bring it to the front. */
  function ShowTop(m: Model, hwnd: Hwnd): (Model, seq<HostAction>)
    requires hwnd in m.tops
  {
    var t := m.tops[hwnd];
    (Update(m, hwnd, t.(open := true, shown := true)),
     (if t.open then [] else [Open(hwnd, Clamp(t.w), Clamp(t.h), t.title)]) + [Front(hwnd)])
  }

  function HideTop(m: Model, hwnd: Hwnd): (Model, seq<HostAction>)
    requires hwnd in m.tops
  {
    var t := m.tops[hwnd];
    if !t.shown then (m, [])
    else (Update(m, hwnd, t.(shown := false)), if t.open then [Hide(hwnd)] else [])
  }

  function Plan(m: Model, cmd: WindowCommand): (Model, seq<HostAction>) {
    match cmd
    case Create(hwnd, parent, w, h, visible, title) => (
      if parent != 0 && m.Known(parent) then (m.(children := m.children + {hwnd}), [])
      else
        var n := Insert(Forget(m, hwnd), hwnd, Top(w, h, title, false, false));
        if visible then ShowTop(n, hwnd) else (n, []))
    case SetTitle(hwnd, title) =>
      if hwnd !in m.tops then (m, [])
      else (Update(m, hwnd, m.tops[hwnd].(title := title)), if m.tops[hwnd].open then [Title(hwnd, title)] else [])
    case Show(hwnd, how) =>
      if hwnd !in m.tops then (m, []) else if how == SW_HIDE then HideTop(m, hwnd) else ShowTop(m, hwnd)
    case Pos(hwnd, width, height) =>
      if hwnd !in m.tops || width <= 0 || height <= 0
         || (m.tops[hwnd].w == width && m.tops[hwnd].h == height) then (m, [])
      else (Update(m, hwnd, m.tops[hwnd].(w := width, h := height)),
            if m.tops[hwnd].open then [Resize(hwnd, width, height)] else [])
    case Present(hwnd, w, h) => (
      if hwnd in m.children then (m, [])
      else if m.IsOpen(hwnd) then (m, [Paint(hwnd)])
      else
        var n := if hwnd in m.tops then m else Insert(m, hwnd, Top(w, h, "exemu", false, false));
        var (shown, actions) := ShowTop(n, hwnd);
        (shown, actions + [Paint(hwnd)]))
    case Destroy(hwnd) => (Forget(m, hwnd), if m.IsOpen(hwnd) then [Close(hwnd)] else [])
  }

  // --------------------------------------------------------------- the host

  datatype HostWindow = HostWindow(w: u32, h: u32, title: string, visible: bool)

  type Host = map<Hwnd, HostWindow>

  /** Only a closed window is opened; everything else hits an open one. */
  predicate Legal(a: HostAction, host: Host) {
    if a.Open? then a.hwnd !in host else a.hwnd in host
  }

  function Perform(a: HostAction, host: Host): Host
    requires Legal(a, host)
  {
    match a
    case Open(hwnd, w, h, title) => host[hwnd := HostWindow(w, h, title, false)]
    case Title(hwnd, title) => host[hwnd := host[hwnd].(title := title)]
    case Front(hwnd) => host[hwnd := host[hwnd].(visible := true)]
    case Hide(hwnd) => host[hwnd := host[hwnd].(visible := false)]
    case Resize(hwnd, w, h) => host[hwnd := host[hwnd].(w := w, h := h)]
    case Paint(_) => host
    case Close(hwnd) => host - {hwnd}
  }

  /** The host after a list of actions; None if one of them was illegal. */
  function Replay(actions: seq<HostAction>, host: Host): Option<Host> {
    if actions == [] then Some(host)
    else if !Legal(actions[0], host) then None
    else Replay(actions[1..], Perform(actions[0], host))
  }

  /** The windows the model says are open. */
  function Mirror(m: Model): Host {
    map h | h in m.tops && m.tops[h].open ::
      HostWindow(Clamp(m.tops[h].w), Clamp(m.tops[h].h), m.tops[h].title, m.tops[h].shown)
  }

  /** Create as a top-level window with the handle of a window that is still open. */
  predicate Reopens(m: Model, cmd: WindowCommand) {
    cmd.Create? && !(cmd.parent != 0 && m.Known(cmd.parent)) && m.IsOpen(cmd.hwnd)
  }

  // ----------------------------------------------------------------- proofs

  lemma ForgetKeepsValid(m: Model, hwnd: Hwnd)
    requires m.Valid()
    ensures Forget(m, hwnd).Valid()
  {
    WithoutNoDuplicates(m.order, hwnd);
    hide NoDuplicates;
  }

  lemma InsertKeepsValid(m: Model, hwnd: Hwnd, top: Top)
    requires m.Valid() && hwnd !in m.tops && !top.shown
    ensures Insert(m, hwnd, top).Valid()
  {
  }

  lemma PlanKeepsValid(m: Model, cmd: WindowCommand)
    requires m.Valid()
    ensures Plan(m, cmd).0.Valid()
  {
    match cmd {
      case Create(hwnd, _, w, h, _, title) =>
        ForgetKeepsValid(m, hwnd);
        InsertKeepsValid(Forget(m, hwnd), hwnd, Top(w, h, title, false, false));
      case Present(hwnd, w, h) =>
        if hwnd !in m.tops {
          InsertKeepsValid(m, hwnd, Top(w, h, "exemu", false, false));
        }
      case Destroy(hwnd) => ForgetKeepsValid(m, hwnd);
      case _ =>
    }
    hide NoDuplicates;
  }

  lemma ReplayOne(a: HostAction, host: Host)
    ensures Replay([a], host) == if Legal(a, host) then Some(Perform(a, host)) else None
  {
    if Legal(a, host) {
      assert [a][1..] == [];
    }
  }

  lemma {:induction false} ReplayAppend(a: seq<HostAction>, b: seq<HostAction>, host: Host)
    ensures Replay(a + b, host) ==
            if Replay(a, host).Some? then Replay(b, Replay(a, host).value) else None
  {
    if a == [] {
      assert a + b == b;
    } else {
      assert (a + b)[1..] == a[1..] + b;
      if Legal(a[0], host) {
        ReplayAppend(a[1..], b, Perform(a[0], host));
      }
    }
  }

  lemma ShowMirrors(m: Model, hwnd: Hwnd)
    requires m.Valid() && hwnd in m.tops
    ensures Replay(ShowTop(m, hwnd).1, Mirror(m)) == Some(Mirror(ShowTop(m, hwnd).0))
  {
    var (n, actions) := ShowTop(m, hwnd);
    var t := m.tops[hwnd];
    var open := if t.open then [] else [Open(hwnd, Clamp(t.w), Clamp(t.h), t.title)];
    ReplayAppend(open, [Front(hwnd)], Mirror(m));
    if !t.open {
      ReplayOne(open[0], Mirror(m));
    }
    var host := Replay(open, Mirror(m)).value;
    ReplayOne(Front(hwnd), host);
    assert Perform(Front(hwnd), host) == Mirror(n);
  }

  lemma HideMirrors(m: Model, hwnd: Hwnd)
    requires m.Valid() && hwnd in m.tops
    ensures Replay(HideTop(m, hwnd).1, Mirror(m)) == Some(Mirror(HideTop(m, hwnd).0))
  {
    ReplayOne(Hide(hwnd), Mirror(m));
    if m.IsOpen(hwnd) {
      assert Perform(Hide(hwnd), Mirror(m)) == Mirror(Update(m, hwnd, m.tops[hwnd].(shown := false)));
    }
  }

  /** One command keeps host and model in step exactly when it does not create a window
      whose handle is still open. */
  lemma PlanMirrors(m: Model, cmd: WindowCommand)
    requires m.Valid()
    ensures Replay(Plan(m, cmd).1, Mirror(m)) == Some(Mirror(Plan(m, cmd).0)) <==> !Reopens(m, cmd)
  {
    match cmd
    case Create(_, _, _, _, _, _) => CreateMirrors(m, cmd);
    case SetTitle(hwnd, title) => SetTitleMirrors(m, hwnd, title);
    case Show(hwnd, how) =>
      hide Replay, Mirror, ShowTop, HideTop;
      if hwnd in m.tops {
        ShowMirrors(m, hwnd);
        HideMirrors(m, hwnd);
      } else {
        ReplayNone(Mirror(m));
      }
    case Pos(_, _, _) => PosMirrors(m, cmd);
    case Present(_, _, _) => PresentMirrors(m, cmd);
    case Destroy(hwnd) => DestroyMirrors(m, hwnd);
  }

  lemma ReplayNone(host: Host)
    ensures Replay([], host) == Some(host)
  {
  }

  lemma SetTitleMirrors(m: Model, hwnd: Hwnd, title: string)
    requires m.Valid()
    ensures var (n, actions) := Plan(m, SetTitle(hwnd, title)); Replay(actions, Mirror(m)) == Some(Mirror(n))
  {
    ReplayOne(Title(hwnd, title), Mirror(m));
    var n := Plan(m, SetTitle(hwnd, title)).0;
    if m.IsOpen(hwnd) {
      assert Perform(Title(hwnd, title), Mirror(m)) == Mirror(n);
    } else {
      assert Mirror(m) == Mirror(n);
    }
  }

  lemma PosMirrors(m: Model, cmd: WindowCommand)
    requires m.Valid() && cmd.Pos?
    ensures var (n, actions) := Plan(m, cmd); Replay(actions, Mirror(m)) == Some(Mirror(n))
  {
    var n := Plan(m, cmd).0;
    if n != m {
      ReplayOne(Resize(cmd.hwnd, cmd.width, cmd.height), Mirror(m));
      if m.IsOpen(cmd.hwnd) {
        assert Perform(Resize(cmd.hwnd, cmd.width, cmd.height), Mirror(m)) == Mirror(n);
      } else {
        assert Mirror(m) == Mirror(n);
      }
    }
  }

  lemma DestroyMirrors(m: Model, hwnd: Hwnd)
    requires m.Valid()
    ensures var (n, actions) := Plan(m, Destroy(hwnd)); Replay(actions, Mirror(m)) == Some(Mirror(n))
  {
    hide NoDuplicates, Without;
    ReplayOne(Close(hwnd), Mirror(m));
    var n := Forget(m, hwnd);
    if m.IsOpen(hwnd) {
      assert Perform(Close(hwnd), Mirror(m)) == Mirror(n);
    } else {
      assert Mirror(m) == Mirror(n);
    }
  }

  lemma CreateMirrors(m: Model, cmd: WindowCommand)
    requires m.Valid() && cmd.Create?
    ensures Replay(Plan(m, cmd).1, Mirror(m)) == Some(Mirror(Plan(m, cmd).0)) <==> !Reopens(m, cmd)
  {
    hide NoDuplicates, Without;
    if !(cmd.parent != 0 && m.Known(cmd.parent)) {
      var n := Insert(Forget(m, cmd.hwnd), cmd.hwnd, Top(cmd.w, cmd.h, cmd.title, false, false));
      ForgetKeepsValid(m, cmd.hwnd);
      InsertKeepsValid(Forget(m, cmd.hwnd), cmd.hwnd, Top(cmd.w, cmd.h, cmd.title, false, false));
      if m.IsOpen(cmd.hwnd) {
        assert cmd.hwnd in Mirror(m) && cmd.hwnd !in Mirror(n);
      } else {
        assert Mirror(m) == Mirror(n);
        ShowMirrors(n, cmd.hwnd);
      }
    }
  }

  lemma PresentMirrors(m: Model, cmd: WindowCommand)
    requires m.Valid() && cmd.Present?
    ensures Replay(Plan(m, cmd).1, Mirror(m)) == Some(Mirror(Plan(m, cmd).0))
  {
    var hwnd := cmd.hwnd;
    if hwnd !in m.children {
      if m.IsOpen(hwnd) {
        ReplayOne(Paint(hwnd), Mirror(m));
      } else {
        var n := if hwnd in m.tops then m else Insert(m, hwnd, Top(cmd.w, cmd.h, "exemu", false, false));
        if hwnd !in m.tops {
          InsertKeepsValid(m, hwnd, Top(cmd.w, cmd.h, "exemu", false, false));
        }
        assert Mirror(n) == Mirror(m);
        ShowMirrors(n, hwnd);
        var (shown, actions) := ShowTop(n, hwnd);
        ReplayAppend(actions, [Paint(hwnd)], Mirror(m));
        ReplayOne(Paint(hwnd), Mirror(shown));
      }
    }
  }

  // ------------------------------------------------------------- whole runs

  /** The model and all host actions after a run of commands. */
  function Run(m: Model, cmds: seq<WindowCommand>): (Model, seq<HostAction>)
    decreases |cmds|
  {
    if cmds == [] then (m, [])
    else
      var (n, first) := Plan(m, cmds[0]);
      var (last, rest) := Run(n, cmds[1..]);
      (last, first + rest)
  }

  predicate NeverReopens(m: Model, cmds: seq<WindowCommand>)
    decreases |cmds|
  {
    cmds == [] || (!Reopens(m, cmds[0]) && NeverReopens(Plan(m, cmds[0]).0, cmds[1..]))
  }

  // A window left behind on the host

  /** The host still has a window that the model takes for closed. */
  predicate Stale(m: Model, host: Host, hwnd: Hwnd) {
    hwnd in host && !m.IsOpen(hwnd)
  }

  /** An action that hits another window, or is no Close, leaves it there. */
  lemma {:induction false} ReplayKeeps(actions: seq<HostAction>, host: Host, hwnd: Hwnd)
    requires hwnd in host && Replay(actions, host).Some?
    requires forall a :: a in actions ==> !(a.Close? && a.hwnd == hwnd)
    ensures hwnd in Replay(actions, host).value
  {
    if actions != [] {
      assert !(actions[0].Close? && actions[0].hwnd == hwnd);
      ReplayKeeps(actions[1..], Perform(actions[0], host), hwnd);
    }
  }

  lemma {:induction false} OpenStops(actions: seq<HostAction>, host: Host, k: nat)
    requires k < |actions| && actions[k].Open? && actions[k].hwnd in host
    requires forall a :: a in actions ==> !a.Close?
    ensures Replay(actions, host) == None
  {
    if k > 0 && Legal(actions[0], host) {
      assert !actions[0].Close?;
      OpenStops(actions[1..], Perform(actions[0], host), k - 1);
    }
  }

  /** A command either leaves the window closed in the model and closes no such window on the
      host, or opens it, which the host refuses. */
  lemma StalePlan(m: Model, cmd: WindowCommand, hwnd: Hwnd)
    requires !m.IsOpen(hwnd)
    ensures var (n, actions) := Plan(m, cmd);
            (forall a :: a in actions ==> !(a.Close? && a.hwnd == hwnd)) &&
            (n.IsOpen(hwnd) ==> actions != [] && actions[0].Open? && actions[0].hwnd == hwnd &&
                                forall a :: a in actions ==> !a.Close?)
  {
    hide Without;
  }

  lemma StaleStep(m: Model, cmd: WindowCommand, host: Host, hwnd: Hwnd)
    requires Stale(m, host, hwnd)
    ensures var (n, actions) := Plan(m, cmd);
            Replay(actions, host) == None || Stale(n, Replay(actions, host).value, hwnd)
  {
    StalePlan(m, cmd, hwnd);
    hide Plan;
    var (n, actions) := Plan(m, cmd);
    if n.IsOpen(hwnd) {
      OpenStops(actions, host, 0);
    } else if Replay(actions, host).Some? {
      ReplayKeeps(actions, host, hwnd);
    }
  }

  /** It is never got rid of: the run ends with an illegal action or with the window there. */
  lemma {:induction false} StaleStays(m: Model, cmds: seq<WindowCommand>, host: Host, hwnd: Hwnd)
    requires Stale(m, host, hwnd)
    ensures var (last, actions) := Run(m, cmds);
            Replay(actions, host) == None || Stale(last, Replay(actions, host).value, hwnd)
    decreases |cmds|
  {
    hide Plan, Stale;
    if cmds == [] {
      ReplayNone(host);
    } else {
      var (n, first) := Plan(m, cmds[0]);
      StaleStep(m, cmds[0], host, hwnd);
      ReplayAppend(first, Run(n, cmds[1..]).1, host);
      if Replay(first, host).Some? {
        StaleStays(n, cmds[1..], Replay(first, host).value, hwnd);
      }
    }
  }

  /** Recreating an open window leaves its host window behind, or is refused at once. */
  lemma ReopenLeavesStale(m: Model, cmd: WindowCommand)
    requires m.Valid() && Reopens(m, cmd)
    ensures var (n, actions) := Plan(m, cmd);
            Replay(actions, Mirror(m)) == None || Stale(n, Replay(actions, Mirror(m)).value, cmd.hwnd)
  {
    hide NoDuplicates, Without;
    var n := Plan(m, cmd).0;
    assert cmd.hwnd in Mirror(m);
  }

  /** Along a run every host action is legal and the host's windows are the model's open
      windows (same titles, clamped sizes, visibility) if and only if no command of the run
      recreates a window that is still open. */
  lemma {:induction false} RunMirrors(m: Model, cmds: seq<WindowCommand>)
    requires m.Valid()
    ensures Run(m, cmds).0.Valid()
    ensures Replay(Run(m, cmds).1, Mirror(m)) == Some(Mirror(Run(m, cmds).0)) <==> NeverReopens(m, cmds)
    decreases |cmds|
  {
    hide Mirror, Plan, Model.Valid, Reopens;
    if cmds == [] {
      ReplayNone(Mirror(m));
    } else {
      var (n, first) := Plan(m, cmds[0]);
      PlanKeepsValid(m, cmds[0]);
      PlanMirrors(m, cmds[0]);
      RunMirrors(n, cmds[1..]);
      ReplayAppend(first, Run(n, cmds[1..]).1, Mirror(m));
      if Reopens(m, cmds[0]) {
        ReopenLeavesStale(m, cmds[0]);
        if Replay(first, Mirror(m)).Some? {
          StaleStays(n, cmds[1..], Replay(first, Mirror(m)).value, cmds[0].hwnd);
          StaleDiffers(Run(m, cmds).0, Replay(Run(m, cmds).1, Mirror(m)), cmds[0].hwnd);
        }
      }
    }
  }

  /** Creating a shown window twice: the host is asked to open what it has open. */
  lemma ReopenedIsRefused()
    ensures var m, create := Model([], map[], {}), Create(1, 0, 640, 480, true, "exemu");
            m.Valid() && Replay(Run(m, [create]).1, Mirror(m)) == Some(Mirror(Run(m, [create]).0)) &&
            Replay(Run(m, [create, create]).1, Mirror(m)) != Some(Mirror(Run(m, [create, create]).0))
  {
    hide Mirror, Replay, Run;
    var m, create := Model([], map[], {}), Create(1, 0, 640, 480, true, "exemu");
    var n := Plan(m, create).0;
    assert [create][1..] == [] && [create, create][1..] == [create];
    assert NeverReopens(m, [create]) && n.IsOpen(1) && !NeverReopens(m, [create, create]);
    RunMirrors(m, [create]);
    RunMirrors(m, [create, create]);
  }

  lemma StaleDiffers(m: Model, host: Option<Host>, hwnd: Hwnd)
    requires host.Some? ==> Stale(m, host.value, hwnd)
    ensures host != Some(Mirror(m))
  {
  }
}
