/** What each guest command does: to the windows of the host once its actions are carried
    out, and to the planner's own table. */
module HostEffects {
  import opened Words
  import opened HostWindows

  // ---- Before and after ----

  /** The host shows exactly the open windows, each with its title, at least one by one in
      size, and visible if it is shown. */
  ghost predicate InStep(m: Model, host: Host) {
    (forall h :: h in host <==> h in m.tops && m.tops[h].open) &&
    (forall h :: h in host ==>
       host[h] == HostWindow(if m.tops[h].w > 0 then m.tops[h].w else 1, if m.tops[h].h > 0 then m.tops[h].h else 1,
                             m.tops[h].title, m.tops[h].shown))
  }

  lemma MirrorIsInStep(m: Model, host: Host)
    ensures InStep(m, host) <==> host == Mirror(m)
  {
    if InStep(m, host) {
      assert host == Mirror(m);
    }
  }

  ghost predicate OtherWindowsKeep(before: Host, after: Host, hwnd: Hwnd) {
    forall h: Hwnd :: h != hwnd ==> (h in after <==> h in before) && (h in before ==> after[h] == before[h])
  }

  ghost predicate OtherTopsKeep(m: Model, n: Model, hwnd: Hwnd) {
    forall h: Hwnd :: h != hwnd ==>
      (h in n.tops <==> h in m.tops) && (h in m.tops ==> n.tops[h] == m.tops[h]) && (h in n.children <==> h in m.children)
  }

  /** The command's model, actions and host. */
  datatype Effect = Effect(model: Model, actions: seq<HostAction>, host: Host)

  /** What carrying out a command comes to; every action it asks for is legal. */
  ghost predicate Does(m: Model, host: Host, cmd: WindowCommand, e: Effect) {
    Plan(m, cmd) == (e.model, e.actions) && Replay(e.actions, host) == Some(e.host)
  }

  predicate NothingHappens(m: Model, host: Host, e: Effect) {
    e == Effect(m, [], host)
  }

  predicate LastIs(actions: seq<HostAction>, a: HostAction) {
    actions != [] && actions[|actions| - 1] == a
  }

  /** A command that recreates no open window is carried out, and leaves host and model in
      step. */
  lemma EffectOf(m: Model, host: Host, cmd: WindowCommand) returns (e: Effect)
    requires m.Valid() && InStep(m, host) && !Reopens(m, cmd)
    ensures Does(m, host, cmd, e) && InStep(e.model, e.host) && e.model.Valid() && e.host == Mirror(e.model) && host == Mirror(m)
  {
    hide Mirror, Plan, InStep, Model.Valid, Reopens, Replay;
    MirrorIsInStep(m, host);
    PlanMirrors(m, cmd);
    PlanKeepsValid(m, cmd);
    var (n, actions) := Plan(m, cmd);
    MirrorIsInStep(n, Mirror(n));
    e := Effect(n, actions, Mirror(n));
  }

  /** Where the table of the other windows is the same, so are they on the host. */
  lemma OthersFollow(m: Model, host: Host, n: Model, after: Host, hwnd: Hwnd)
    requires InStep(m, host) && InStep(n, after) && OtherTopsKeep(m, n, hwnd)
    ensures OtherWindowsKeep(host, after, hwnd)
  {
  }

  // ---- Show ----

  /** Show with 0 on a known window: it is not visible afterwards. It keeps its place on the
      host, its title and its size. */
  lemma ShowZeroHides(m: Model, host: Host, hwnd: Hwnd) returns (e: Effect)
    requires m.Valid() && InStep(m, host) && hwnd in m.tops
    ensures Does(m, host, Show(hwnd, 0), e) && OtherWindowsKeep(host, e.host, hwnd) && OtherTopsKeep(m, e.model, hwnd)
    ensures hwnd in e.host <==> hwnd in host
    ensures hwnd in host ==> e.host[hwnd] == host[hwnd].(visible := false)
    ensures hwnd in e.model.tops && e.model.tops[hwnd] == m.tops[hwnd].(shown := false)
    ensures e.actions == if hwnd in host && host[hwnd].visible then [Hide(hwnd)] else []
    ensures e.model.order == m.order
  {
    hide Replay, Mirror, Model.Valid;
    e := EffectOf(m, host, Show(hwnd, 0));
  }

  /** Any other Show of a known window: it is open and visible, and in front. If it was not
      open, it is opened with the title and size that the guest gave last. */
  lemma ShowShows(m: Model, host: Host, hwnd: Hwnd, how: i32) returns (e: Effect)
    requires m.Valid() && InStep(m, host) && hwnd in m.tops && how != 0
    ensures Does(m, host, Show(hwnd, how), e) && OtherWindowsKeep(host, e.host, hwnd) && OtherTopsKeep(m, e.model, hwnd)
    ensures hwnd in e.host && e.host[hwnd].visible && e.host[hwnd].title == m.tops[hwnd].title
    ensures hwnd in host ==> e.host[hwnd] == host[hwnd].(visible := true) && e.actions == [Front(hwnd)]
    ensures e.host[hwnd].w == (if m.tops[hwnd].w > 0 then m.tops[hwnd].w else 1)
    ensures e.host[hwnd].h == (if m.tops[hwnd].h > 0 then m.tops[hwnd].h else 1)
    ensures LastIs(e.actions, Front(hwnd)) && e.model.order == m.order
    ensures hwnd in e.model.tops && e.model.tops[hwnd] == m.tops[hwnd].(open := true, shown := true)
  {
    hide Replay, Mirror, Model.Valid;
    e := EffectOf(m, host, Show(hwnd, how));
  }

  lemma ShowUnknown(m: Model, host: Host, hwnd: Hwnd, how: i32) returns (e: Effect)
    requires m.Valid() && InStep(m, host) && hwnd !in m.tops
    ensures Does(m, host, Show(hwnd, how), e) && NothingHappens(m, host, e)
  {
    hide Replay, Mirror, Model.Valid;
    e := EffectOf(m, host, Show(hwnd, how));
  }

  // ---- SetTitle and Pos ----

  /** A known window has the title given, on the host at once if it is open there. */
  lemma TitleIsSet(m: Model, host: Host, hwnd: Hwnd, title: string) returns (e: Effect)
    requires m.Valid() && InStep(m, host)
    ensures Does(m, host, SetTitle(hwnd, title), e) && OtherWindowsKeep(host, e.host, hwnd) && OtherTopsKeep(m, e.model, hwnd)
    ensures hwnd !in m.tops ==> NothingHappens(m, host, e)
    ensures hwnd in m.tops ==> hwnd in e.model.tops && e.model.tops[hwnd] == m.tops[hwnd].(title := title)
    ensures (hwnd in e.host <==> hwnd in host) && (hwnd in host ==> e.host[hwnd] == host[hwnd].(title := title))
    ensures e.actions == (if hwnd in host then [Title(hwnd, title)] else []) && e.model.order == m.order
  {
    hide Replay, Mirror, Model.Valid;
    e := EffectOf(m, host, SetTitle(hwnd, title));
  }

  /** A known window has the size given, if both dimensions are positive; otherwise nothing
      happens. */
  lemma SizeIsSet(m: Model, host: Host, hwnd: Hwnd, width: i32, height: i32) returns (e: Effect)
    requires m.Valid() && InStep(m, host)
    ensures Does(m, host, Pos(hwnd, width, height), e) && OtherWindowsKeep(host, e.host, hwnd) && OtherTopsKeep(m, e.model, hwnd)
    ensures hwnd !in m.tops || width <= 0 || height <= 0 ==> NothingHappens(m, host, e)
    ensures hwnd in m.tops && width > 0 && height > 0 ==>
      hwnd in e.model.tops && e.model.tops[hwnd] == m.tops[hwnd].(w := width, h := height) &&
      (hwnd in host ==> hwnd in e.host && e.host[hwnd] == host[hwnd].(w := width, h := height)) && (hwnd !in host ==> e.host == host)
    ensures e.model.order == m.order && (hwnd in e.host <==> hwnd in host)
  {
    hide Replay, Mirror, Model.Valid, OtherWindowsKeep;
    e := EffectOf(m, host, Pos(hwnd, width, height));
    SizeInTable(m, hwnd, width, height);
    hide Plan;
    OthersFollow(m, host, e.model, e.host, hwnd);
    if e.model == m {
      assert e.host == host;
    }
  }

  lemma SizeInTable(m: Model, hwnd: Hwnd, width: i32, height: i32)
    ensures var (n, actions) := Plan(m, Pos(hwnd, width, height));
            n.order == m.order && OtherTopsKeep(m, n, hwnd) && (hwnd in n.tops <==> hwnd in m.tops) &&
            (hwnd !in m.tops || width <= 0 || height <= 0 ==> n == m && actions == []) &&
            (hwnd in m.tops && width > 0 && height > 0 ==> n.tops[hwnd] == m.tops[hwnd].(w := width, h := height)) &&
            (hwnd in m.tops && !m.tops[hwnd].open ==> actions == [])
  {
    if hwnd in m.tops {
      assert m.tops[hwnd := m.tops[hwnd]] == m.tops;
    }
  }

  // ---- Present ----

  /** An open window that is no child is painted, and nothing else happens. */
  lemma PresentPaints(m: Model, host: Host, hwnd: Hwnd, w: u32, h: u32) returns (e: Effect)
    requires m.Valid() && InStep(m, host) && hwnd !in m.children && hwnd in host
    ensures Does(m, host, Present(hwnd, w, h), e) && e == Effect(m, [Paint(hwnd)], host)
  {
    hide Replay, Mirror, Model.Valid;
    e := EffectOf(m, host, Present(hwnd, w, h));
  }

  /** One that is not open is opened, brought to the front and painted, in this order: with its
      own title and size, or, never heard of, with the size of the picture. */
  lemma PresentOpens(m: Model, host: Host, hwnd: Hwnd, w: u32, h: u32) returns (e: Effect)
    requires m.Valid() && InStep(m, host) && hwnd !in m.children && hwnd !in host
    ensures Does(m, host, Present(hwnd, w, h), e) && OtherWindowsKeep(host, e.host, hwnd) && OtherTopsKeep(m, e.model, hwnd)
    ensures hwnd in e.host && e.host[hwnd].visible
    ensures |e.actions| == 3 && e.actions[0].Open? && e.actions[1] == Front(hwnd) && e.actions[2] == Paint(hwnd)
    ensures var t := if hwnd in m.tops then m.tops[hwnd] else Top(w, h, "exemu", false, false);
            e.host[hwnd] == HostWindow(if t.w > 0 then t.w else 1, if t.h > 0 then t.h else 1, t.title, true)
    ensures e.model.order == if hwnd in m.tops then m.order else m.order + [hwnd]
  {
    hide Replay, Mirror, Model.Valid, OtherWindowsKeep;
    e := EffectOf(m, host, Present(hwnd, w, h));
    PresentInTable(m, hwnd, w, h);
    hide Plan;
    OthersFollow(m, host, e.model, e.host, hwnd);
  }

  lemma PresentInTable(m: Model, hwnd: Hwnd, w: u32, h: u32)
    requires hwnd !in m.children && !(hwnd in m.tops && m.tops[hwnd].open)
    ensures var (n, actions) := Plan(m, Present(hwnd, w, h));
            var t := if hwnd in m.tops then m.tops[hwnd] else Top(w, h, "exemu", false, false);
            OtherTopsKeep(m, n, hwnd) && hwnd in n.tops && n.tops[hwnd] == t.(open := true, shown := true) &&
            (|actions| == 3 && actions[0].Open? && actions[1] == Front(hwnd) && actions[2] == Paint(hwnd)) &&
            n.order == if hwnd in m.tops then m.order else m.order + [hwnd]
  {
  }

  lemma PresentChild(m: Model, host: Host, hwnd: Hwnd, w: u32, h: u32) returns (e: Effect)
    requires m.Valid() && InStep(m, host) && hwnd in m.children
    ensures Does(m, host, Present(hwnd, w, h), e) && NothingHappens(m, host, e)
  {
    hide Replay, Mirror;
    e := EffectOf(m, host, Present(hwnd, w, h));
  }

  // ---- Create and Destroy ----

  /** A window whose parent is known becomes a child, and the host does not hear of it. */
  lemma ChildIsCreated(m: Model, host: Host, cmd: WindowCommand) returns (e: Effect)
    requires m.Valid() && InStep(m, host) && cmd.Create? && cmd.parent != 0
    requires cmd.parent in m.tops || cmd.parent in m.children
    ensures Does(m, host, cmd, e) && e == Effect(Model(m.order, m.tops, m.children + {cmd.hwnd}), [], host)
  {
    hide Replay, Mirror;
    e := EffectOf(m, host, cmd);
  }

  /** A top-level window is known with the title and size given, last in the order, no longer
      a child; visible, it is open on the host with that title and size, each dimension at
      least 1, and in front; not visible, the host does not have it. */
  lemma TopIsCreated(m: Model, host: Host, cmd: WindowCommand) returns (e: Effect)
    requires m.Valid() && InStep(m, host) && cmd.Create? && cmd.hwnd !in host
    requires cmd.parent == 0 || (cmd.parent !in m.tops && cmd.parent !in m.children)
    ensures Does(m, host, cmd, e) && OtherWindowsKeep(host, e.host, cmd.hwnd) && OtherTopsKeep(m, e.model, cmd.hwnd)
    ensures cmd.hwnd in e.model.tops && cmd.hwnd !in e.model.children
    ensures e.model.tops[cmd.hwnd] == Top(cmd.w, cmd.h, cmd.title, cmd.visible, cmd.visible)
    ensures e.model.order != [] && e.model.order[|e.model.order| - 1] == cmd.hwnd
    ensures cmd.hwnd in e.host <==> cmd.visible
    ensures cmd.visible ==>
      e.host[cmd.hwnd] == HostWindow(if cmd.w > 0 then cmd.w else 1, if cmd.h > 0 then cmd.h else 1, cmd.title, true) &&
      LastIs(e.actions, Front(cmd.hwnd))
    ensures !cmd.visible ==> e.actions == []
  {
    hide Replay, Mirror, Model.Valid, OtherWindowsKeep;
    e := EffectOf(m, host, cmd);
    TopInTable(m, cmd);
    hide Plan;
    OthersFollow(m, host, e.model, e.host, cmd.hwnd);
  }

  lemma TopInTable(m: Model, cmd: WindowCommand)
    requires cmd.Create? && (cmd.parent == 0 || (cmd.parent !in m.tops && cmd.parent !in m.children))
    ensures var (n, actions) := Plan(m, cmd);
            OtherTopsKeep(m, n, cmd.hwnd) && cmd.hwnd in n.tops && cmd.hwnd !in n.children &&
            n.tops[cmd.hwnd] == Top(cmd.w, cmd.h, cmd.title, cmd.visible, cmd.visible) &&
            n.order != [] && n.order[|n.order| - 1] == cmd.hwnd &&
            (if cmd.visible then LastIs(actions, Front(cmd.hwnd)) else actions == [])
  {
    hide Without;
  }

  /** The window is forgotten, and closed if it was open. */
  lemma DestroyForgets(m: Model, host: Host, hwnd: Hwnd) returns (e: Effect)
    requires m.Valid() && InStep(m, host)
    ensures Does(m, host, Destroy(hwnd), e) && OtherWindowsKeep(host, e.host, hwnd) && OtherTopsKeep(m, e.model, hwnd)
    ensures hwnd !in e.model.tops && hwnd !in e.model.children && hwnd !in e.model.order && hwnd !in e.host
    ensures e.actions == if hwnd in host then [Close(hwnd)] else []
  {
    hide Replay, Mirror, Without, NoDuplicates;
    e := EffectOf(m, host, Destroy(hwnd));
    assert hwnd !in e.model.order;
  }

  // ---- The order of creation ----

  /** Forgetting a window keeps the order of the others. */
  lemma {:induction false} WithoutKeepsOrder(order: seq<Hwnd>, hwnd: Hwnd, a: Hwnd, b: Hwnd)
    requires NoDuplicates(order) && a != hwnd && b != hwnd && ComesBefore(order, a, b)
    ensures ComesBefore(Without(order, hwnd), a, b)
  {
    var n := |order| - 1;
    var rest := Without(order[..n], hwnd);
    var i, j :| 0 <= i < j < |order| && order[i] == a && order[j] == b;
    if j < n {
      assert order[..n][i] == a && order[..n][j] == b;
      WithoutKeepsOrder(order[..n], hwnd, a, b);
      var x, y :| 0 <= x < y < |rest| && rest[x] == a && rest[y] == b;
      assert Without(order, hwnd)[x] == a && Without(order, hwnd)[y] == b;
    } else {
      assert a in order[..n] && a in rest;
      var x :| 0 <= x < |rest| && rest[x] == a;
      assert Without(order, hwnd)[x] == a && Without(order, hwnd)[|rest|] == b;
    }
  }

  predicate ComesBefore(order: seq<Hwnd>, a: Hwnd, b: Hwnd) {
    exists i, j :: 0 <= i < j < |order| && order[i] == a && order[j] == b
  }
}
