/** The window model as an object updated in place, tied to the planner's functions. */
module WindowModel {
  import opened Words
  import opened HostWindows

  class Windows {
    var order: seq<Hwnd>
    var tops: map<Hwnd, Top>
    var children: set<Hwnd>

    function State(): Model
      reads this
    {
      Model(order, tops, children)
    }

    constructor ()
      ensures State() == Model([], map[], {}) && State().Valid()
    {
      order, tops, children := [], map[], {};
    }

    /** The first window, in order of creation, that is on screen. */
    method Primary() returns (r: Option<Hwnd>)
      requires State().Valid()
      ensures r.Some? ==> r.value in Mirror(State()) && Mirror(State())[r.value].visible
      ensures r.None? ==> forall h :: h in Mirror(State()) ==> !Mirror(State())[h].visible
      ensures forall i, j :: 0 <= i < j < |order| && r == Some(order[j]) ==> !(tops[order[i]].open && tops[order[i]].shown)
    {
      for k := 0 to |order|
        invariant forall i :: 0 <= i < k ==> !(tops[order[i]].open && tops[order[i]].shown)
      {
        if tops[order[k]].open && tops[order[k]].shown {
          return Some(order[k]);
        }
      }
      return None;
    }

    method ForgetWindow(hwnd: Hwnd)
      modifies this
      ensures State() == Forget(old(State()), hwnd)
    {
      order := Without(order, hwnd);
      tops := tops - {hwnd};
      children := children - {hwnd};
    }

    /** Make sure the window is on the host; the actions that put it there. */
    method EnsureTop(hwnd: Hwnd, w: u32, h: u32, title: string) returns (actions: seq<HostAction>)
      modifies this
      ensures var before := if hwnd in old(tops) then old(State())
                            else Insert(old(State()), hwnd, Top(w, h, title, false, false));
              var t := before.tops[hwnd];
              && State() == Update(before, hwnd, t.(open := true))
              && actions == if t.open then [] else [Open(hwnd, Clamp(t.w), Clamp(t.h), t.title)]
    {
      if hwnd !in tops {
        order := order + [hwnd];
        tops := tops[hwnd := Top(w, h, title, false, false)];
      }
      var entry := tops[hwnd];
      if entry.open {
        assert tops[hwnd := entry] == tops;
        return [];
      }
      tops := tops[hwnd := entry.(open := true)];
      return [Open(hwnd, Clamp(entry.w), Clamp(entry.h), entry.title)];
    }

    method ShowWindow(hwnd: Hwnd) returns (actions: seq<HostAction>)
      requires hwnd in tops
      modifies this
      ensures (State(), actions) == ShowTop(old(State()), hwnd)
    {
      actions := EnsureTop(hwnd, 1, 1, "exemu");
      tops := tops[hwnd := tops[hwnd].(shown := true)];
      assert tops == old(tops)[hwnd := old(tops)[hwnd].(open := true, shown := true)];
      actions := actions + [Front(hwnd)];
    }

    method HideWindow(hwnd: Hwnd) returns (actions: seq<HostAction>)
      requires hwnd in tops
      modifies this
      ensures (State(), actions) == HideTop(old(State()), hwnd)
    {
      var top := tops[hwnd];
      if !top.shown {
        return [];
      }
      tops := tops[hwnd := top.(shown := false)];
      return if top.open then [HostAction.Hide(hwnd)] else [];
    }

    /** One guest command: the model changes as planned and stays valid, and the host that
        mirrors it follows if and only if the command does not recreate an open window. */
    method Handle(cmd: WindowCommand) returns (actions: seq<HostAction>)
      requires State().Valid()
      modifies this
      ensures (State(), actions) == Plan(old(State()), cmd)
      ensures State().Valid()
      ensures Replay(actions, Mirror(old(State()))) == Some(Mirror(State())) <==> !Reopens(old(State()), cmd)
    {
      hide Replay, Mirror, Model.Valid;
      PlanKeepsValid(State(), cmd);
      PlanMirrors(State(), cmd);
      actions := [];
      match cmd {
        case Create(hwnd, parent, w, h, visible, title) =>
          if parent != 0 && (parent in tops || parent in children) {
            children := children + {hwnd};
          } else {
            ForgetWindow(hwnd);
            order := order + [hwnd];
            tops := tops[hwnd := Top(w, h, title, false, false)];
            if visible {
              actions := ShowWindow(hwnd);
            }
          }
        case SetTitle(hwnd, title) =>
          if hwnd in tops {
            tops := tops[hwnd := tops[hwnd].(title := title)];
            if tops[hwnd].open {
              actions := [Title(hwnd, title)];
            }
          }
        case Show(hwnd, how) =>
          if hwnd in tops {
            if how == SW_HIDE {
              actions := HideWindow(hwnd);
            } else {
              actions := ShowWindow(hwnd);
            }
          }
        case Pos(hwnd, width, height) =>
          var w, h := if width > 0 then width else 0, if height > 0 then height else 0;
          if hwnd in tops && w != 0 && h != 0 && !(tops[hwnd].w == w && tops[hwnd].h == h) {
            tops := tops[hwnd := tops[hwnd].(w := w, h := h)];
            if tops[hwnd].open {
              actions := [Resize(hwnd, w, h)];
            }
          }
        case Present(hwnd, w, h) =>
          if hwnd !in children {
            if !(hwnd in tops && tops[hwnd].open) {
              if hwnd !in tops {
                order := order + [hwnd];
                tops := tops[hwnd := Top(w, h, "exemu", false, false)];
              }
              actions := ShowWindow(hwnd);
            }
            assert [] + [Paint(hwnd)] == [Paint(hwnd)];
            actions := actions + [Paint(hwnd)];
          }
        case Destroy(hwnd) =>
          children := children - {hwnd};
          var wasOpen := hwnd in tops && tops[hwnd].open;
          ForgetWindow(hwnd);
          assert children == old(children) - {hwnd};
          if wasOpen {
            actions := [Close(hwnd)];
          }
      }
    }
  }
}
