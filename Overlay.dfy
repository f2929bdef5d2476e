/** The overlay: the column of volume widgets built from the resolved controls,
    and the keyboard selection state machine that focuses a widget by its number,
    moves its volume with the arrow keys and leaves on Escape or on deselection. */
module Overlay {
  import opened Text
  import opened Optional
  import opened Controls
  import opened Resolver
  import opened Volume

  datatype Key = Up | Down | Escape | OtherKey

  /** A key press: which key, and the text it types. */
  datatype KeyEvent = KeyEvent(key: Key, text: string)

  /** What the key handlers keep: the index of the focused widget, and whether the
      program has exited (`sys.exit`), after which no event is handled. */
  datatype Selection = Selection(focused: Option<nat>, exited: bool)

  /** The volume change of one arrow key press. */
  const VolumeStep: real := 0.01

  /** The text that selects widget `i`: its number counted from one, `str(i + 1)`. */
  function Label(i: nat): string
  {
    Decimal(i + 1)
  }

  /** Widgets have distinct labels. */
  lemma LabelInjective(i: nat, j: nat)
    requires Label(i) == Label(j)
    ensures i == j
  {
    DecimalInjective(i + 1, j + 1);
  }

  /** The first index `i` in `[from, n)` whose label equals `text`. */
  function SelectedFrom(text: string, from: nat, n: nat): (r: Option<nat>)
    ensures r.Some? ==> from <= r.value < n && text == Label(r.value)
    decreases n - from
  {
    if from >= n then None
    else if text == Label(from) then Some(from)
    else SelectedFrom(text, from + 1, n)
  }

  /** The widget a typed text selects among `n` widgets labelled 1..n. */
  function SelectedIndex(text: string, n: nat): Option<nat>
  {
    SelectedFrom(text, 0, n)
  }

  lemma {:induction false} SelectedFromFinds(text: string, from: nat, n: nat, j: nat)
    requires from <= j < n && text == Label(j)
    ensures SelectedFrom(text, from, n) == Some(j)
    decreases n - from
  {
    if text == Label(from) {
      LabelInjective(from, j);
    } else {
      SelectedFromFinds(text, from + 1, n, j);
    }
  }

  /** Typing `str(j + 1)` selects widget `j`, and nothing else selects it. */
  lemma SelectedIndexSpec(text: string, n: nat, j: nat)
    ensures SelectedIndex(text, n) == Some(j) <==> j < n && text == Label(j)
  {
    if j < n && text == Label(j) {
      SelectedFromFinds(text, 0, n, j);
    }
  }

  /** A text that is no widget's label selects nothing. */
  lemma SelectedIndexNone(text: string, n: nat)
    ensures SelectedIndex(text, n) == None <==> forall j :: 0 <= j < n ==> text != Label(j)
  {
    if SelectedIndex(text, n) == None {
      forall j | 0 <= j < n ensures text != Label(j) {
        SelectedIndexSpec(text, n, j);
      }
    }
  }

  predicate IsArrow(k: Key)
  {
    k == Up || k == Down
  }

  /** The selection after `OverlayWidget.keyPressEvent`. Arrow keys only move the
      focused widget's volume; a widget's number focuses it, or, typed again,
      unfocuses it and exits when `closeOnDeselect` is set. */
  function Step(st: Selection, ev: KeyEvent, n: nat, closeOnDeselect: bool): (r: Selection)
    requires !st.exited
    ensures (st.focused.Some? ==> st.focused.value < n) ==> (r.focused.Some? ==> r.focused.value < n)
    ensures r.exited ==> closeOnDeselect && r.focused == st.focused
  {
    if IsArrow(ev.key) then st
    else
      match SelectedIndex(ev.text, n)
      case None => st
      case Some(i) =>
        if st.focused == Some(i) then
          if closeOnDeselect then Selection(Some(i), true) else Selection(None, false)
        else Selection(Some(i), false)
  }

  /** The selection after `Overlay.keyPressEvent`: Escape exits, every other key
      goes on to the widget column. */
  function WindowStep(st: Selection, ev: KeyEvent, n: nat, closeOnDeselect: bool): (r: Selection)
    requires !st.exited
    ensures ev.key == Escape ==> r == Selection(st.focused, true)
    ensures r.exited ==> ev.key == Escape || closeOnDeselect
    ensures (st.focused.Some? ==> st.focused.value < n) ==> (r.focused.Some? ==> r.focused.value < n)
  {
    if ev.key == Escape then st.(exited := true) else Step(st, ev, n, closeOnDeselect)
  }

  /** The volume change an arrow key asks for. */
  function ArrowDelta(k: Key): real
  {
    if k == Up then VolumeStep else -VolumeStep
  }

  /** Up and Down never change which widget is focused. */
  lemma ArrowsKeepSelection(st: Selection, ev: KeyEvent, n: nat, closeOnDeselect: bool)
    requires !st.exited && IsArrow(ev.key)
    ensures Step(st, ev, n, closeOnDeselect) == st
  {
  }

  /** Typing the number of a widget that is not focused focuses it. */
  lemma NumberFocuses(st: Selection, ev: KeyEvent, n: nat, closeOnDeselect: bool, i: nat)
    requires !st.exited && !IsArrow(ev.key)
    requires i < n && ev.text == Label(i)
    requires st.focused != Some(i)
    ensures Step(st, ev, n, closeOnDeselect) == Selection(Some(i), false)
  {
    SelectedIndexSpec(ev.text, n, i);
  }

  /** Typing the number of the focused widget unfocuses it, or exits. */
  lemma NumberAgainDeselects(st: Selection, ev: KeyEvent, n: nat, closeOnDeselect: bool, i: nat)
    requires !st.exited && !IsArrow(ev.key)
    requires i < n && ev.text == Label(i)
    requires st.focused == Some(i)
    ensures Step(st, ev, n, closeOnDeselect)
         == if closeOnDeselect then Selection(Some(i), true) else Selection(None, false)
  {
    SelectedIndexSpec(ev.text, n, i);
  }

  /** Any other text leaves the selection alone. */
  lemma OtherTextIgnored(st: Selection, ev: KeyEvent, n: nat, closeOnDeselect: bool)
    requires !st.exited && !IsArrow(ev.key)
    requires forall j :: 0 <= j < n ==> ev.text != Label(j)
    ensures Step(st, ev, n, closeOnDeselect) == st
  {
    SelectedIndexNone(ev.text, n);
  }

  /** Without `closeOnDeselect`, typing a number twice from an unfocused state
      returns to no selection. */
  lemma NumberTwiceToggles(st: Selection, ev: KeyEvent, n: nat, i: nat)
    requires !st.exited && !IsArrow(ev.key)
    requires i < n && ev.text == Label(i)
    requires st.focused != Some(i)
    ensures var mid := Step(st, ev, n, false);
      !mid.exited && Step(mid, ev, n, false) == Selection(None, false)
  {
    NumberFocuses(st, ev, n, false, i);
    NumberAgainDeselects(Selection(Some(i), false), ev, n, false, i);
  }

  /** What a widget built from a resolved entry needs of the device: its sessions
      fit, the ones it writes have distinct slots, and a master entry has none. */
  lemma EntryDrivesDevice(rules: seq<Control>, env: Environment, capacity: int, k: nat, n: nat)
    requires ValidControls(rules)
    requires SlotsFit(env.sessions, n) && DistinctSlots(env.sessions)
    requires k < |Resolve(rules, env, capacity)|
    ensures var ac := Resolve(rules, env, capacity)[k];
      && WidgetSessions(ac.control, ac.sessions) == ac.sessions
      && SlotsFit(ac.sessions, n)
      && DistinctSlots(Targets(ac.sessions, ac.control.onlyFirst))
  {
    ResolveEntries(rules, env, capacity, k);
    var ac := Resolve(rules, env, capacity)[k];
    forall t | t in ac.sessions ensures t.slot < n {
      assert t in env.sessions;
    }
    TargetsDistinct(ac.sessions, ac.control.onlyFirst);
  }

  /** Widget `w` as `VolumeControl.__init__` leaves it for the entry `ac`, on a
      device whose levels are `vols` and `level`: unfocused, colours defaulted,
      the entry's sessions, and `vl` the level it read. */
  ghost predicate BuiltFrom(w: VolumeControl, ac: ActiveControl, fg: string, bg: string,
                            vols: seq<real>, level: real)
    reads w
  {
    && !w.focused
    && w.control == WithColors(ac.control, fg, bg)
    && w.sessions == ac.sessions
    && SlotsFit(w.sessions, |vols|)
    && w.vl == Reading(w.control, w.sessions, vols, level)
  }

  /** The column of volume widgets (`OverlayWidget`). */
  class OverlayWidget {
    const controls: seq<VolumeControl>
    const closeOnDeselect: bool
    var focusedControl: Option<nat>
    var exited: bool

    /** Distinct widgets, a focused index in range, and, while running, exactly the
        focused widget has its `focused` flag set. */
    ghost predicate Valid()
      reads this, controls
    {
      && (forall i, j :: 0 <= i < j < |controls| ==> controls[i] != controls[j])
      && (focusedControl.Some? ==> focusedControl.value < |controls|)
      && (!exited ==> forall i :: 0 <= i < |controls| ==>
            (controls[i].focused <==> focusedControl == Some(i)))
    }

    /** Every widget's sessions have slots in a device of `n` sessions, and the
        ones it writes are distinct. */
    predicate FitsDevice(n: nat)
    {
      forall i :: 0 <= i < |controls| ==>
        && SlotsFit(controls[i].sessions, n)
        && DistinctSlots(Targets(controls[i].sessions, controls[i].control.onlyFirst))
    }

    function State(): Selection
      reads this
    {
      Selection(focusedControl, exited)
    }

    /** `OverlayWidget.__init__`: resolve the controls against the session
        snapshot and build one widget per active control, in order. Building a
        widget reads its volume with a zero change, which leaves in-range levels
        as they are. */
    constructor (rules: seq<Control>, env: Environment, capacity: int, fg: string, bg: string,
                 closeOnDeselect: bool, volumes: array<real>, speaker: MasterDevice)
      requires ValidControls(rules)
      requires SlotsFit(env.sessions, volumes.Length)
      requires DistinctSlots(env.sessions)
      requires forall q :: 0 <= q < volumes.Length ==> 0.0 <= volumes[q] <= 1.0
      requires 0.0 <= speaker.level <= 1.0
      modifies volumes, speaker
      ensures Valid() && FitsDevice(volumes.Length)
      ensures State() == Selection(None, false)
      ensures this.closeOnDeselect == closeOnDeselect
      ensures var out := Resolve(rules, env, capacity);
        && |controls| == |out|
        && forall i :: 0 <= i < |out| ==>
             && fresh(controls[i])
             && controls[i].control == WithColors(out[i].control, fg, bg)
             && controls[i].sessions == out[i].sessions
             && controls[i].vl == Reading(controls[i].control, controls[i].sessions, volumes[..], speaker.level)
      ensures volumes[..] == old(volumes[..]) && speaker.level == old(speaker.level)
    {
      var active := ResolveControls(rules, env, capacity);
      forall j | 0 <= j < |active|
        ensures WidgetSessions(active[j].control, active[j].sessions) == active[j].sessions
        ensures SlotsFit(active[j].sessions, volumes.Length)
        ensures DistinctSlots(Targets(active[j].sessions, active[j].control.onlyFirst))
      {
        EntryDrivesDevice(rules, env, capacity, j, volumes.Length);
      }
      var widgets := BuildWidgets(active, fg, bg, volumes, speaker);
      controls := widgets;
      this.closeOnDeselect := closeOnDeselect;
      focusedControl := None;
      exited := false;
    }

    /** The widget-building loop of `OverlayWidget.__init__`: one fresh, unfocused
        widget per active control, in order, each reading its level with a zero
        change. */
    static method BuildWidgets(active: seq<ActiveControl>, fg: string, bg: string,
                               volumes: array<real>, speaker: MasterDevice)
        returns (widgets: seq<VolumeControl>)
      requires forall j :: 0 <= j < |active| ==>
        && WidgetSessions(active[j].control, active[j].sessions) == active[j].sessions
        && SlotsFit(active[j].sessions, volumes.Length)
        && DistinctSlots(Targets(active[j].sessions, active[j].control.onlyFirst))
      requires forall q :: 0 <= q < volumes.Length ==> 0.0 <= volumes[q] <= 1.0
      requires 0.0 <= speaker.level <= 1.0
      modifies volumes, speaker
      ensures |widgets| == |active|
      ensures forall j :: 0 <= j < |active| ==>
        fresh(widgets[j]) && BuiltFrom(widgets[j], active[j], fg, bg, volumes[..], speaker.level)
      ensures forall j, k :: 0 <= j < k < |widgets| ==> widgets[j] != widgets[k]
      ensures volumes[..] == old(volumes[..]) && speaker.level == old(speaker.level)
    {
      widgets := [];
      var i := 0;
      while i < |active|
        invariant 0 <= i <= |active|
        invariant |widgets| == i
        invariant forall j :: 0 <= j < i ==>
          fresh(widgets[j]) && BuiltFrom(widgets[j], active[j], fg, bg, volumes[..], speaker.level)
        invariant forall j, k :: 0 <= j < k < i ==> widgets[j] != widgets[k]
        invariant volumes[..] == old(volumes[..]) && speaker.level == old(speaker.level)
      {
        var ac := active[i];
        var w := new VolumeControl(ac.control, ac.sessions, fg, bg, volumes, speaker);
        widgets := widgets + [w];
        i := i + 1;
      }
    }

    /** `OverlayWidget.keyPressEvent`: the selection moves as `Step` says; an arrow
        key changes the focused widget's volume by one step and nothing else. */
    method KeyPressEvent(ev: KeyEvent, volumes: array<real>, speaker: MasterDevice)
      requires Valid() && !exited && FitsDevice(volumes.Length)
      modifies this`focusedControl, this`exited, controls, volumes, speaker
      ensures Valid()
      ensures State() == Step(old(State()), ev, |controls|, closeOnDeselect)
      ensures IsArrow(ev.key) && old(focusedControl).Some? ==>
        var c := controls[old(focusedControl).value];
        var d := ArrowDelta(ev.key);
        if c.control.master then
          && speaker.level == Clamp(old(speaker.level) + d)
          && volumes[..] == old(volumes[..])
          && c.vl == speaker.level
        else
          && speaker.level == old(speaker.level)
          && volumes[..] == AdjustedVolumes(old(volumes[..]), Targets(c.sessions, c.control.onlyFirst), d)
          && c.vl == LastWritten(old(volumes[..]), Targets(c.sessions, c.control.onlyFirst), d, old(c.vl))
      ensures !(IsArrow(ev.key) && old(focusedControl).Some?) ==>
        volumes[..] == old(volumes[..]) && speaker.level == old(speaker.level)
      ensures forall j :: 0 <= j < |controls| && !(IsArrow(ev.key) && old(focusedControl) == Some(j)) ==>
        controls[j].vl == old(controls[j].vl)
    {
      if ev.key == Up {
        if focusedControl.Some? {
          controls[focusedControl.value].ChangeVolume(VolumeStep, volumes, speaker);
        }
      } else if ev.key == Down {
        if focusedControl.Some? {
          controls[focusedControl.value].ChangeVolume(-VolumeStep, volumes, speaker);
        }
      } else {
        SelectByText(ev.text);
      }
    }

    /** The non-arrow branch of `keyPressEvent`: find the widget whose label was
        typed, unfocus the current one, then toggle the selection. */
    method SelectByText(text: string)
      requires Valid() && !exited
      modifies this`focusedControl, this`exited, controls
      ensures Valid()
      ensures State() == Step(old(State()), KeyEvent(OtherKey, text), |controls|, closeOnDeselect)
      ensures forall j :: 0 <= j < |controls| ==> controls[j].vl == old(controls[j].vl)
    {
      var i := 0;
      while i < |controls|
        invariant 0 <= i <= |controls|
        invariant SelectedFrom(text, i, |controls|) == SelectedIndex(text, |controls|)
        invariant unchanged(this) && unchanged(controls)
      {
        if text == Label(i) {
          if focusedControl.Some? {
            controls[focusedControl.value].Unfocus();
          }
          if focusedControl == Some(i) {
            if closeOnDeselect {
              exited := true;
              return;
            }
            focusedControl := None;
          } else {
            focusedControl := Some(i);
            controls[i].Focus();
          }
          break;
        }
        i := i + 1;
      }
    }
  }

  /** The main window (`Overlay`), holding the widget column. */
  class OverlayWindow {
    const central: OverlayWidget

    /** `Overlay.__init__`: the window's central widget is the column built from
        the loaded controls. */
    constructor (rules: seq<Control>, env: Environment, capacity: int, fg: string, bg: string,
                 closeOnDeselect: bool, volumes: array<real>, speaker: MasterDevice)
      requires ValidControls(rules)
      requires SlotsFit(env.sessions, volumes.Length)
      requires DistinctSlots(env.sessions)
      requires forall q :: 0 <= q < volumes.Length ==> 0.0 <= volumes[q] <= 1.0
      requires 0.0 <= speaker.level <= 1.0
      modifies volumes, speaker
      ensures fresh(central)
      ensures central.Valid() && central.FitsDevice(volumes.Length)
      ensures central.State() == Selection(None, false)
      ensures central.closeOnDeselect == closeOnDeselect
      ensures var out := Resolve(rules, env, capacity);
        && |central.controls| == |out|
        && forall i :: 0 <= i < |out| ==>
             && fresh(central.controls[i])
             && central.controls[i].control == WithColors(out[i].control, fg, bg)
             && central.controls[i].sessions == out[i].sessions
             && central.controls[i].vl
                == Reading(central.controls[i].control, central.controls[i].sessions, volumes[..], speaker.level)
      ensures volumes[..] == old(volumes[..]) && speaker.level == old(speaker.level)
    {
      central := new OverlayWidget(rules, env, capacity, fg, bg, closeOnDeselect, volumes, speaker);
    }

    /** `Overlay.keyPressEvent`: Escape exits; any other key is handed to the
        widget column. */
    method KeyPressEvent(ev: KeyEvent, volumes: array<real>, speaker: MasterDevice)
      requires central.Valid() && !central.exited && central.FitsDevice(volumes.Length)
      modifies central`focusedControl, central`exited, central.controls, volumes, speaker
      ensures central.Valid()
      ensures central.State()
           == WindowStep(old(central.State()), ev, |central.controls|, central.closeOnDeselect)
      ensures IsArrow(ev.key) && old(central.focusedControl).Some? ==>
        var c := central.controls[old(central.focusedControl).value];
        var d := ArrowDelta(ev.key);
        if c.control.master then
          && speaker.level == Clamp(old(speaker.level) + d)
          && volumes[..] == old(volumes[..])
          && c.vl == speaker.level
        else
          && speaker.level == old(speaker.level)
          && volumes[..] == AdjustedVolumes(old(volumes[..]), Targets(c.sessions, c.control.onlyFirst), d)
          && c.vl == LastWritten(old(volumes[..]), Targets(c.sessions, c.control.onlyFirst), d, old(c.vl))
      ensures !(IsArrow(ev.key) && old(central.focusedControl).Some?) ==>
        volumes[..] == old(volumes[..]) && speaker.level == old(speaker.level)
      ensures forall j :: 0 <= j < |central.controls|
                          && !(IsArrow(ev.key) && old(central.focusedControl) == Some(j)) ==>
        central.controls[j].vl == old(central.controls[j].vl)
    {
      if ev.key == Escape {
        central.exited := true;
      } else {
        central.KeyPressEvent(ev, volumes, speaker);
      }
    }

    /** `Overlay.focusOutEvent`: losing the keyboard focus exits. */
    method FocusOutEvent()
      modifies central`exited
      ensures central.State() == Selection(old(central.focusedControl), true)
    {
      central.exited := true;
    }
  }
}
