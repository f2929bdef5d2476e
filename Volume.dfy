/** `VolumeControlWidget` without its painting: the control it shows, the sessions
    it drives, its focus flag and displayed volume `vl`, the volume change and
    the title rule. */
module Volume {
  import opened Text
  import opened Controls
  import opened Resolver

  /** `max(0, min(1, x))` */
  function Clamp(x: real): (r: real)
    ensures 0.0 <= r <= 1.0
    ensures 0.0 <= x <= 1.0 ==> r == x
    ensures x > 1.0 ==> r == 1.0
    ensures x < 0.0 ==> r == 0.0
  {
    if x < 0.0 then 0.0 else if x > 1.0 then 1.0 else x
  }

  /** The system output device, whose scalar level a master control drives. */
  class MasterDevice {
    var level: real

    constructor (level: real)
      ensures this.level == level
    {
      this.level := level;
    }
  }

  /** The sessions `change_volume` writes: all of them, or only the first under
      `only_first` (the loop breaks after one). */
  function Targets(sessions: seq<Session>, onlyFirst: bool): (t: seq<Session>)
    ensures onlyFirst ==> |t| <= 1
    ensures |t| == 0 <==> |sessions| == 0
    ensures t <= sessions
    ensures !onlyFirst ==> t == sessions
    ensures onlyFirst && |sessions| > 0 ==> t == [sessions[0]]
  {
    if onlyFirst && |sessions| > 0 then sessions[..1] else sessions
  }

  predicate HasSlot(targets: seq<Session>, q: nat)
  {
    exists t :: t in targets && t.slot == q
  }

  /** Session volumes after adding `delta` to every target's volume, clamped;
      every other volume unchanged. */
  function AdjustedVolumes(vols: seq<real>, targets: seq<Session>, delta: real): seq<real>
  {
    seq(|vols|, q requires 0 <= q < |vols| =>
      if HasSlot(targets, q) then Clamp(vols[q] + delta) else vols[q])
  }

  /** Every target slot holds its clamped new level, in [0, 1]; every other slot
      keeps its volume. */
  lemma AdjustedVolumesSpec(vols: seq<real>, targets: seq<Session>, delta: real)
    ensures var r := AdjustedVolumes(vols, targets, delta);
      && |r| == |vols|
      && (forall q :: 0 <= q < |vols| && HasSlot(targets, q) ==>
            r[q] == Clamp(vols[q] + delta) && 0.0 <= r[q] <= 1.0)
      && (forall q :: 0 <= q < |vols| && !HasSlot(targets, q) ==> r[q] == vols[q])
  {
  }

  /** `vl` after the change: the level written for the last target, or the old
      `vl` when there was nothing to write. */
  function LastWritten(vols: seq<real>, targets: seq<Session>, delta: real, oldVl: real): real
    requires |targets| > 0 ==> targets[|targets| - 1].slot < |vols|
  {
    if |targets| == 0 then oldVl else Clamp(vols[targets[|targets| - 1].slot] + delta)
  }

  predicate SlotsFit(sessions: seq<Session>, n: nat)
  {
    forall t :: t in sessions ==> t.slot < n
  }

  /** The level a widget shows once `change_volume(0)` has read in-range levels:
      the device level for a master control, the volume of the last session it
      drives otherwise, and the initial 1.0 when it drives none. */
  function Reading(c: Control, sessions: seq<Session>, vols: seq<real>, level: real): real
    requires SlotsFit(sessions, |vols|)
  {
    if c.master then level
    else if |sessions| == 0 then 1.0
    else if c.onlyFirst then vols[sessions[0].slot]
    else vols[sessions[|sessions| - 1].slot]
  }

  /** The volume at slot `q` stays where it is when `delta` is zero and the level
      is already in range, as the audio subsystem guarantees. */
  lemma ZeroDeltaKeepsVolumes(vols: seq<real>, targets: seq<Session>)
    requires forall q :: 0 <= q < |vols| ==> 0.0 <= vols[q] <= 1.0
    ensures AdjustedVolumes(vols, targets, 0.0) == vols
  {
  }

  /** The session at `k` is not among the ones already adjusted. */
  lemma NextSlotFresh(sessions: seq<Session>, k: nat, onlyFirst: bool)
    requires k < |sessions|
    requires DistinctSlots(Targets(sessions, onlyFirst))
    requires onlyFirst ==> k == 0
    ensures !HasSlot(sessions[..k], sessions[k].slot)
  {
    if k > 0 {
      assert Targets(sessions, onlyFirst) == sessions;
      forall t | t in sessions[..k] ensures t.slot != sessions[k].slot {
        var i :| 0 <= i < k && sessions[i] == t;
      }
    } else {
      assert sessions[..k] == [];
    }
  }

  /** Adjusting one more, not yet adjusted, session is one array write. */
  lemma AdjustStep(before: seq<real>, done: seq<Session>, s: Session, next: seq<Session>, delta: real)
    requires s.slot < |before|
    requires !HasSlot(done, s.slot)
    requires next == done + [s]
    ensures AdjustedVolumes(before, done, delta)[s.slot] == before[s.slot]
    ensures AdjustedVolumes(before, done, delta)[s.slot := Clamp(before[s.slot] + delta)]
            == AdjustedVolumes(before, next, delta)
  {
    var lhs := AdjustedVolumes(before, done, delta)[s.slot := Clamp(before[s.slot] + delta)];
    var rhs := AdjustedVolumes(before, next, delta);
    forall q | 0 <= q < |before| ensures lhs[q] == rhs[q] {
      assert s in next;
      if q != s.slot {
        assert HasSlot(next, q) == HasSlot(done, q);
      }
    }
  }

  /** One turn of the session loop: the next session's volume is still the
      original one, and writing its clamped level extends the adjusted prefix. */
  lemma AdjustNext(before: seq<real>, sessions: seq<Session>, k: nat, onlyFirst: bool,
                   delta: real, oldVl: real)
    requires k < |sessions|
    requires SlotsFit(sessions, |before|)
    requires DistinctSlots(Targets(sessions, onlyFirst))
    requires onlyFirst ==> k == 0
    ensures sessions[k].slot < |before|
    ensures AdjustedVolumes(before, sessions[..k], delta)[sessions[k].slot] == before[sessions[k].slot]
    ensures AdjustedVolumes(before, sessions[..k], delta)[sessions[k].slot := Clamp(before[sessions[k].slot] + delta)]
            == AdjustedVolumes(before, sessions[..k + 1], delta)
  {
    assert sessions[k] in sessions;
    NextSlotFresh(sessions, k, onlyFirst);
    assert sessions[..k + 1] == sessions[..k] + [sessions[k]];
    AdjustStep(before, sessions[..k], sessions[k], sessions[..k + 1], delta);
  }

  /** After that turn, `vl` is the level just written, and under `only_first` the
      sessions walked so far are all the targets. */
  lemma LastNext(before: seq<real>, sessions: seq<Session>, k: nat, onlyFirst: bool,
                 delta: real, oldVl: real)
    requires k < |sessions| && sessions[k].slot < |before|
    requires onlyFirst ==> k == 0
    ensures LastWritten(before, sessions[..k + 1], delta, oldVl) == Clamp(before[sessions[k].slot] + delta)
    ensures onlyFirst ==> sessions[..k + 1] == Targets(sessions, onlyFirst)
  {
    assert sessions[..k + 1][k] == sessions[k];
    if onlyFirst {
      assert sessions[..k + 1] == [sessions[0]];
    }
  }

  /** A non-master control without sessions changes neither a volume nor `vl`. */
  lemma NoSessionsNoChange(vols: seq<real>, onlyFirst: bool, delta: real, oldVl: real)
    ensures AdjustedVolumes(vols, Targets([], onlyFirst), delta) == vols
    ensures LastWritten(vols, Targets([], onlyFirst), delta, oldVl) == oldVl
  {
    forall q | 0 <= q < |vols| ensures !HasSlot(Targets([], onlyFirst), q) {
    }
  }

  /** Under `only_first` the first session is the only one written: every other
      slot keeps its volume, and `vl` is the first session's new level. */
  lemma OnlyFirstTouchesFirst(vols: seq<real>, sessions: seq<Session>, delta: real, oldVl: real)
    requires |sessions| > 0 && sessions[0].slot < |vols|
    ensures var r := AdjustedVolumes(vols, Targets(sessions, true), delta);
      && r[sessions[0].slot] == Clamp(vols[sessions[0].slot] + delta)
      && (forall q :: 0 <= q < |vols| && q != sessions[0].slot ==> r[q] == vols[q])
    ensures LastWritten(vols, Targets(sessions, true), delta, oldVl) == Clamp(vols[sessions[0].slot] + delta)
  {
    var t := Targets(sessions, true);
    assert t == [sessions[0]];
    assert HasSlot(t, sessions[0].slot) by { assert sessions[0] in t; }
  }

  /** With distinct slots in the snapshot, the targets have distinct slots too. */
  lemma TargetsDistinct(sessions: seq<Session>, onlyFirst: bool)
    requires DistinctSlots(sessions)
    ensures DistinctSlots(Targets(sessions, onlyFirst))
  {
  }

  /** The sessions as the widget keeps them: none for a master control. */
  function WidgetSessions(control: Control, sessions: seq<Session>): (r: seq<Session>)
    ensures control.master ==> r == []
    ensures !control.master ==> r == sessions
  {
    if control.master then [] else sessions
  }

  /** The control with its missing colours filled from `FG_COLOR`/`BG_COLOR`. */
  function WithColors(control: Control, fg: string, bg: string): (c: Control)
    ensures c.fgColor == (if control.fgColor == "" then fg else control.fgColor)
    ensures c.bgColor == (if control.bgColor == "" then bg else control.bgColor)
    ensures c.(fgColor := control.fgColor, bgColor := control.bgColor) == control
  {
    control.(fgColor := if control.fgColor == "" then fg else control.fgColor,
             bgColor := if control.bgColor == "" then bg else control.bgColor)
  }

  class VolumeControl {
    const control: Control
    const sessions: seq<Session>
    var focused: bool
    var vl: real

    /** A new widget: colours defaulted, not focused, `vl` read from the device
        by `change_volume(0)`. */
    constructor (control: Control, sessions: seq<Session>, fg: string, bg: string,
                 volumes: array<real>, speaker: MasterDevice)
      requires SlotsFit(WidgetSessions(control, sessions), volumes.Length)
      requires DistinctSlots(Targets(WidgetSessions(control, sessions), control.onlyFirst))
      modifies volumes, speaker
      ensures this.control == WithColors(control, fg, bg)
      ensures this.sessions == WidgetSessions(control, sessions)
      ensures !focused
      ensures (forall q :: 0 <= q < volumes.Length ==> 0.0 <= old(volumes[q]) <= 1.0)
              && 0.0 <= old(speaker.level) <= 1.0 ==>
        && volumes[..] == old(volumes[..]) && speaker.level == old(speaker.level)
        && vl == Reading(this.control, this.sessions, old(volumes[..]), old(speaker.level))
      ensures control.master ==>
        && speaker.level == Clamp(old(speaker.level)) && vl == speaker.level
        && volumes[..] == old(volumes[..])
      ensures !control.master ==>
        && speaker.level == old(speaker.level)
        && var targets := Targets(this.sessions, control.onlyFirst);
           volumes[..] == AdjustedVolumes(old(volumes[..]), targets, 0.0)
           && vl == LastWritten(old(volumes[..]), targets, 0.0, 1.0)
    {
      this.control := WithColors(control, fg, bg);
      this.sessions := WidgetSessions(control, sessions);
      focused := false;
      vl := 1.0;
      new;
      ghost var before := volumes[..];
      ChangeVolume(0.0, volumes, speaker);
      if forall q :: 0 <= q < |before| ==> 0.0 <= before[q] <= 1.0 {
        ZeroDeltaKeepsVolumes(before, Targets(this.sessions, control.onlyFirst));
      }
    }

    /** `change_volume(delta)`: a master control moves the device level; any other
        control moves each target session's volume, clamped to [0, 1], and `vl`
        becomes the last level written. */
    method ChangeVolume(delta: real, volumes: array<real>, speaker: MasterDevice)
      requires SlotsFit(sessions, volumes.Length)
      requires DistinctSlots(Targets(sessions, control.onlyFirst))
      modifies this`vl, volumes, speaker
      ensures control.master ==>
        && speaker.level == Clamp(old(speaker.level) + delta) && vl == speaker.level
        && volumes[..] == old(volumes[..])
      ensures !control.master ==>
        && speaker.level == old(speaker.level)
        && volumes[..] == AdjustedVolumes(old(volumes[..]), Targets(sessions, control.onlyFirst), delta)
        && vl == LastWritten(old(volumes[..]), Targets(sessions, control.onlyFirst), delta, old(vl))
    {
      if control.master {
        vl := speaker.level;
        vl := Clamp(vl + delta);
        speaker.level := vl;
      } else {
        SetSessionVolumes(delta, volumes);
      }
    }

    /** The session branch of `change_volume`: walk the sessions, writing each
        one's clamped new volume, stopping after the first under `only_first`. */
    method SetSessionVolumes(delta: real, volumes: array<real>)
      requires SlotsFit(sessions, volumes.Length)
      requires DistinctSlots(Targets(sessions, control.onlyFirst))
      modifies this`vl, volumes
      ensures volumes[..] == AdjustedVolumes(old(volumes[..]), Targets(sessions, control.onlyFirst), delta)
      ensures vl == LastWritten(old(volumes[..]), Targets(sessions, control.onlyFirst), delta, old(vl))
    {
      ghost var before := volumes[..];
      var ss, onlyFirst := sessions, control.onlyFirst;
      var k := 0;
      while k < |ss|
        invariant 0 <= k <= |ss|
        invariant onlyFirst ==> k == 0
        invariant volumes[..] == AdjustedVolumes(before, ss[..k], delta)
        invariant vl == LastWritten(before, ss[..k], delta, old(vl))
      {
        var session := ss[k];
        AdjustNext(before, ss, k, onlyFirst, delta, old(vl));
        LastNext(before, ss, k, onlyFirst, delta, old(vl));
        ghost var cur := volumes[..];
        vl := volumes[session.slot];
        vl := Clamp(vl + delta);
        volumes[session.slot] := vl;
        assert volumes[..] == cur[session.slot := vl];
        assert cur[session.slot] == before[session.slot];
        assert volumes[..] == AdjustedVolumes(before, ss[..k + 1], delta);
        assert vl == LastWritten(before, ss[..k + 1], delta, old(vl));
        if onlyFirst {
          k := k + 1;
          break;
        }
        k := k + 1;
      }
      assert ss[..|ss|] == ss;
    }

    method Focus()
      modifies this`focused
      ensures focused
    {
      focused := true;
    }

    method Unfocus()
      modifies this`focused
      ensures !focused
    {
      focused := false;
    }

    /** `get_title`: the text the widget shows, given the title of the window of
        its single session's process. `pname` is the process name without its
        extension, capitalised. */
    function GetTitle(windowTitle: string): (r: string)
      requires |sessions| == 1 ==> sessions[0].processName.Some?
      ensures |sessions| != 1 || (!control.useAppTitle && !control.useAppName) ==> r == control.name
      ensures |sessions| == 1 && control.useAppTitle && control.useAppName ==>
        var pname := ProcessTitle(sessions[0]);
        && IsSubstring(pname, r)
        && (windowTitle == "" ==> r == pname)
        && (windowTitle != "" && IsSubstring(pname, windowTitle) ==> r == windowTitle)
        && (windowTitle != "" && !IsSubstring(pname, windowTitle) ==> r == pname + ": " + windowTitle)
      ensures |sessions| == 1 && control.useAppTitle && !control.useAppName ==> r == windowTitle
      ensures |sessions| == 1 && !control.useAppTitle && control.useAppName ==>
        r == (if sessions[0].displayName != "" then sessions[0].displayName
              else ProcessTitle(sessions[0]))
    {
      if |sessions| == 1 then
        var pname := ProcessTitle(sessions[0]);
        if control.useAppTitle && control.useAppName then
          if windowTitle == "" then
            SubstringOfItself(pname);
            pname
          else if IsSubstring(pname, windowTitle) then windowTitle
          else
            SubstringPrefix(pname, ": " + windowTitle);
            assert pname + ": " + windowTitle == pname + (": " + windowTitle);
            pname + ": " + windowTitle
        else if control.useAppTitle then windowTitle
        else if control.useAppName then
          if sessions[0].displayName != "" then sessions[0].displayName else pname
        else control.name
      else control.name
    }
  }

  /** `Process.name()[:-4].capitalize()` */
  function ProcessTitle(s: Session): (r: string)
    requires s.processName.Some?
    ensures var n := s.processName.value;
      && (r == "" <==> |n| <= 4)
      && (|n| > 4 ==> r[0] == UpperChar(n[0]) && r[1..] == Lower(n[1..|n| - 4]))
  {
    Capitalize(DropLast4(s.processName.value))
  }

  lemma SubstringOfItself(s: string)
    ensures IsSubstring(s, s)
  {
    assert StartsWith(s[0..], s);
  }

  lemma SubstringPrefix(s: string, t: string)
    ensures IsSubstring(s, s + t)
  {
    assert (s + t)[0..][..|s|] == s;
    assert StartsWith((s + t)[0..], s);
  }
}
