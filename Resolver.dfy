/** The session-resolution pass of `OverlayWidget.__init__`: which audio sessions
    each control binds, in which order the controls become active, and where the
    pass stops. */
module Resolver {
  import opened Text
  import opened Optional
  import opened Controls

  /** One audio session of the snapshot. `processName` is the executable file name
      (`Process.name()`, e.g. "discord.exe"), `None` for a session without a
      process. `slot` identifies the session's volume: its index in the array of
      session volumes the audio subsystem holds. */
  datatype Session = Session(processName: Option<string>, displayName: string, slot: nat)

  /** The inputs the pass reads besides the controls: the session snapshot
      (`all_sessions`), the Steam game names and the regular-expression test. */
  datatype Environment = Environment(sessions: seq<Session>, steamGames: seq<string>, matches: Matcher)

  /** One active control: the rule and the sessions it bound (empty for master). */
  datatype ActiveControl = ActiveControl(control: Control, sessions: seq<Session>)

  /** `session.Process.name()[:-4].lower()`: the extension (any last four
      characters) is dropped and the rest lower-cased. */
  function SessionName(s: Session): (r: string)
    requires s.processName.Some?
    ensures |s.processName.value| >= 4 ==> |r| == |s.processName.value| - 4
    ensures IsLower(r)
  {
    LowerIsLower(DropLast4(s.processName.value));
    Lower(DropLast4(s.processName.value))
  }

  /** A regular-expression token starts with "r`". */
  predicate IsRegexToken(app: string)
  {
    |app| >= 2 && app[..2] == "r`"
  }

  /** Whether one (non-empty) pattern token accepts a session name: the kinds are
      tried in the order of main.py, and a `<steamgame>` or `<all>` token is never
      compared in any other way. */
  predicate PatternAccepts(app: string, name: string, games: seq<string>, m: Matcher)
    requires app != ""
  {
    if app == "<steamgame>" then exists g :: g in games && StartsWith(name, g)
    else if app == "<all>" then true
    else
      || (IsRegexToken(app) && m(app[2..], name))
      || (app[0] == '~' && IsSubstring(app[1..], name))
      || app == name
  }

  /** The token kinds of main.py:375-386, tried in order: `<steamgame>` is a
      prefix test against the game list, `<all>` accepts everything, a regex token
      asks the matcher, a `~` token is a substring test, and any other token must
      equal the name (which a regex or `~` token may also do). */
  lemma PatternAcceptsByKind(app: string, name: string, games: seq<string>, m: Matcher)
    requires app != ""
    ensures app == "<steamgame>" ==>
      (PatternAccepts(app, name, games, m) <==> exists g :: g in games && StartsWith(name, g))
    ensures app == "<all>" ==> PatternAccepts(app, name, games, m)
    ensures IsRegexToken(app) ==>
      (PatternAccepts(app, name, games, m) <==> m(app[2..], name) || app == name)
    ensures app[0] == '~' ==>
      (PatternAccepts(app, name, games, m) <==> IsSubstring(app[1..], name) || app == name)
    ensures app != "<steamgame>" && app != "<all>" && !IsRegexToken(app) && app[0] != '~' ==>
      (PatternAccepts(app, name, games, m) <==> app == name)
  {
    if IsRegexToken(app) {
      assert app[0] == app[..2][0] == 'r';
      assert app != "<steamgame>" && app != "<all>" by { assert "<all>"[0] == '<' && "<steamgame>"[0] == '<'; }
    }
    if app[0] == '~' {
      assert app != "<steamgame>" && app != "<all>" by { assert "<all>"[0] == '<' && "<steamgame>"[0] == '<'; }
    }
  }

  predicate NonEmptyPatterns(c: Control)
  {
    forall k :: 0 <= k < |c.targetApplications| ==> c.targetApplications[k] != ""
  }

  /** A control the loop can bind without reading `app[0]` of an empty token:
      a master control never has its tokens looked at. */
  predicate Bindable(c: Control)
  {
    !c.master ==> NonEmptyPatterns(c)
  }

  /** Every control is bindable. An empty token of a non-master control makes
      main.py:383 raise `IndexError` when that control is reached before the
      cut-off and the snapshot holds a session with a process; the model rules
      such a control out wherever it stands. */
  predicate ValidControls(controls: seq<Control>)
  {
    forall i :: 0 <= i < |controls| ==> Bindable(controls[i])
  }

  /** A session is accepted when SOME pattern of the control accepts it. */
  predicate Accepts(c: Control, name: string, games: seq<string>, m: Matcher)
    requires NonEmptyPatterns(c)
  {
    exists k :: 0 <= k < |c.targetApplications| && PatternAccepts(c.targetApplications[k], name, games, m)
  }

  /** The name of an active control's first session, `None` when it has none. */
  function FirstName(ac: ActiveControl): Option<string>
  {
    if |ac.sessions| > 0 && ac.sessions[0].processName.Some?
    then Some(SessionName(ac.sessions[0])) else None
  }

  /** Exclusivity: the name is taken when it is the name of the FIRST session of
      some earlier active control (later sessions of a control are not looked at). */
  predicate Claimed(active: seq<ActiveControl>, name: string)
  {
    exists a :: 0 <= a < |active| && FirstName(active[a]) == Some(name)
  }

  /** A session the control binds, given the controls already active. */
  predicate Eligible(c: Control, s: Session, env: Environment, active: seq<ActiveControl>)
    requires NonEmptyPatterns(c)
  {
    && s.processName.Some?
    && Accepts(c, SessionName(s), env.steamGames, env.matches)
    && !Claimed(active, SessionName(s))
  }

  /** The eligible sessions of `ss`, in snapshot order. */
  function Matched(c: Control, ss: seq<Session>, env: Environment, active: seq<ActiveControl>): seq<Session>
    requires NonEmptyPatterns(c)
  {
    if |ss| == 0 then []
    else Matched(c, ss[..|ss| - 1], env, active)
         + (if Eligible(c, ss[|ss| - 1], env, active) then [ss[|ss| - 1]] else [])
  }

  /** `only_first` keeps the first matched session only. */
  function OnlyFirst(ms: seq<Session>, onlyFirst: bool): (r: seq<Session>)
    ensures onlyFirst ==> |r| <= 1
    ensures |r| == 0 <==> |ms| == 0
    ensures |r| > 0 ==> r[0] == ms[0]
    ensures forall s :: s in r ==> s in ms
    ensures !onlyFirst ==> r == ms
  {
    if onlyFirst && |ms| > 1 then [ms[0]] else ms
  }

  /** The sessions a control binds: none for a master control. */
  function Bind(c: Control, env: Environment, active: seq<ActiveControl>): seq<Session>
    requires Bindable(c)
  {
    if c.master then [] else OnlyFirst(Matched(c, env.sessions, env, active), c.onlyFirst)
  }

  /** The pass from control `i` on, with `active` built so far; `capacity` is
      `BUTTON_COUNT`, compared for equality right after each addition. */
  function ResolvePass(controls: seq<Control>, env: Environment, capacity: int,
                       i: nat, active: seq<ActiveControl>): seq<ActiveControl>
    requires ValidControls(controls)
    decreases |controls| - i
  {
    if i >= |controls| then active
    else
      var ms := Bind(controls[i], env, active);
      if |ms| > 0 || controls[i].master then
        var next := active + [ActiveControl(controls[i], ms)];
        if |next| == capacity then next else ResolvePass(controls, env, capacity, i + 1, next)
      else ResolvePass(controls, env, capacity, i + 1, active)
  }

  /** The ordered list of active controls. */
  function Resolve(controls: seq<Control>, env: Environment, capacity: int): seq<ActiveControl>
    requires ValidControls(controls)
  {
    ResolvePass(controls, env, capacity, 0, [])
  }

  // ---------------------------------------------------------------------------
  // The loop of main.py:367-400

  /** The resolution loop as main.py runs it: for every control, every session,
      every pattern, then the exclusivity scan over the controls already active. */
  method ResolveControls(controls: seq<Control>, env: Environment, capacity: int)
    returns (active: seq<ActiveControl>)
    requires ValidControls(controls)
    ensures active == Resolve(controls, env, capacity)
  {
    active := [];
    var i := 0;
    while i < |controls|
      invariant 0 <= i <= |controls|
      invariant ResolvePass(controls, env, capacity, i, active) == Resolve(controls, env, capacity)
    {
      var control := controls[i];
      assert Bindable(control);
      var matched := BindControl(control, env, active);
      if |matched| > 0 || control.master {
        active := active + [ActiveControl(control, matched)];
        if |active| == capacity {
          break;
        }
      }
      i := i + 1;
    }
  }

  /** The body of the resolution loop for one control: the sessions it matches,
      cut to one under `only_first`. */
  method BindControl(control: Control, env: Environment, active: seq<ActiveControl>)
    returns (matched: seq<Session>)
    requires Bindable(control)
    ensures matched == Bind(control, env, active)
  {
    matched := [];
    if !control.master {
      var j := 0;
      while j < |env.sessions|
        invariant 0 <= j <= |env.sessions|
        invariant matched == Matched(control, env.sessions[..j], env, active)
      {
        var session := env.sessions[j];
        assert env.sessions[..j + 1][..j] == env.sessions[..j];
        if session.processName.Some? {
          var name := SessionName(session);
          var passed := AcceptsSession(control, name, env.steamGames, env.matches);
          var claimed := IsClaimed(active, name);
          if claimed {
            passed := false;
          }
          if passed {
            matched := matched + [session];
          }
        }
        j := j + 1;
      }
      assert env.sessions[..|env.sessions|] == env.sessions;
      if control.onlyFirst && |matched| > 1 {
        matched := [matched[0]];
      }
    }
  }

  /** The exclusivity loop of main.py:387-390: stops at the first active control
      whose first session has this name. */
  method IsClaimed(active: seq<ActiveControl>, name: string) returns (claimed: bool)
    ensures claimed == Claimed(active, name)
  {
    claimed := false;
    var a := 0;
    while a < |active|
      invariant 0 <= a <= |active|
      invariant forall b :: 0 <= b < a ==> FirstName(active[b]) != Some(name)
    {
      if |active[a].sessions| > 0 && active[a].sessions[0].processName.Some?
         && SessionName(active[a].sessions[0]) == name {
        claimed := true;
        return;
      }
      a := a + 1;
    }
  }

  /** The pattern loop of main.py:374-386 for one session: `passed` is set by any
      token that accepts the name and never reset. */
  method AcceptsSession(c: Control, name: string, games: seq<string>, m: Matcher) returns (passed: bool)
    requires NonEmptyPatterns(c)
    ensures passed == Accepts(c, name, games, m)
  {
    passed := false;
    var k := 0;
    while k < |c.targetApplications|
      invariant 0 <= k <= |c.targetApplications|
      invariant passed == exists q :: 0 <= q < k && PatternAccepts(c.targetApplications[q], name, games, m)
    {
      var app := c.targetApplications[k];
      if app == "<steamgame>" {
        var g := 0;
        ghost var before := passed;
        while g < |games|
          invariant 0 <= g <= |games|
          invariant passed == (before || exists h :: 0 <= h < g && StartsWith(name, games[h]))
        {
          if StartsWith(name, games[g]) {
            passed := true;
          }
          g := g + 1;
        }
        assert (exists h :: 0 <= h < |games| && StartsWith(name, games[h]))
           == (exists x :: x in games && StartsWith(name, x));
      } else if app == "<all>" {
        passed := true;
      } else if IsRegexToken(app) && m(app[2..], name) {
        passed := true;
      } else if app[0] == '~' && IsSubstring(app[1..], name) {
        passed := true;
      } else if app == name {
        passed := true;
      }
      k := k + 1;
    }
  }

  // ---------------------------------------------------------------------------
  // Properties of the pass

  /** A session is matched exactly when it is in the snapshot and eligible. */
  lemma {:induction false} MatchedMembers(c: Control, ss: seq<Session>, env: Environment,
                                          active: seq<ActiveControl>, s: Session)
    requires NonEmptyPatterns(c)
    ensures s in Matched(c, ss, env, active) <==> s in ss && Eligible(c, s, env, active)
  {
    if |ss| > 0 {
      var init := ss[..|ss| - 1];
      MatchedMembers(c, init, env, active, s);
      assert ss == init + [ss[|ss| - 1]];
    }
  }

  /** No two sessions of the list share a volume slot. */
  predicate DistinctSlots(ss: seq<Session>)
  {
    forall i, j :: 0 <= i < j < |ss| ==> ss[i].slot != ss[j].slot
  }

  /** Matching picks a sub-list of the snapshot, so distinct slots stay distinct. */
  lemma {:induction false} MatchedDistinct(c: Control, ss: seq<Session>, env: Environment,
                                           active: seq<ActiveControl>)
    requires NonEmptyPatterns(c)
    requires DistinctSlots(ss)
    ensures DistinctSlots(Matched(c, ss, env, active))
  {
    if |ss| > 0 {
      var init := ss[..|ss| - 1];
      var last := ss[|ss| - 1];
      MatchedDistinct(c, init, env, active);
      var ms := Matched(c, init, env, active);
      forall i | 0 <= i < |ms| ensures ms[i].slot != last.slot {
        MatchedMembers(c, init, env, active, ms[i]);
        var j :| 0 <= j < |init| && init[j] == ms[i];
        assert ss[j] == init[j];
      }
    }
  }

  /** Every entry of `out` holds the sessions its control binds against the
      entries before it, and is there because it is master or bound something. */
  ghost predicate WellBound(env: Environment, out: seq<ActiveControl>)
  {
    forall k :: 0 <= k < |out| ==>
      && Bindable(out[k].control)
      && out[k].sessions == Bind(out[k].control, env, out[..k])
      && (out[k].control.master || |out[k].sessions| > 0)
  }

  lemma {:induction false} ResolvePassBound(controls: seq<Control>, env: Environment, capacity: int,
                                            i: nat, active: seq<ActiveControl>)
    requires ValidControls(controls)
    requires WellBound(env, active)
    ensures WellBound(env, ResolvePass(controls, env, capacity, i, active))
    decreases |controls| - i
  {
    if i < |controls| {
      var ms := Bind(controls[i], env, active);
      if |ms| > 0 || controls[i].master {
        var next := active + [ActiveControl(controls[i], ms)];
        forall k | 0 <= k < |next|
          ensures next[k].sessions == Bind(next[k].control, env, next[..k])
        {
          if k < |active| {
            assert next[..k] == active[..k];
          } else {
            assert next[..k] == active;
          }
        }
        if |next| != capacity {
          ResolvePassBound(controls, env, capacity, i + 1, next);
        }
      } else {
        ResolvePassBound(controls, env, capacity, i + 1, active);
      }
    }
  }

  /** The pass only ever appends to what is already active. */
  lemma {:induction false} ResolvePassExtends(controls: seq<Control>, env: Environment, capacity: int,
                                              i: nat, active: seq<ActiveControl>)
    requires ValidControls(controls)
    ensures active <= ResolvePass(controls, env, capacity, i, active)
    decreases |controls| - i
  {
    if i < |controls| {
      var ms := Bind(controls[i], env, active);
      if |ms| > 0 || controls[i].master {
        var next := active + [ActiveControl(controls[i], ms)];
        if |next| != capacity {
          ResolvePassExtends(controls, env, capacity, i + 1, next);
        }
      } else {
        ResolvePassExtends(controls, env, capacity, i + 1, active);
      }
    }
  }

  /** What every active control of the result satisfies: master controls carry no
      session and everything else at least one; `only_first` leaves at most one;
      each bound session is in the snapshot, has a process, is accepted by the
      control's patterns and does not share its name with the FIRST session of
      any earlier active control; every eligible session is bound unless
      `only_first` cut it; distinct volume slots stay distinct. */
  lemma ResolveEntries(controls: seq<Control>, env: Environment, capacity: int, k: nat)
    requires ValidControls(controls)
    requires k < |Resolve(controls, env, capacity)|
    ensures var out := Resolve(controls, env, capacity);
      && (out[k].control.master ==> out[k].sessions == [])
      && (!out[k].control.master ==> |out[k].sessions| >= 1)
      && (out[k].control.onlyFirst ==> |out[k].sessions| <= 1)
      && Bindable(out[k].control)
      && (forall s :: s in out[k].sessions ==>
            && s in env.sessions && s.processName.Some?
            && Accepts(out[k].control, SessionName(s), env.steamGames, env.matches)
            && (forall j :: 0 <= j < k ==> FirstName(out[j]) != Some(SessionName(s))))
      && (!out[k].control.master && !out[k].control.onlyFirst ==>
            forall s :: s in env.sessions && Eligible(out[k].control, s, env, out[..k]) ==>
              s in out[k].sessions)
      && (DistinctSlots(env.sessions) ==> DistinctSlots(out[k].sessions))
  {
    var out := Resolve(controls, env, capacity);
    ResolvePassBound(controls, env, capacity, 0, []);
    var c := out[k].control;
    assert out[k].sessions == Bind(c, env, out[..k]);
    forall s | s in out[k].sessions
      ensures s in env.sessions && s.processName.Some?
      ensures Accepts(c, SessionName(s), env.steamGames, env.matches)
      ensures forall j :: 0 <= j < k ==> FirstName(out[j]) != Some(SessionName(s))
    {
      MatchedMembers(c, env.sessions, env, out[..k], s);
      forall j | 0 <= j < k ensures FirstName(out[j]) != Some(SessionName(s)) {
        assert out[..k][j] == out[j];
      }
    }
    forall s | !c.master && s in env.sessions && Eligible(c, s, env, out[..k])
      ensures !c.onlyFirst ==> s in out[k].sessions
    {
      MatchedMembers(c, env.sessions, env, out[..k], s);
    }
    if DistinctSlots(env.sessions) && !c.master {
      MatchedDistinct(c, env.sessions, env, out[..k]);
    }
  }

  /** The pass never exceeds its capacity once that is at least one. */
  lemma {:induction false} ResolvePassWithinCapacity(controls: seq<Control>, env: Environment,
                                                     capacity: int, i: nat,
                                                     active: seq<ActiveControl>)
    requires ValidControls(controls)
    requires |active| < capacity
    ensures |ResolvePass(controls, env, capacity, i, active)| <= capacity
    decreases |controls| - i
  {
    if i < |controls| {
      var ms := Bind(controls[i], env, active);
      if |ms| > 0 || controls[i].master {
        var next := active + [ActiveControl(controls[i], ms)];
        if |next| != capacity {
          ResolvePassWithinCapacity(controls, env, capacity, i + 1, next);
        }
      } else {
        ResolvePassWithinCapacity(controls, env, capacity, i + 1, active);
      }
    }
  }

  /** With `BUTTON_COUNT >= 1` there are never more active controls than buttons. */
  lemma ResolveWithinCapacity(controls: seq<Control>, env: Environment, capacity: int)
    requires ValidControls(controls)
    requires capacity >= 1
    ensures |Resolve(controls, env, capacity)| <= capacity
  {
    ResolvePassWithinCapacity(controls, env, capacity, 0, []);
  }

  lemma {:induction false} ResolvePassStops(controls: seq<Control>, rest: seq<Control>,
                                            env: Environment, capacity: int, i: nat,
                                            active: seq<ActiveControl>)
    requires ValidControls(controls) && ValidControls(controls + rest)
    requires |active| < capacity
    requires |ResolvePass(controls, env, capacity, i, active)| == capacity
    ensures ResolvePass(controls + rest, env, capacity, i, active)
         == ResolvePass(controls, env, capacity, i, active)
    decreases |controls| - i
  {
    var all := controls + rest;
    if i < |controls| {
      assert all[i] == controls[i];
      var ms := Bind(controls[i], env, active);
      if |ms| > 0 || controls[i].master {
        var next := active + [ActiveControl(controls[i], ms)];
        if |next| != capacity {
          ResolvePassStops(controls, rest, env, capacity, i + 1, next);
        }
      } else {
        ResolvePassStops(controls, rest, env, capacity, i + 1, active);
      }
    }
  }

  /** Once the pass has filled every button, the controls after that point are
      never evaluated: appending more controls changes nothing. */
  lemma CapacityStopsEvaluation(controls: seq<Control>, rest: seq<Control>,
                                env: Environment, capacity: int)
    requires ValidControls(controls) && ValidControls(controls + rest)
    requires capacity >= 1
    requires |Resolve(controls, env, capacity)| == capacity
    ensures Resolve(controls + rest, env, capacity) == Resolve(controls, env, capacity)
  {
    ResolvePassStops(controls, rest, env, capacity, 0, []);
  }

  /** `idx` gives, for each entry of `out`, the position of its control in
      `controls`, strictly increasing. */
  ghost predicate InDeclarationOrder(out: seq<ActiveControl>, controls: seq<Control>, idx: seq<nat>)
  {
    && |idx| == |out|
    && (forall a, b :: 0 <= a < b < |idx| ==> idx[a] < idx[b])
    && (forall a :: 0 <= a < |idx| ==> idx[a] < |controls| && out[a].control == controls[idx[a]])
  }

  /** Active controls appear in declaration order: the result is a selection of
      the controls, in the order they were given. */
  lemma ResolveInDeclarationOrder(controls: seq<Control>, env: Environment, capacity: int)
    requires ValidControls(controls)
    ensures exists idx :: InDeclarationOrder(Resolve(controls, env, capacity), controls, idx)
  {
    ResolveSkipsOnlyUnmatched(controls, env, capacity);
    var w :| InOrderSelection(Resolve(controls, env, capacity), controls, env, capacity, w);
    assert InDeclarationOrder(Resolve(controls, env, capacity), controls, w);
  }

  /** Every control before `upTo` that lies between entry `a - 1` and entry `a`
      (the controls the loop passed over while `a` entries were active) is not a
      master and binds no session against those `a` entries. */
  ghost predicate GapsUnmatched(out: seq<ActiveControl>, controls: seq<Control>, env: Environment,
                                idx: seq<nat>, upTo: nat)
    requires ValidControls(controls)
  {
    forall a, j {:trigger Bind(controls[j], env, out[..a])} ::
      (&& 0 <= a <= |idx| && a <= |out| && 0 <= j < upTo && j < |controls|
       && (a > 0 ==> idx[a - 1] < j) && (a < |idx| ==> j < idx[a]))
      ==> !controls[j].master && Bind(controls[j], env, out[..a]) == []
  }

  /** How far the loop got: up to the control that filled the last button, or
      through every control. */
  function CutOff(out: seq<ActiveControl>, idx: seq<nat>, capacity: int, n: nat): nat
  {
    if |idx| > 0 && |out| == capacity then idx[|idx| - 1] else n
  }

  /** `out` is an in-order selection of `controls` that passes over only controls
      that neither are masters nor bind a session. */
  ghost predicate InOrderSelection(out: seq<ActiveControl>, controls: seq<Control>, env: Environment,
                            capacity: int, idx: seq<nat>)
    requires ValidControls(controls)
  {
    && InDeclarationOrder(out, controls, idx)
    && GapsUnmatched(out, controls, env, idx, CutOff(out, idx, capacity, |controls|))
  }

  /** Adding control `i` as an entry keeps the gaps seen so far. */
  lemma GapsAfterAdding(active: seq<ActiveControl>, controls: seq<Control>, env: Environment,
                        idx: seq<nat>, i: nat, e: ActiveControl)
    requires ValidControls(controls)
    requires |idx| == |active| && i < |controls|
    requires forall a :: 0 <= a < |idx| ==> idx[a] < i
    requires GapsUnmatched(active, controls, env, idx, i)
    ensures GapsUnmatched(active + [e], controls, env, idx + [i], i + 1)
  {
    var next, idx2 := active + [e], idx + [i];
    forall a, j | 0 <= a <= |idx2| && a <= |next| && 0 <= j < i + 1 && j < |controls|
        && (a > 0 ==> idx2[a - 1] < j) && (a < |idx2| ==> j < idx2[a])
      ensures !controls[j].master && Bind(controls[j], env, next[..a]) == []
    {
      assert a <= |idx|;
      assert a > 0 ==> idx2[a - 1] == idx[a - 1];
      assert a < |idx| ==> idx2[a] == idx[a];
      assert next[..a] == active[..a];
      GapAt(active, controls, env, idx, i, a, j);
    }
  }

  /** Passing over control `i`, which is no master and binds nothing, extends the gap. */
  lemma GapsAfterSkipping(active: seq<ActiveControl>, controls: seq<Control>, env: Environment,
                          idx: seq<nat>, i: nat)
    requires ValidControls(controls)
    requires |idx| == |active| && i < |controls|
    requires forall a :: 0 <= a < |idx| ==> idx[a] < i
    requires GapsUnmatched(active, controls, env, idx, i)
    requires !controls[i].master && Bind(controls[i], env, active) == []
    ensures GapsUnmatched(active, controls, env, idx, i + 1)
  {
    forall a, j | 0 <= a <= |idx| && a <= |active| && 0 <= j < i + 1 && j < |controls|
        && (a > 0 ==> idx[a - 1] < j) && (a < |idx| ==> j < idx[a])
      ensures !controls[j].master && Bind(controls[j], env, active[..a]) == []
    {
      if j == i {
        assert a == |idx|;
        assert active[..a] == active;
      } else {
        GapAt(active, controls, env, idx, i, a, j);
      }
    }
  }

  /** Gaps checked up to `upTo` are checked up to any smaller bound. */
  lemma GapsNarrow(out: seq<ActiveControl>, controls: seq<Control>, env: Environment,
                   idx: seq<nat>, upTo: nat, bound: nat)
    requires ValidControls(controls)
    requires GapsUnmatched(out, controls, env, idx, upTo)
    requires bound <= upTo
    ensures GapsUnmatched(out, controls, env, idx, bound)
  {
    forall a, j | (&& 0 <= a <= |idx| && a <= |out| && 0 <= j < bound && j < |controls|
                   && (a > 0 ==> idx[a - 1] < j) && (a < |idx| ==> j < idx[a]))
      ensures !controls[j].master && Bind(controls[j], env, out[..a]) == []
    {
      GapAt(out, controls, env, idx, upTo, a, j);
    }
  }

  /** One instance of `GapsUnmatched`. */
  lemma GapAt(out: seq<ActiveControl>, controls: seq<Control>, env: Environment,
              idx: seq<nat>, upTo: nat, a: nat, j: nat)
    requires ValidControls(controls)
    requires GapsUnmatched(out, controls, env, idx, upTo)
    requires a <= |idx| && a <= |out| && j < upTo && j < |controls|
    requires (a > 0 ==> idx[a - 1] < j) && (a < |idx| ==> j < idx[a])
    ensures !controls[j].master && Bind(controls[j], env, out[..a]) == []
  {
  }

  lemma {:induction false} ResolvePassSelects(controls: seq<Control>, env: Environment, capacity: int,
                                              i: nat, active: seq<ActiveControl>, idx: seq<nat>)
    requires ValidControls(controls)
    requires i <= |controls|
    requires InDeclarationOrder(active, controls, idx)
    requires forall a :: 0 <= a < |idx| ==> idx[a] < i
    requires GapsUnmatched(active, controls, env, idx, i)
    ensures exists idx' :: InOrderSelection(ResolvePass(controls, env, capacity, i, active), controls, env, capacity, idx')
    decreases |controls| - i
  {
    if i == |controls| {
      GapsNarrow(active, controls, env, idx, i, CutOff(active, idx, capacity, |controls|));
      assert InOrderSelection(ResolvePass(controls, env, capacity, i, active), controls, env, capacity, idx);
    } else {
      var ms := Bind(controls[i], env, active);
      if |ms| > 0 || controls[i].master {
        var next := active + [ActiveControl(controls[i], ms)];
        var idx2 := idx + [i];
        assert InDeclarationOrder(next, controls, idx2);
        GapsAfterAdding(active, controls, env, idx, i, ActiveControl(controls[i], ms));
        if |next| == capacity {
          GapsNarrow(next, controls, env, idx2, i + 1, i);
          assert InOrderSelection(ResolvePass(controls, env, capacity, i, active), controls, env, capacity, idx2);
        } else {
          ResolvePassSelects(controls, env, capacity, i + 1, next, idx2);
          var w :| InOrderSelection(ResolvePass(controls, env, capacity, i + 1, next), controls, env, capacity, w);
          assert InOrderSelection(ResolvePass(controls, env, capacity, i, active), controls, env, capacity, w);
        }
      } else {
        GapsAfterSkipping(active, controls, env, idx, i);
        ResolvePassSelects(controls, env, capacity, i + 1, active, idx);
        var w :| InOrderSelection(ResolvePass(controls, env, capacity, i + 1, active), controls, env, capacity, w);
        assert InOrderSelection(ResolvePass(controls, env, capacity, i, active), controls, env, capacity, w);
      }
    }
  }

  /** The converse of `ResolveEntries`: the loop passes over a control, before the
      cut-off, only when it is not a master and binds no session against the
      controls active at that moment. */
  lemma ResolveSkipsOnlyUnmatched(controls: seq<Control>, env: Environment, capacity: int)
    requires ValidControls(controls)
    ensures exists idx :: InOrderSelection(Resolve(controls, env, capacity), controls, env, capacity, idx)
  {
    assert InDeclarationOrder([], controls, []);
    ResolvePassSelects(controls, env, capacity, 0, [], []);
    var w :| InOrderSelection(ResolvePass(controls, env, capacity, 0, []), controls, env, capacity, w);
    assert InOrderSelection(Resolve(controls, env, capacity), controls, env, capacity, w);
  }

  /** A control reached after entry `a - 1` (or first) and before the cut-off that
      is a master or binds a session against the first `a` entries is entry `a`,
      holding exactly those sessions. */
  lemma MatchedControlBecomesActive(controls: seq<Control>, env: Environment, capacity: int,
                                    idx: seq<nat>, a: nat, j: nat)
    requires ValidControls(controls)
    requires InOrderSelection(Resolve(controls, env, capacity), controls, env, capacity, idx)
    requires a <= |idx| && j < |controls|
    requires j < CutOff(Resolve(controls, env, capacity), idx, capacity, |controls|)
    requires a > 0 ==> idx[a - 1] < j
    requires a < |idx| ==> j <= idx[a]
    requires controls[j].master
          || Bind(controls[j], env, Resolve(controls, env, capacity)[..a]) != []
    ensures a < |idx| && j == idx[a]
    ensures Resolve(controls, env, capacity)[a]
         == ActiveControl(controls[j], Bind(controls[j], env, Resolve(controls, env, capacity)[..a]))
  {
    var out := Resolve(controls, env, capacity);
    ResolvePassBound(controls, env, capacity, 0, []);
    if a == |idx| || j < idx[a] {
      GapAt(out, controls, env, idx, CutOff(out, idx, capacity, |controls|), a, j);
      assert false;
    }
    assert out[a].control == controls[j];
  }

  lemma {:induction false} ResolvePassKeepsMasters(controls: seq<Control>, env: Environment,
                                                   capacity: int, i: nat,
                                                   active: seq<ActiveControl>, t: nat)
    requires ValidControls(controls)
    requires capacity <= 0
    requires i <= t < |controls| && controls[t].master
    ensures ActiveControl(controls[t], []) in ResolvePass(controls, env, capacity, i, active)
    decreases |controls| - i
  {
    var ms := Bind(controls[i], env, active);
    if |ms| > 0 || controls[i].master {
      var next := active + [ActiveControl(controls[i], ms)];
      if t == i {
        assert next[|active|] == ActiveControl(controls[t], []);
        ResolvePassExtends(controls, env, capacity, i + 1, next);
      } else {
        ResolvePassKeepsMasters(controls, env, capacity, i + 1, next, t);
      }
    } else {
      ResolvePassKeepsMasters(controls, env, capacity, i + 1, active, t);
    }
  }

  /** Without a positive capacity, every master control becomes active. */
  lemma MastersAlwaysActive(controls: seq<Control>, env: Environment, capacity: int, t: nat)
    requires ValidControls(controls)
    requires capacity <= 0
    requires t < |controls| && controls[t].master
    ensures ActiveControl(controls[t], []) in Resolve(controls, env, capacity)
  {
    ResolvePassKeepsMasters(controls, env, capacity, 0, [], t);
  }

  // ---------------------------------------------------------------------------
  // Worked scenarios

  /** A control with the dataclass defaults for every flag. */
  function PlainControl(name: string, apps: seq<string>): Control
  {
    NewControl(name, apps, false, true, false, false, false, "", "", "")
  }

  lemma PlainPatterns(name: string, app: string)
    requires Lower(app) == app
    ensures PlainControl(name, [app]).targetApplications == [app]
  {
    assert PlainControl(name, [app]).targetApplications[0] == Lower(app);
  }

  lemma NameOfDiscord(slot: nat)
    ensures SessionName(Session(Some("discord.exe"), "", slot)) == "discord"
  {
    assert DropLast4("discord.exe") == "discord";
    assert Lower("discord") == "discord";
  }

  lemma NameOfNotepad(slot: nat)
    ensures SessionName(Session(Some("notepad.exe"), "", slot)) == "notepad"
  {
    assert DropLast4("notepad.exe") == "notepad";
    assert Lower("notepad") == "notepad";
  }

  /** A control whose single token is equal to one name and not to another. */
  lemma ExactTokenBinds(c: Control, env: Environment, active: seq<ActiveControl>,
                        x: Session, y: Session)
    requires x.processName.Some? && y.processName.Some?
    requires c.targetApplications == [SessionName(x)] && !c.master && !c.onlyFirst
    requires SessionName(x) != "" && SessionName(x) != "<steamgame>" && SessionName(x) != "<all>"
    requires !IsRegexToken(SessionName(x)) && SessionName(x)[0] != '~'
    requires SessionName(x) != SessionName(y)
    requires !Claimed(active, SessionName(x))
    requires env.sessions == [y, x] || env.sessions == [x, y]
    ensures Bind(c, env, active) == [x]
  {
    var app := SessionName(x);
    assert PatternAccepts(c.targetApplications[0], app, env.steamGames, env.matches);
    assert !PatternAccepts(app, SessionName(y), env.steamGames, env.matches);
    assert !Eligible(c, y, env, active);
    assert Eligible(c, x, env, active);
    assert env.sessions[..1] == [env.sessions[0]];
    assert Matched(c, [env.sessions[0]], env, active) == if env.sessions[0] == x then [x] else [];
  }

  /** A `<all>` control binds, in order, every session whose name is not claimed. */
  lemma CatchAllBinds(c: Control, env: Environment, active: seq<ActiveControl>, x: Session, y: Session)
    requires c.targetApplications == ["<all>"] && !c.master && !c.onlyFirst
    requires x.processName.Some? && y.processName.Some?
    requires env.sessions == [x, y]
    ensures Bind(c, env, active) ==
      (if Claimed(active, SessionName(x)) then [] else [x])
      + (if Claimed(active, SessionName(y)) then [] else [y])
  {
    assert PatternAccepts(c.targetApplications[0], SessionName(x), env.steamGames, env.matches);
    assert PatternAccepts(c.targetApplications[0], SessionName(y), env.steamGames, env.matches);
    assert Accepts(c, SessionName(x), env.steamGames, env.matches);
    assert Accepts(c, SessionName(y), env.steamGames, env.matches);
    assert env.sessions[..1] == [x];
    assert [x][..0] == [];
    assert Matched(c, [x], env, active) == (if Claimed(active, SessionName(x)) then [] else [x]);
  }

  /** A token starting with a letter other than `r` is neither special, a regex
      nor a substring token, and differs from a token with another first letter. */
  lemma PlainToken(tok: string, other: string)
    requires |tok| > 0 && |other| > 0 && tok[0] != other[0]
    requires 'a' <= tok[0] <= 'z' && tok[0] != 'r'
    ensures tok != "<steamgame>" && tok != "<all>" && tok != other
    ensures !IsRegexToken(tok) && tok[0] != '~'
  {
    if |tok| >= 2 {
      assert tok[..2][0] == tok[0];
    }
  }

  /** A specific control claims "discord" first, so the later catch-all binds
      only "notepad". */
  lemma DiscordBeforeCatchAll(games: seq<string>, m: Matcher)
    ensures
      var discord := PlainControl("Discord", ["discord"]);
      var game := PlainControl("Game", ["<all>"]);
      var d := Session(Some("discord.exe"), "", 0);
      var n := Session(Some("notepad.exe"), "", 1);
      Resolve([discord, game], Environment([d, n], games, m), 8)
        == [ActiveControl(discord, [d]), ActiveControl(game, [n])]
  {
    var discord := PlainControl("Discord", ["discord"]);
    var game := PlainControl("Game", ["<all>"]);
    var d := Session(Some("discord.exe"), "", 0);
    var n := Session(Some("notepad.exe"), "", 1);
    var env := Environment([d, n], games, m);
    NameOfDiscord(0);
    NameOfNotepad(1);
    PlainToken("discord", "notepad");
    assert Lower("discord") == "discord";
    assert Lower("<all>") == "<all>";
    PlainPatterns("Discord", "discord");
    PlainPatterns("Game", "<all>");
    ExactTokenBinds(discord, env, [], d, n);
    var first := [ActiveControl(discord, [d])];
    assert FirstName(first[0]) == Some("discord");
    assert Claimed(first, "discord");
    assert !Claimed(first, "notepad");
    CatchAllBinds(game, env, first, d, n);
    assert Bind(game, env, first) == [n];
    var second := first + [ActiveControl(game, [n])];
    assert ResolvePass([discord, game], env, 8, 2, second) == second;
    assert ResolvePass([discord, game], env, 8, 1, first) == second;
    assert Bind([discord, game][0], env, []) == [d];
    assert [] + [ActiveControl([discord, game][0], [d])] == first;
    assert ResolvePass([discord, game], env, 8, 0, []) == second;
  }

  /** Only the first session of an earlier control is checked: a catch-all that
      bound two sessions leaves its second one free for a later control, so one
      session ends up under two controls. */
  lemma SecondSessionNotExclusive(games: seq<string>, m: Matcher)
    ensures
      var all := PlainControl("All", ["<all>"]);
      var notepad := PlainControl("Notepad", ["notepad"]);
      var d := Session(Some("discord.exe"), "", 0);
      var n := Session(Some("notepad.exe"), "", 1);
      Resolve([all, notepad], Environment([d, n], games, m), 8)
        == [ActiveControl(all, [d, n]), ActiveControl(notepad, [n])]
  {
    var all := PlainControl("All", ["<all>"]);
    var notepad := PlainControl("Notepad", ["notepad"]);
    var d := Session(Some("discord.exe"), "", 0);
    var n := Session(Some("notepad.exe"), "", 1);
    var env := Environment([d, n], games, m);
    NameOfDiscord(0);
    NameOfNotepad(1);
    PlainToken("notepad", "discord");
    assert Lower("notepad") == "notepad";
    assert Lower("<all>") == "<all>";
    PlainPatterns("All", "<all>");
    PlainPatterns("Notepad", "notepad");
    CatchAllBinds(all, env, [], d, n);
    assert Bind(all, env, []) == [d, n];
    var first := [ActiveControl(all, [d, n])];
    assert FirstName(first[0]) == Some("discord");
    assert !Claimed(first, "notepad");
    ExactTokenBinds(notepad, env, first, n, d);
    var second := first + [ActiveControl(notepad, [n])];
    assert ResolvePass([all, notepad], env, 8, 2, second) == second;
    assert ResolvePass([all, notepad], env, 8, 1, first) == second;
    assert Bind([all, notepad][0], env, []) == [d, n];
    assert [] + [ActiveControl([all, notepad][0], [d, n])] == first;
    assert ResolvePass([all, notepad], env, 8, 0, []) == second;
  }

  /** With one button, the second matching control is never reached. */
  lemma CapacityOneKeepsFirst(games: seq<string>, m: Matcher)
    ensures
      var a := PlainControl("A", ["<all>"]);
      var b := PlainControl("B", ["<all>"]);
      var d := Session(Some("discord.exe"), "", 0);
      Resolve([a, b], Environment([d], games, m), 1) == [ActiveControl(a, [d])]
  {
    var a := PlainControl("A", ["<all>"]);
    var d := Session(Some("discord.exe"), "", 0);
    var env := Environment([d], games, m);
    assert Lower("<all>") == "<all>";
    PlainPatterns("A", "<all>");
    assert PatternAccepts(a.targetApplications[0], SessionName(d), games, m);
    assert Matched(a, [d], env, []) == [d];
  }

  /** A string does not start with a prefix whose first character it lacks. */
  lemma FirstCharDiffers(s: string, prefix: string)
    requires |prefix| > 0 && (|s| == 0 || s[0] != prefix[0])
    ensures !StartsWith(s, prefix)
  {
    if |prefix| <= |s| {
      assert s[..|prefix|][0] == s[0];
    }
  }

  /** A "~" token is a substring test on the session name. */
  lemma SubstringToken(games: seq<string>, m: Matcher)
    ensures PatternAccepts("~chrome", "googlechromehelper", games, m)
    ensures !PatternAccepts("~chrome", "msedge", games, m)
  {
    assert "~chrome"[1..] == "chrome";
    assert StartsWith("googlechromehelper"[6..], "chrome");
    assert !IsRegexToken("~chrome") by { assert "~chrome"[..2][0] == '~'; }
    var edge := "msedge";
    forall i | 0 <= i <= |edge| ensures !StartsWith(edge[i..], "chrome") {
      if i == 0 {
        FirstCharDiffers(edge[i..], "chrome");
      } else {
        assert |edge[i..]| < |"chrome"|;
      }
    }
  }
}
