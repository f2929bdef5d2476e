/** Control rules (main.py's `Control` dataclass) and how the configuration file
    turns into the ordered list of controls the overlay resolves. */
module Controls {
  import opened Text
  import opened Optional

  /** One configured control. `targetApplications` holds the pattern tokens,
      already lower-cased. `exclude` is stored but nothing reads it. */
  datatype Control = Control(
    name: string,
    targetApplications: seq<string>,
    useAppTitle: bool,
    useAppName: bool,
    onlyFirst: bool,
    exclude: bool,
    master: bool,
    fgColor: string,
    bgColor: string,
    bgColor2: string)

  /** The dataclass constructor with `__post_init__`: every pattern is lower-cased,
      every other field is kept as given. */
  function NewControl(name: string, apps: seq<string>, useAppTitle: bool, useAppName: bool,
                      onlyFirst: bool, exclude: bool, master: bool,
                      fgColor: string, bgColor: string, bgColor2: string): (c: Control)
    ensures |c.targetApplications| == |apps|
    ensures forall i :: 0 <= i < |apps| ==> c.targetApplications[i] == Lower(apps[i])
    ensures forall i :: 0 <= i < |apps| ==> IsLower(c.targetApplications[i])
    ensures c.name == name && c.master == master && c.onlyFirst == onlyFirst
    ensures c.useAppTitle == useAppTitle && c.useAppName == useAppName && c.exclude == exclude
    ensures c.fgColor == fgColor && c.bgColor == bgColor && c.bgColor2 == bgColor2
  {
    var lowered := seq(|apps|, i requires 0 <= i < |apps| => Lower(apps[i]));
    assert forall i :: 0 <= i < |apps| ==> IsLower(lowered[i]) by {
      forall i | 0 <= i < |apps| ensures IsLower(lowered[i]) { LowerIsLower(apps[i]); }
    }
    Control(name, lowered, useAppTitle, useAppName, onlyFirst, exclude, master,
            fgColor, bgColor, bgColor2)
  }

  const DefaultFgColor: string := "#111"
  const DefaultBgColor: string := "#eee"
  const DefaultButtonCount: int := 8

  /** The built-in `CONTROLS`: a Steam-game control and a Discord control. */
  function DefaultControls(): (r: seq<Control>)
    ensures |r| == 2
    ensures r[0].name == "Game" && r[0].targetApplications == ["<steamgame>"]
    ensures r[0].useAppName && !r[0].useAppTitle && !r[0].onlyFirst && !r[0].master
    ensures r[1].name == "Discord" && r[1].targetApplications == ["discord"]
    ensures !r[1].useAppName && !r[1].useAppTitle && !r[1].onlyFirst && !r[1].master
  {
    assert Lower("<steamgame>") == "<steamgame>";
    assert Lower("discord") == "discord";
    [NewControl("Game", ["<steamgame>"], false, true, false, false, false, "", "", ""),
     NewControl("Discord", ["discord"], false, false, false, false, false, "", "", "")]
  }

  /** The built-in `AUTO_FILL_CONTROL`: catches every application, one session only. */
  function DefaultAutoFillControl(): (c: Control)
    ensures c.name == "App" && c.targetApplications == ["<all>"]
    ensures c.useAppName && c.onlyFirst && !c.useAppTitle && !c.exclude && !c.master
  {
    assert Lower("<all>") == "<all>";
    NewControl("App", ["<all>"], false, true, true, false, false, "", "", "")
  }

  /** A JSON value as it can appear in one control object of the configuration. */
  datatype ConfigValue = Null | Flag(b: bool) | Text(s: string) | Texts(items: seq<string>)

  /** One control object of the configuration file. */
  type ControlConfig = map<string, ConfigValue>

  predicate TextKind(cd: ControlConfig, key: string)
  {
    key in cd ==> cd[key].Null? || cd[key].Text?
  }

  predicate FlagKind(cd: ControlConfig, key: string)
  {
    key in cd ==> cd[key].Null? || cd[key].Flag?
  }

  /** Every key the loader reads holds a value of the kind it expects (or null). */
  predicate WellTyped(cd: ControlConfig)
  {
    && TextKind(cd, "name") && TextKind(cd, "fg_color") && TextKind(cd, "bg_color")
    && TextKind(cd, "bg_color2")
    && FlagKind(cd, "use_app_title") && FlagKind(cd, "use_app_name")
    && FlagKind(cd, "only_first") && FlagKind(cd, "exclude") && FlagKind(cd, "master")
    && ("target_applications" in cd ==>
          cd["target_applications"].Null? || cd["target_applications"].Texts?)
  }

  /** `cd.get(key) or default` for a string field: a missing, null or empty value
      gives the default. */
  function TextOr(cd: ControlConfig, key: string, default: string): (r: string)
    requires TextKind(cd, key)
    ensures key in cd && cd[key].Text? && cd[key].s != "" ==> r == cd[key].s
    ensures !(key in cd && cd[key].Text? && cd[key].s != "") ==> r == default
  {
    if key in cd && cd[key].Text? && cd[key].s != "" then cd[key].s else default
  }

  /** `cd.get(key) or False`: true exactly when the stored value is `true`. */
  function FlagOrFalse(cd: ControlConfig, key: string): (b: bool)
    requires FlagKind(cd, key)
    ensures b <==> key in cd && cd[key] == Flag(true)
  {
    key in cd && cd[key].Flag? && cd[key].b
  }

  /** `cd.get('target_applications') or []` */
  function PatternsOf(cd: ControlConfig): (r: seq<string>)
    requires WellTyped(cd)
    ensures "target_applications" in cd && cd["target_applications"].Texts? ==>
              r == cd["target_applications"].items
    ensures !("target_applications" in cd && cd["target_applications"].Texts?) ==> r == []
  {
    if "target_applications" in cd && cd["target_applications"].Texts?
    then cd["target_applications"].items else []
  }

  /** The `Control(...)` call of main.py for one configuration object. `position` is
      the value of `len(CONTROLS) + 1` at that moment; `fg` and `bg` are the
      configured `FG_COLOR` and `BG_COLOR`. Every flag falls back to False, even
      `use_app_name`, whose dataclass default is True. */
  function ControlFromConfig(cd: ControlConfig, position: nat, fg: string, bg: string): (c: Control)
    requires WellTyped(cd)
    ensures c.name == TextOr(cd, "name", "Control " + Decimal(position))
    ensures |c.targetApplications| == |PatternsOf(cd)|
    ensures forall i :: 0 <= i < |PatternsOf(cd)| ==>
              c.targetApplications[i] == Lower(PatternsOf(cd)[i])
    ensures c.useAppTitle == FlagOrFalse(cd, "use_app_title")
    ensures c.useAppName == FlagOrFalse(cd, "use_app_name")
    ensures c.onlyFirst == FlagOrFalse(cd, "only_first")
    ensures c.exclude == FlagOrFalse(cd, "exclude")
    ensures c.master == FlagOrFalse(cd, "master")
    ensures c.fgColor == TextOr(cd, "fg_color", fg)
    ensures c.bgColor == TextOr(cd, "bg_color", bg)
    ensures c.bgColor2 == TextOr(cd, "bg_color2", "")
  {
    NewControl(
      TextOr(cd, "name", "Control " + Decimal(position)),
      PatternsOf(cd),
      FlagOrFalse(cd, "use_app_title"),
      FlagOrFalse(cd, "use_app_name"),
      FlagOrFalse(cd, "only_first"),
      FlagOrFalse(cd, "exclude"),
      FlagOrFalse(cd, "master"),
      TextOr(cd, "fg_color", fg),
      TextOr(cd, "bg_color", bg),
      TextOr(cd, "bg_color2", ""))
  }

  /** An empty configuration object yields a control whose flags are all off:
      `use_app_name` differs from the dataclass default (True). */
  lemma EmptyObjectFlagsOff(position: nat, fg: string, bg: string)
    ensures var c := ControlFromConfig(map[], position, fg, bg);
            !c.useAppName && !c.useAppTitle && !c.onlyFirst && !c.master
            && c.targetApplications == [] && c.fgColor == fg && c.bgColor == bg
    ensures DefaultControls()[0].useAppName
  {
  }

  /** The top-level settings of an existing configuration file that decide the
      control list. Each is `None` when its key is absent. */
  datatype Config = Config(
    controlCount: Option<int>,
    buttonCount: Option<int>,
    fgColor: Option<string>,
    bgColor: Option<string>,
    autoFill: Option<bool>,
    autoFillControl: Option<ControlConfig>,
    controls: Option<seq<ControlConfig>>)

  predicate ConfigWellTyped(cfg: Config)
  {
    && (cfg.autoFillControl.Some? ==> WellTyped(cfg.autoFillControl.value))
    && (cfg.controls.Some? ==>
          forall i :: 0 <= i < |cfg.controls.value| ==> WellTyped(cfg.controls.value[i]))
  }

  /** `BUTTON_COUNT`: `button_count` wins over the older `control_count`. */
  function ButtonCount(cfg: Config): (n: int)
    ensures cfg.buttonCount.Some? ==> n == cfg.buttonCount.value
    ensures cfg.buttonCount.None? && cfg.controlCount.Some? ==> n == cfg.controlCount.value
    ensures cfg.buttonCount.None? && cfg.controlCount.None? ==> n == DefaultButtonCount
  {
    GetOr(cfg.buttonCount, GetOr(cfg.controlCount, DefaultButtonCount))
  }

  /** `AUTO_FILL_CONTROL` after loading. Its fallback name is computed while
      `CONTROLS` still holds the two built-in controls, so it is "Control 3". */
  function AutoFillOf(cfg: Config): (c: Control)
    requires ConfigWellTyped(cfg)
    ensures cfg.autoFillControl.None? ==> c == DefaultAutoFillControl()
    ensures cfg.autoFillControl.Some? ==>
      var cd := cfg.autoFillControl.value;
      && c.name == TextOr(cd, "name", "Control 3")
      && c.fgColor == TextOr(cd, "fg_color", GetOr(cfg.fgColor, DefaultFgColor))
      && c.bgColor == TextOr(cd, "bg_color", GetOr(cfg.bgColor, DefaultBgColor))
  {
    match cfg.autoFillControl
    case Some(cd) =>
      ControlFromConfig(cd, |DefaultControls()| + 1,
                        GetOr(cfg.fgColor, DefaultFgColor), GetOr(cfg.bgColor, DefaultBgColor))
    case None => DefaultAutoFillControl()
  }

  /** `CONTROLS` before auto-fill: the configured controls, the k-th (from 1)
      falling back to the name "Control k", or the built-ins when `controls` is absent. */
  function ConfiguredControls(cfg: Config): (r: seq<Control>)
    requires ConfigWellTyped(cfg)
    ensures cfg.controls.None? ==> r == DefaultControls()
    ensures cfg.controls.Some? ==>
      var cds := cfg.controls.value;
      && |r| == |cds|
      && forall i :: 0 <= i < |cds| ==>
           && r[i].name == TextOr(cds[i], "name", "Control " + Decimal(i + 1))
           && r[i].fgColor == TextOr(cds[i], "fg_color", GetOr(cfg.fgColor, DefaultFgColor))
           && r[i].bgColor == TextOr(cds[i], "bg_color", GetOr(cfg.bgColor, DefaultBgColor))
  {
    match cfg.controls
    case Some(cds) =>
      seq(|cds|, i requires 0 <= i < |cds| =>
        ControlFromConfig(cds[i], i + 1,
                          GetOr(cfg.fgColor, DefaultFgColor), GetOr(cfg.bgColor, DefaultBgColor)))
    case None => DefaultControls()
  }

  /** The loading of main.py:120-154: rebuilds `CONTROLS` from the configuration
      (when the file exists) and then appends `AUTO_FILL_CONTROL` `BUTTON_COUNT`
      times, whatever `auto_fill` says. Without a configuration file nothing is
      appended. */
  method LoadControls(config: Option<Config>) returns (controls: seq<Control>, buttonCount: int)
    requires config.Some? ==> ConfigWellTyped(config.value)
    ensures config.None? ==> controls == DefaultControls() && buttonCount == DefaultButtonCount
    ensures config.Some? ==>
      var base := ConfiguredControls(config.value);
      && buttonCount == ButtonCount(config.value)
      && |controls| == |base| + (if buttonCount > 0 then buttonCount else 0)
      && controls[..|base|] == base
      && forall k :: |base| <= k < |controls| ==> controls[k] == AutoFillOf(config.value)
  {
    controls := DefaultControls();
    buttonCount := DefaultButtonCount;
    if config.None? {
      return;
    }
    var cfg := config.value;
    buttonCount := ButtonCount(cfg);
    var fg := GetOr(cfg.fgColor, DefaultFgColor);
    var bg := GetOr(cfg.bgColor, DefaultBgColor);
    var autoFill := DefaultAutoFillControl();
    if cfg.autoFillControl.Some? {
      autoFill := ControlFromConfig(cfg.autoFillControl.value, |controls| + 1, fg, bg);
    }
    if cfg.controls.Some? {
      controls := ReadConfiguredControls(cfg);
    }
    assert controls == ConfiguredControls(cfg);
    controls := AppendAutoFill(controls, autoFill, buttonCount);
  }

  /** The loop of main.py:137-151: one control per configuration object, the k-th
      (from 1) named "Control k" when it has no name. */
  method ReadConfiguredControls(cfg: Config) returns (controls: seq<Control>)
    requires ConfigWellTyped(cfg) && cfg.controls.Some?
    ensures controls == ConfiguredControls(cfg)
  {
    var cds := cfg.controls.value;
    var fg := GetOr(cfg.fgColor, DefaultFgColor);
    var bg := GetOr(cfg.bgColor, DefaultBgColor);
    controls := [];
    var i := 0;
    while i < |cds|
      invariant 0 <= i <= |cds|
      invariant |controls| == i
      invariant forall j :: 0 <= j < i ==> controls[j] == ControlFromConfig(cds[j], j + 1, fg, bg)
    {
      controls := controls + [ControlFromConfig(cds[i], |controls| + 1, fg, bg)];
      i := i + 1;
    }
  }

  /** The loop of main.py:153-154: `count` copies of the auto-fill control after
      the given controls, none when `count` is not positive. */
  method AppendAutoFill(base: seq<Control>, autoFill: Control, count: int) returns (controls: seq<Control>)
    ensures |controls| == |base| + (if count > 0 then count else 0)
    ensures controls[..|base|] == base
    ensures forall k :: |base| <= k < |controls| ==> controls[k] == autoFill
  {
    controls := base;
    var n := 0;
    while n < count
      invariant 0 <= n <= (if count > 0 then count else 0)
      invariant |controls| == |base| + n
      invariant controls[..|base|] == base
      invariant forall k :: |base| <= k < |controls| ==> controls[k] == autoFill
    {
      controls := controls + [autoFill];
      n := n + 1;
    }
  }

  /** The `auto_fill` setting has no effect on the loaded control list. */
  lemma AutoFillSettingIgnored(cfg: Config, flag: Option<bool>)
    requires ConfigWellTyped(cfg)
    ensures ConfiguredControls(cfg.(autoFill := flag)) == ConfiguredControls(cfg)
    ensures AutoFillOf(cfg.(autoFill := flag)) == AutoFillOf(cfg)
    ensures ButtonCount(cfg.(autoFill := flag)) == ButtonCount(cfg)
  {
  }

  /** An auto-fill object without a name is called "Control 3", however many
      controls the file configures. */
  lemma AutoFillFallbackName(cfg: Config)
    requires ConfigWellTyped(cfg)
    requires cfg.autoFillControl.Some? && "name" !in cfg.autoFillControl.value
    ensures AutoFillOf(cfg).name == "Control 3"
  {
    assert |DefaultControls()| + 1 == 3;
    assert Decimal(3) == "3";
  }
}
