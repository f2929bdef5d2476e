# mixer_overlay, modelled in Dafny

mixer_overlay is a Windows overlay for per-application volume. It reads a list
of *controls* from a JSON configuration. Each control is a named rule whose
pattern tokens select audio sessions:

- a process name;
- `~substring`;
- a `` r` ``-prefixed regular expression;
- `<all>`;
- `<steamgame>`, which matches any game found in the Steam library.

At start-up the overlay takes a snapshot of the audio sessions, binds each
control to the sessions it matches, and shows one numbered widget per active
control. It stops once every button is used. The user types a widget's number to
focus it, moves its volume with Up and Down, and leaves with Escape or by typing
the number again. The Steam game names come from a scan of the libraries' `.exe`
files, cached in a text file headed by a timestamp.

The project models this core:

| file | what it models |
|---|---|
| `Text.dfy` | The string operations the program relies on: `lower`, `capitalize`, `[:-4]`, `str(n)`, `startswith`, substring and `'\n'` split/join. |
| `Controls.dfy` | The `Control` record, its construction from the configuration objects, and the auto-fill step. |
| `Resolver.dfy` | The session-resolution pass of `OverlayWidget.__init__`: a loop-based method proved equal to a recursive specification, plus the properties of that specification. |
| `Volume.dfy` | The volume widget as a class: colour defaults, `change_volume` over an array of session volumes and a master level, `focus`/`unfocus`, and `get_title`. |
| `Overlay.dfy` | The widget column and the main window as classes, plus the keyboard selection state machine they follow. |
| `SteamGames.dfy` | The exclusion test, the scan of a directory listing, the cache content, the cache parser with its staleness test, and the start-up choice between the cache and a scan. |

The regular-expression engine, the clock, the file system and the audio
subsystem are parameters:

- A regular expression is a `Matcher` function, anchored and case-insensitive (`re.match` with `re.IGNORECASE`).
- The time since a cache timestamp is an `Elapsed` function from the timestamp line to seconds.
- A folder walk is a given list of (directory relative to `steamapps\common`, file names) entries.
- Session volumes are an `array<real>`, indexed by each session's slot.
- The master device is an object with one `real` level.

## Model

| member | source | states |
|---|---|---|
| Controls.NewControl | main.py:43-57 | Every pattern token is lower-cased, in order; all other fields are kept as given. |
| Controls.DefaultControls | main.py:59-62 | The built-ins are Game (`<steamgame>`, app name on) and Discord (`discord`, app name off); lower-casing leaves their tokens as written, and neither is a master or `only_first` control. |
| Controls.DefaultAutoFillControl | main.py:64 | The built-in auto-fill control is App, matching `<all>`, with the app name on and `only_first` set; it is no master. |
| Controls.FlagOrFalse | main.py:127-131 | `cd.get(key) or False` is true exactly when the key holds JSON `true`; a missing key, `null` or `false` give False. |
| Controls.TextOr | main.py:139-150 | `cd.get(key) or default` for a string: the stored text when it is present and non-empty, otherwise the default. |
| Controls.PatternsOf | main.py:141 | The configured token list when present, otherwise the empty list. |
| Controls.ControlFromConfig | main.py:137-151 | Each field is filled from the configuration object with its fallback. The name falls back to "Control k", flags to False, colours to the configured `FG_COLOR`/`BG_COLOR`, and `bg_color2` to the empty string. Tokens are lower-cased. |
| Controls.EmptyObjectFlagsOff | main.py:137-151 | An empty object gives a control with every flag off, `use_app_name` included. The built-in Game control, which relies on the dataclass default (main.py:48, 60), has `use_app_name` set. |
| Controls.ButtonCount | main.py:90-93 | `button_count` wins over `control_count`; otherwise the default is 8. |
| Controls.AutoFillOf | main.py:122-135 | Without an `auto_fill_control` object the built-in App control stays. With one, its name falls back to "Control 3" and its colours to the configured or default `FG_COLOR`/`BG_COLOR`. |
| Controls.ConfiguredControls | main.py:137-151 | Without a `controls` list the built-ins stay. With one, there is one control per object, and the k-th (from 1) is named "Control k" when it has no name; colours fall back as for the auto-fill control. |
| Controls.LoadControls | main.py:66-154 | Without a configuration file, the built-in controls and 8 buttons are used, with no auto-fill. With a file, the result is the configured controls (or the built-ins) followed by exactly `max(0, BUTTON_COUNT)` copies of the auto-fill control. |
| Controls.ReadConfiguredControls | main.py:137-151 | The loop over the configured objects yields exactly `ConfiguredControls`. |
| Controls.AppendAutoFill | main.py:153-154 | `range(BUTTON_COUNT)` appends exactly `max(0, BUTTON_COUNT)` copies of the auto-fill control and keeps the controls before them. |
| Controls.AutoFillSettingIgnored | main.py:120-154 | The `auto_fill` setting changes neither the control list, nor the auto-fill control, nor the button count. |
| Controls.AutoFillFallbackName | main.py:122-126 | A nameless auto-fill object is called "Control 3", because `CONTROLS` still holds the two built-ins when its name is computed. |
| Resolver.SessionName | main.py:373 | The session name drops the last four characters and is lower case. |
| Resolver.PatternAcceptsByKind | main.py:375-386 | Per token kind: `<steamgame>` accepts iff some game is a prefix of the name, `<all>` accepts always, a regex token iff the matcher accepts (or the token equals the name), a `~` token iff its rest is a substring (or it equals the name), and any other token iff it equals the name. |
| Resolver.AcceptsSession | main.py:374-386 | The pattern loop sets `passed` iff some token accepts the name, by its kind: steam-game prefix, catch-all, regex, substring or equality. |
| Resolver.IsClaimed | main.py:387-390 | The exclusivity loop reports a claim iff some earlier active control's first session has this name. |
| Resolver.BindControl | main.py:368-394 | The loop over session, pattern and earlier controls returns exactly the specification's bound sessions. A master control binds none. |
| Resolver.ResolveControls | main.py:367-400 | The resolution loop, with its cut-off `break`, yields exactly the recursive specification `Resolve`. |
| Resolver.MatchedMembers | main.py:370-392 | A session is matched iff it is in the snapshot, has a process, is accepted, and its name is not the first-session name of an earlier active control. |
| Resolver.MatchedDistinct | main.py:370-392 | Matching keeps a sub-list of the snapshot, so distinct volume slots stay distinct. |
| Resolver.ResolveEntries | main.py:367-400 | In each active entry, a master control has no sessions and any other control has at least one. `only_first` entries have at most one session. Every bound session is in the snapshot, has a process, is accepted, and is not named like the first session of an earlier entry. A non-`only_first` entry holds every eligible session. Slots stay distinct. |
| Resolver.OnlyFirst | main.py:393-394 | `only_first` keeps at most the first matched session and never empties a non-empty list. |
| Resolver.ResolveWithinCapacity | main.py:396-400 | When `BUTTON_COUNT >= 1`, there are never more active controls than buttons. |
| Resolver.CapacityStopsEvaluation | main.py:399-400 | Once the buttons are filled, the pass stops: controls appended after that point never change the result. |
| Resolver.ResolveInDeclarationOrder | main.py:367-400 | Active controls are a selection of the controls, in declaration order. |
| Resolver.ResolveSkipsOnlyUnmatched | main.py:367-400 | The converse of `ResolveEntries`: the loop passes over a control before the cut-off only when it is not a master and binds no session against the controls active at that point. |
| Resolver.MatchedControlBecomesActive | main.py:392-398 | A control reached before the cut-off that is a master, or binds a session against the entries active when the loop reaches it, is the next entry and holds exactly those sessions. |
| Resolver.MastersAlwaysActive | main.py:396-400 | When `BUTTON_COUNT <= 0` there is no cut-off, and every master control is active with no sessions. |
| Resolver.DiscordBeforeCatchAll | main.py:387-390 | A specific control that claims "discord" first leaves a later `<all>` control only "notepad". |
| Resolver.SecondSessionNotExclusive | main.py:387-390 | Exclusivity looks only at an earlier control's first session, so "notepad", second under `<all>`, is bound again by a later control. |
| Resolver.CapacityOneKeepsFirst | main.py:399-400 | With one button, only the first active control is kept. |
| Resolver.SubstringToken | main.py:383-384 | A `~` token is a substring test on the session name. |
| Volume.Clamp | main.py:332-337 | `max(0, min(1, x))` lies in [0, 1], and is the identity inside it. |
| Volume.Targets | main.py:335-340 | Without `only_first` every session is a target; with it, only the first session, if any. |
| Volume.AdjustedVolumesSpec | main.py:335-338 | Each target slot becomes the clamped `old + delta`, in [0, 1]; every other slot is unchanged. |
| Volume.ZeroDeltaKeepsVolumes | main.py:248 | A zero change leaves in-range volumes as they are. |
| Volume.NoSessionsNoChange | main.py:334-340 | A non-master control without sessions changes no volume and keeps `vl`. |
| Volume.OnlyFirstTouchesFirst | main.py:334-340 | Under `only_first`, only the first session's volume changes, and `vl` is its new level. |
| Volume.WithColors | main.py:192-195 | Empty colours are filled with `FG_COLOR`/`BG_COLOR`; nothing else changes. |
| Volume.WidgetSessions | main.py:196-199 | A master widget holds no sessions; any other widget holds the sessions it was given. |
| Volume.ProcessTitle | main.py:252 | The process name less its last four characters, capitalised: empty iff the name has at most four characters, else the first letter upper case and the rest lower case. |
| Volume.VolumeControl.constructor | main.py:187-248 | The widget starts unfocused, with colours defaulted and no sessions for a master control. Its `vl` is read by `change_volume(0)`: when every level is in [0, 1], the levels stay as they are and `vl` is the device level for a master control, the volume of the last session it drives otherwise (the first under `only_first`), and 1.0 when it drives none. |
| Volume.VolumeControl.ChangeVolume | main.py:326-340 | A master control sets the device level to the clamped sum, and `vl` follows. Any other control writes `AdjustedVolumes` for its targets, and `vl` becomes the last level written. |
| Volume.VolumeControl.SetSessionVolumes | main.py:334-340 | The session loop, with the `only_first` break, writes exactly `AdjustedVolumes`, and `vl` becomes the last level written. |
| Volume.VolumeControl.Focus | main.py:344-348 | The widget is focused. |
| Volume.VolumeControl.Unfocus | main.py:350-354 | The widget is not focused. |
| Volume.VolumeControl.GetTitle | main.py:250-268 | The control name is used unless there is exactly one session. With both flags set, the process name `pname` is always contained in the title: it is `pname` for an empty window title, the window title when that contains `pname`, and `pname: title` otherwise. With the title flag alone, it is the window title. With the name flag alone, it is the display name, or `pname` when that is empty. |
| Overlay.SelectedIndexSpec | main.py:446-447 | Typing `str(j + 1)` selects widget `j`, and only that text selects it. |
| Overlay.SelectedIndexNone | main.py:446-447 | A text that is no widget's number selects nothing. |
| Overlay.Step | main.py:438-457 | The key handler keeps the focused index in range, and exits only on deselection with `CLOSE_ON_DESELECT`. |
| Overlay.ArrowsKeepSelection | main.py:439-444 | Up and Down never change the selection. |
| Overlay.NumberFocuses | main.py:446-456 | Typing an unfocused widget's number focuses it. |
| Overlay.NumberAgainDeselects | main.py:446-454 | Typing the focused widget's number clears the focus, or exits with `CLOSE_ON_DESELECT`. |
| Overlay.OtherTextIgnored | main.py:445-457 | Any other text leaves the selection alone. |
| Overlay.NumberTwiceToggles | main.py:446-456 | Without `CLOSE_ON_DESELECT`, typing a number twice returns to no selection. |
| Overlay.WindowStep | main.py:468-471 | Escape exits with the focus unchanged; every other key follows the widget column's handler. |
| Overlay.OverlayWidget.BuildWidgets | main.py:396-398 | One fresh, unfocused, pairwise distinct widget per active entry, in order, with that entry's control (colours defaulted) and sessions, and `vl` the level it read (`Reading`). In-range device levels are left unchanged. |
| Overlay.OverlayWidget.constructor | main.py:357-400 | One fresh widget per resolved entry, in order, with that entry's control (colours defaulted), its sessions and the level it read as `vl`. Nothing is focused, and in-range device levels are left unchanged. |
| Overlay.OverlayWidget.KeyPressEvent | main.py:438-457 | The selection moves as `Step` says. At most one widget is focused, and it is `focused_control`. An arrow key changes only the focused widget's volume, by 0.01, and sets that widget's `vl` to the level written; any other key changes no volume and no `vl`. |
| Overlay.OverlayWidget.SelectByText | main.py:445-457 | The number loop unfocuses the current widget, then toggles the typed one, or exits. |
| Overlay.OverlayWindow.constructor | main.py:460-466 | The window's central widget is the freshly built column, with nothing focused: one fresh widget per resolved entry, in order, with that entry's control (colours defaulted), its sessions and the level it read as `vl`. In-range device levels are left unchanged. |
| Overlay.OverlayWindow.KeyPressEvent | main.py:468-471 | Escape exits and changes no volume; any other key is forwarded to the column, with the column's effect on the selection, the volumes, the device level and each widget's `vl`. |
| Overlay.OverlayWindow.FocusOutEvent | main.py:473-474 | Losing focus exits. |
| SteamGames.ReCheckList | steamgames.py:95-99 | True iff some expression matches; false for an empty list. |
| SteamGames.FindSteamGames | steamgames.py:101-112 | The nested walk loop yields exactly the specification `SteamGamesOf`. |
| SteamGames.GamesAreLower | steamgames.py:110-111 | Every reported name is lower case. |
| SteamGames.GamesNotExcluded | steamgames.py:109-111 | With a case-insensitive matcher, no built-in or configured exclusion matches a reported name. |
| SteamGames.GamesExactlyEligible | steamgames.py:104-111 | The reported names are exactly the lower-cased stems of the `.exe` files in shallow directories that no exclusion matches. |
| SteamGames.LowerStemsNoDuplicates | steamgames.py:110-111 | When every eligible stem is already lower case, no name is reported twice. |
| SteamGames.MixedCaseRepeats | steamgames.py:110-111 | `Doom.exe` found twice is reported twice: the raw stem is compared with a lower-cased list. |
| SteamGames.DeepDirectoryIgnored | steamgames.py:105 | A directory with three or more separators below `steamapps\common` adds nothing. |
| SteamGames.Exclusions | steamgames.py:109 | The built-in exclusions are followed by the configured ones. |
| SteamGames.FindAndWriteCache | steamgames.py:114-121 | Returns the per-folder results concatenated in folder order, and the content `timestamp + '\n' + '\n'.join(games)`. |
| SteamGames.CacheContent | steamgames.py:120 | The timestamp is the first line of the cache text. |
| SteamGames.AllGamesAppend | steamgames.py:116-117 | Folder results are concatenated whole, with no dedup across folders. |
| SteamGames.ParseEntries | steamgames.py:126 | Parsed entries are lower case and no more numerous than the lines. |
| SteamGames.ParseEntriesMembers | steamgames.py:126 | A text is an entry exactly when it is the lowercased form of some line longer than one character. |
| SteamGames.ParseEntriesSnoc | steamgames.py:126 | Order is kept: a further line appends its lowercased text when it is longer than one character and adds nothing otherwise. |
| SteamGames.ShortNameLost | steamgames.py:120-126 | A one-character game name is written to the cache and lost on reading it back: a fresh cache holding only `a` lists no game. |
| SteamGames.ReadCache | steamgames.py:123-131 | A fresh read gives lower-case games, fewer than the lines of the text. A cache can be stale only when its expiry is shorter than a day. |
| SteamGames.SecondsPart | steamgames.py:128-129 | `timedelta.seconds` lies in [0, 86399] and differs from the elapsed time by whole days. |
| SteamGames.CacheRoundTrip | steamgames.py:120-131 | Reading back written content gives exactly the written games, or stale or unreadable by the timestamp's elapsed time. This holds for games that are lower case, longer than one character and free of newlines. |
| SteamGames.LongExpiryNeverStale | steamgames.py:129-130 | An expiry of 1440 minutes or more, the default 7200 included, never reports stale. |
| SteamGames.DaysIgnored | steamgames.py:128-130 | Elapsed times that differ by whole days give the same answer. |
| SteamGames.CacheNeverRescanned | main.py:158-162 | An existing cache, without a forced scan, is used as read or stops the program; it is never rescanned. |
| SteamGames.ScanWritesGames | main.py:163-164 | Without a cache, or with a forced scan, the libraries are scanned, and the lower-case games are written with the timestamp. |
| SteamGames.StartupGames | main.py:158-164 | Whether loaded or scanned, the game list is lower case. The program can crash only on the cache path, when a cache exists and no scan is forced. |
| Text.DecimalInjective | main.py:447 | Distinct numbers print differently, so typing `str(i + 1)` names one widget. |
| Text.SplitJoin | steamgames.py:120-126 | Splitting joined newline-free lines on `'\n'` gives the lines back. |

## Left out

- Qt painting, animations, layout, spacer placement, monitor choice and window flags (main.py:200-203, 205-247, 278-324, 401-436, 476-493). These are presentation only.
- `get_text` and its `int(vl * 100)` formatting (main.py:270-276). This is presentation.
- The Win32 window-title lookup (main.py:166-182). `GetTitle` takes the window title as an argument.
- pycaw and comtypes (main.py:184, 328-331, 333, 336, 338). Session volumes are an array indexed by a session's slot, and the master device is one `real` cell. Levels are `real`, not floating point.
- File and JSON I/O, `os.walk`, `os.path.join` and the clock (main.py:66-85, steamgames.py:103-104, 118-119, 124-125, 127-128). They become a `Config` value, a walk listing, content strings and an `Elapsed` function. The default configuration file that main.py:66-85 writes is not modelled; only its effect on the control list is.
- The configuration settings that touch nothing in the model: `debug`, `monitor`, `auto_close`, `min_width`, `spacer_position`, `show_process_count`, `steam_library_folders`, `override_steamapp_exlusions` and the cache settings. They are read (main.py:88-121) but are inputs or presentation here. Nothing reads `override_steamapp_exlusions` at all.
- Configuration values of the wrong JSON type, such as a number where a string is read. `ConfigWellTyped` requires the expected kinds, because Python would either raise or compare them in a way the model does not define.
- Resolver.AcceptsSession and SteamGames.ReCheckList: a malformed regular expression makes `re.match` raise `re.error`, both for a `` r` `` token during resolution (main.py:381) and for a configured exclusion during the scan (steamgames.py:97). The `Matcher` is total, so neither crash is modelled.
- The regular-expression engine. A `Matcher` function stands for `re.match(..., re.IGNORECASE)`; `GamesNotExcluded` requires that it ignore case in its subject.
- Case mapping is ASCII only. Python's `lower()` and `capitalize()` also map non-ASCII letters.
- The `exclude` flag (main.py:50). It is stored and never read.
- `sys.exit` is the `exited` flag; no event is handled after it.
- `os.sep` is the Windows separator `\`, because the program runs on Windows only (`ctypes.windll`).
- Resolver.Resolve: the source reads `app[0]` of an empty pattern token (main.py:383) and raises `IndexError` only when that token belongs to a non-master control (main.py:369) that the loop reaches before the `break` at main.py:399-400, and the snapshot holds a session with a process (main.py:371). `ValidControls` requires every non-master control to have non-empty tokens instead of modelling that crash. It therefore also rules out inputs the source runs without error: such a control after the cut-off, or with a snapshot of no process sessions. Master controls may have empty tokens.
- SteamGames.StartupGames: the test at main.py:160 applies `len` to the result of the cache read. It is never true, and a stale cache's `None` makes `len` raise. So a stale, empty or unparsable cache ends in `Crashed`, not a rescan.
- SteamGames.ReadCache: `elapsed` receives the timestamp line after lower-casing, as `fromisoformat` does (steamgames.py:126-127). Whole seconds stand for the microsecond-precision `timedelta`.
- Volume.VolumeControl.ChangeVolume requires its target sessions to have distinct slots, because pycaw sessions are distinct objects. The overlay guarantees this whenever the snapshot's slots are distinct.
- Overlay.OverlayWidget.constructor requires every device level to be in [0, 1], which is the range the audio API reports. Under that condition `change_volume(0)` is the identity. For other levels, the constructor's effect on the volumes is left unstated.
- Volume.VolumeControl.constructor: the source writes the default colours into the shared `Control` object (main.py:192-195), so all copies of the auto-fill control are updated at once. The model gives each widget its own defaulted copy. Nothing reads the colours before the update, so the difference cannot be observed.
- Overlay.OverlayWidget.constructor: `focused_control` refers to a widget object; the model stores the widget's index. The widgets are distinct, so the two determine each other.
