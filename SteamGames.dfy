/** Steam game discovery and its cache file. A library folder is scanned for
    `.exe` files under `steamapps\common`; the stems that no exclusion pattern
    matches become the game names that `<steamgame>` patterns test session names
    against. The names are cached in a text file headed by a timestamp. */
module SteamGames {
  import opened Text
  import opened Optional

  /** The helper executables bundled with games, never counted as games
      (regular expressions, anchored at the start, case-insensitive). */
  const BuiltinExclusions: seq<string> := [
    "unins.*", "UnityCrashHandler.*", "EasyAntiCheat.*", "crashmsg", "dxsetup",
    "directx.*", "vcredist.*", "bspzip", "hammer", "height2normal",
    "height2ssbump", "hlfaceposer", "shadercompile", "splitskybox", "CrashSender.*",
    "RemoteCrashSender.*", "addoninstaller", "capture", "hook-helper.*", "LIV\\.App.*",
    "idevice\\w+", "idevice_id", "ios_webskit_debug_proxy", "iproxy", "irecovery",
    "plist.+", "Updater", "D3D.+", "msedgewebview.*", "notification_helper",
    "vbsp", "vpk", "vrad", "vtex", "vtfdiff",
    "vtfscrew", "vvis", "SymbolStoreUpdate", "ShaderAPITest", "mksheet",
    "motionmapper", "normal2ssbump", "slices2volumetex", "ohworkshopuploader", "pfm2tgas",
    "QC_Eyes", "captioncompiler", "demoinfo", "dmxconvert", "dmxedit",
    "elementviewer", "glview", "IPA", "ActivationUI", "Cleanup",
    "Touchup", "overlayinjector", "QuickEditDisable", "resourcecompiler", "steamutil.*",
    "ui32", "mod_uploader", "asset_packer", "asset_unpacker", "apputil.*",
    "diagnostics.*", ".*server", ".*launcher", ".*setup", ".*launch",
    ".*installer", ".*install", "dump_versioned_json", "make_versioned_json", "start_protected_game",
    "DumpTool", ".*WebHelper", "wallpaperservice.*", "applicationwallpaperinject.*", "webwallpaper.*",
    "Steam360VideoPlayer", "dotNet.*", "planet_mapgen", "steam", "steamwebhelper"
  ]

  /** The directory separator of the platform the program runs on. */
  const Separator: char := '\\'

  /** Some expression of `exprs` matches `s`. */
  predicate AnyMatch(s: string, exprs: seq<string>, m: Matcher)
  {
    exists i :: 0 <= i < |exprs| && m(exprs[i], s)
  }

  /** `re_check_list`: try the expressions in order and stop at the first match. */
  method ReCheckList(s: string, exprs: seq<string>, m: Matcher) returns (found: bool)
    ensures found <==> AnyMatch(s, exprs, m)
    ensures |exprs| == 0 ==> !found
  {
    var i := 0;
    while i < |exprs|
      invariant 0 <= i <= |exprs|
      invariant forall k :: 0 <= k < i ==> !m(exprs[k], s)
    {
      if m(exprs[i], s) {
        return true;
      }
      i := i + 1;
    }
    return false;
  }

  /** One step of `os.walk`: a directory, given relative to `steamapps\common`
      (empty for that directory itself, `\A\B` below it), and its file names. */
  datatype WalkEntry = WalkEntry(rel: string, files: seq<string>)

  function Count(s: string, c: char): (n: nat)
    ensures n <= |s|
  {
    if |s| == 0 then 0 else Count(s[..|s| - 1], c) + (if s[|s| - 1] == c then 1 else 0)
  }

  /** A directory scanned for games: fewer than three separators below
      `steamapps\common`, so the folder itself and two levels under it. */
  predicate Shallow(rel: string)
  {
    Count(rel, Separator) < 3
  }

  /** The exclusions in force: the built-in list followed by the configured one. */
  function Exclusions(extra: seq<string>): (r: seq<string>)
    ensures |r| == |BuiltinExclusions| + |extra|
    ensures r[..|BuiltinExclusions|] == BuiltinExclusions && r[|BuiltinExclusions|..] == extra
  {
    BuiltinExclusions + extra
  }

  /** A file that names a game: an `.exe` (case-sensitive) whose stem no
      exclusion matches. */
  predicate Eligible(file: string, excl: seq<string>, m: Matcher)
  {
    EndsWith(file, ".exe") && !AnyMatch(DropLast4(file), excl, m)
  }

  /** The game list after looking at one more file: its lowercased stem is
      appended when it is eligible and the stem itself is not yet listed. */
  function AddFile(l: seq<string>, file: string, excl: seq<string>, m: Matcher): seq<string>
  {
    if Eligible(file, excl, m) && DropLast4(file) !in l then l + [Lower(DropLast4(file))] else l
  }

  function AddFiles(l: seq<string>, files: seq<string>, excl: seq<string>, m: Matcher): seq<string>
    decreases |files|
  {
    if |files| == 0 then l
    else AddFile(AddFiles(l, files[..|files| - 1], excl, m), files[|files| - 1], excl, m)
  }

  /** One walk step: the files of a shallow directory, nothing from a deep one. */
  function ScanEntry(l: seq<string>, e: WalkEntry, excl: seq<string>, m: Matcher): seq<string>
  {
    if Shallow(e.rel) then AddFiles(l, e.files, excl, m) else l
  }

  function Scan(walk: seq<WalkEntry>, excl: seq<string>, m: Matcher): seq<string>
    decreases |walk|
  {
    if |walk| == 0 then []
    else ScanEntry(Scan(walk[..|walk| - 1], excl, m), walk[|walk| - 1], excl, m)
  }

  /** The games `find_steam_games` reports for one library folder's walk. */
  function SteamGamesOf(walk: seq<WalkEntry>, extra: seq<string>, m: Matcher): seq<string>
  {
    Scan(walk, Exclusions(extra), m)
  }

  /** `find_steam_games` over a given walk of `steamapps\common`. */
  method FindSteamGames(walk: seq<WalkEntry>, extra: seq<string>, m: Matcher)
    returns (l: seq<string>)
    ensures l == SteamGamesOf(walk, extra, m)
  {
    var excl := BuiltinExclusions + extra;
    l := [];
    var i := 0;
    while i < |walk|
      invariant 0 <= i <= |walk|
      invariant l == Scan(walk[..i], excl, m)
    {
      assert walk[..i + 1][..i] == walk[..i];
      if Count(walk[i].rel, Separator) < 3 {
        var files := walk[i].files;
        ghost var start := l;
        var j := 0;
        while j < |files|
          invariant 0 <= j <= |files|
          invariant l == AddFiles(start, files[..j], excl, m)
        {
          assert files[..j + 1][..j] == files[..j];
          var file := files[j];
          if EndsWith(file, ".exe") {
            var stem := DropLast4(file);
            var excluded := ReCheckList(stem, excl, m);
            if !excluded {
              if stem !in l {
                l := l + [Lower(stem)];
              }
            }
          }
          j := j + 1;
        }
        assert files[..|files|] == files;
      }
      i := i + 1;
    }
    assert walk[..|walk|] == walk;
  }

  predicate AllLower(l: seq<string>)
  {
    forall k :: 0 <= k < |l| ==> IsLower(l[k])
  }

  predicate NoDuplicates(l: seq<string>)
  {
    forall a, b :: 0 <= a < b < |l| ==> l[a] != l[b]
  }

  /** `g` is the lowercased stem of an eligible file among `files`. */
  predicate FromFiles(g: string, files: seq<string>, excl: seq<string>, m: Matcher)
  {
    exists j :: 0 <= j < |files| && Eligible(files[j], excl, m) && g == Lower(DropLast4(files[j]))
  }

  /** `g` comes from an eligible file of a shallow directory of the walk. */
  predicate FromWalk(g: string, walk: seq<WalkEntry>, excl: seq<string>, m: Matcher)
  {
    exists i :: 0 <= i < |walk| && Shallow(walk[i].rel) && FromFiles(g, walk[i].files, excl, m)
  }

  lemma {:induction false} AddFilesGrows(l: seq<string>, files: seq<string>, excl: seq<string>, m: Matcher)
    ensures l <= AddFiles(l, files, excl, m)
    decreases |files|
  {
    if |files| > 0 {
      AddFilesGrows(l, files[..|files| - 1], excl, m);
    }
  }

  lemma {:induction false} AddFilesLower(l: seq<string>, files: seq<string>, excl: seq<string>, m: Matcher)
    requires AllLower(l)
    ensures AllLower(AddFiles(l, files, excl, m))
    decreases |files|
  {
    if |files| > 0 {
      AddFilesLower(l, files[..|files| - 1], excl, m);
      LowerIsLower(DropLast4(files[|files| - 1]));
    }
  }

  lemma {:induction false} AddFilesOrigin(l: seq<string>, files: seq<string>, excl: seq<string>, m: Matcher)
    ensures forall k :: |l| <= k < |AddFiles(l, files, excl, m)| ==>
      FromFiles(AddFiles(l, files, excl, m)[k], files, excl, m)
    decreases |files|
  {
    if |files| > 0 {
      var init, last := files[..|files| - 1], files[|files| - 1];
      var prev := AddFiles(l, init, excl, m);
      var r := AddFiles(l, files, excl, m);
      AddFilesOrigin(l, init, excl, m);
      assert prev <= r;
      forall k | |l| <= k < |r| ensures FromFiles(r[k], files, excl, m) {
        if k < |prev| {
          assert FromFiles(prev[k], init, excl, m);
          var j :| 0 <= j < |init| && Eligible(init[j], excl, m) && prev[k] == Lower(DropLast4(init[j]));
          assert files[j] == init[j];
        } else {
          assert files[|files| - 1] == last;
        }
      }
    }
  }

  /** An element of an all-lowercase list is its own lowercase. */
  lemma InLowerList(x: string, l: seq<string>)
    requires AllLower(l) && x in l
    ensures Lower(x) == x
  {
    var k :| 0 <= k < |l| && l[k] == x;
  }

  lemma {:induction false} AddFilesComplete(l: seq<string>, files: seq<string>, excl: seq<string>, m: Matcher)
    requires AllLower(l)
    ensures forall j :: 0 <= j < |files| && Eligible(files[j], excl, m) ==>
      Lower(DropLast4(files[j])) in AddFiles(l, files, excl, m)
    decreases |files|
  {
    if |files| > 0 {
      var init, last := files[..|files| - 1], files[|files| - 1];
      var prev := AddFiles(l, init, excl, m);
      var r := AddFiles(l, files, excl, m);
      AddFilesComplete(l, init, excl, m);
      AddFilesLower(l, init, excl, m);
      assert prev <= r;
      forall j | 0 <= j < |files| && Eligible(files[j], excl, m)
        ensures Lower(DropLast4(files[j])) in r
      {
        if j < |init| {
          assert init[j] == files[j];
        } else if DropLast4(last) in prev {
          InLowerList(DropLast4(last), prev);
        } else {
          assert r == prev + [Lower(DropLast4(last))];
        }
      }
    }
  }

  lemma {:induction false} AddFilesDistinct(l: seq<string>, files: seq<string>, excl: seq<string>, m: Matcher)
    requires NoDuplicates(l)
    requires forall j :: 0 <= j < |files| && Eligible(files[j], excl, m) ==> IsLower(DropLast4(files[j]))
    ensures NoDuplicates(AddFiles(l, files, excl, m))
    decreases |files|
  {
    if |files| > 0 {
      var init, last := files[..|files| - 1], files[|files| - 1];
      var prev := AddFiles(l, init, excl, m);
      forall j | 0 <= j < |init| && Eligible(init[j], excl, m) ensures IsLower(DropLast4(init[j])) {
        assert init[j] == files[j];
      }
      AddFilesDistinct(l, init, excl, m);
      if Eligible(last, excl, m) && DropLast4(last) !in prev {
        assert Lower(DropLast4(last)) == DropLast4(last);
      }
    }
  }

  lemma {:induction false} ScanGrows(walk: seq<WalkEntry>, e: WalkEntry, excl: seq<string>, m: Matcher)
    ensures Scan(walk, excl, m) <= Scan(walk + [e], excl, m)
  {
    assert (walk + [e])[..|walk|] == walk;
    AddFilesGrows(Scan(walk, excl, m), e.files, excl, m);
  }

  lemma {:induction false} ScanLower(walk: seq<WalkEntry>, excl: seq<string>, m: Matcher)
    ensures AllLower(Scan(walk, excl, m))
    decreases |walk|
  {
    if |walk| > 0 {
      ScanLower(walk[..|walk| - 1], excl, m);
      AddFilesLower(Scan(walk[..|walk| - 1], excl, m), walk[|walk| - 1].files, excl, m);
    }
  }

  lemma {:induction false} ScanOrigin(walk: seq<WalkEntry>, excl: seq<string>, m: Matcher)
    ensures forall k :: 0 <= k < |Scan(walk, excl, m)| ==> FromWalk(Scan(walk, excl, m)[k], walk, excl, m)
    decreases |walk|
  {
    if |walk| > 0 {
      var init, last := walk[..|walk| - 1], walk[|walk| - 1];
      var prev := Scan(init, excl, m);
      var r := Scan(walk, excl, m);
      ScanOrigin(init, excl, m);
      assert init + [last] == walk;
      ScanGrows(init, last, excl, m);
      AddFilesOrigin(prev, last.files, excl, m);
      forall k | 0 <= k < |r| ensures FromWalk(r[k], walk, excl, m) {
        if k < |prev| {
          assert FromWalk(prev[k], init, excl, m);
          var i :| 0 <= i < |init| && Shallow(init[i].rel) && FromFiles(prev[k], init[i].files, excl, m);
          assert walk[i] == init[i];
        } else {
          assert Shallow(last.rel);
          assert FromFiles(r[k], last.files, excl, m);
          assert walk[|walk| - 1] == last;
        }
      }
    }
  }

  lemma {:induction false} ScanComplete(walk: seq<WalkEntry>, excl: seq<string>, m: Matcher)
    ensures forall i, j :: 0 <= i < |walk| && Shallow(walk[i].rel) && 0 <= j < |walk[i].files|
                           && Eligible(walk[i].files[j], excl, m) ==>
      Lower(DropLast4(walk[i].files[j])) in Scan(walk, excl, m)
    decreases |walk|
  {
    if |walk| > 0 {
      var init, last := walk[..|walk| - 1], walk[|walk| - 1];
      var prev := Scan(init, excl, m);
      var r := Scan(walk, excl, m);
      ScanComplete(init, excl, m);
      ScanLower(init, excl, m);
      assert init + [last] == walk;
      ScanGrows(init, last, excl, m);
      AddFilesComplete(prev, last.files, excl, m);
      forall i, j | 0 <= i < |walk| && Shallow(walk[i].rel) && 0 <= j < |walk[i].files|
                    && Eligible(walk[i].files[j], excl, m)
        ensures Lower(DropLast4(walk[i].files[j])) in r
      {
        if i < |init| {
          assert init[i] == walk[i];
        }
      }
    }
  }

  lemma {:induction false} ScanDistinct(walk: seq<WalkEntry>, excl: seq<string>, m: Matcher)
    requires forall i, j :: 0 <= i < |walk| && 0 <= j < |walk[i].files| && Eligible(walk[i].files[j], excl, m) ==>
      IsLower(DropLast4(walk[i].files[j]))
    ensures NoDuplicates(Scan(walk, excl, m))
    decreases |walk|
  {
    if |walk| > 0 {
      var init, last := walk[..|walk| - 1], walk[|walk| - 1];
      forall i, j | 0 <= i < |init| && 0 <= j < |init[i].files| && Eligible(init[i].files[j], excl, m)
        ensures IsLower(DropLast4(init[i].files[j]))
      {
        assert init[i] == walk[i];
      }
      ScanDistinct(init, excl, m);
      if Shallow(last.rel) {
        AddFilesDistinct(Scan(init, excl, m), last.files, excl, m);
      }
    }
  }

  /** Every reported game name is lower case. */
  lemma GamesAreLower(walk: seq<WalkEntry>, extra: seq<string>, m: Matcher)
    ensures AllLower(SteamGamesOf(walk, extra, m))
  {
    ScanLower(walk, Exclusions(extra), m);
  }

  /** No reported name is matched by a built-in or configured exclusion, given a
      case-insensitive matcher (the test runs on the stem before lowercasing). */
  lemma GamesNotExcluded(walk: seq<WalkEntry>, extra: seq<string>, m: Matcher)
    requires CaseInsensitive(m)
    ensures var r := SteamGamesOf(walk, extra, m);
      forall k :: 0 <= k < |r| ==> !AnyMatch(r[k], Exclusions(extra), m)
  {
    var excl := Exclusions(extra);
    var r := SteamGamesOf(walk, extra, m);
    ScanOrigin(walk, excl, m);
    forall k | 0 <= k < |r| ensures !AnyMatch(r[k], excl, m) {
      assert FromWalk(r[k], walk, excl, m);
      var i :| 0 <= i < |walk| && Shallow(walk[i].rel) && FromFiles(r[k], walk[i].files, excl, m);
      var j :| 0 <= j < |walk[i].files| && Eligible(walk[i].files[j], excl, m)
               && r[k] == Lower(DropLast4(walk[i].files[j]));
      var stem := DropLast4(walk[i].files[j]);
      forall e | 0 <= e < |excl| ensures !m(excl[e], r[k]) {
        assert m(excl[e], Lower(stem)) == m(excl[e], stem);
      }
    }
  }

  /** Every reported name is the lowercased stem of an eligible `.exe` found in a
      shallow directory, and every such stem is reported. */
  lemma GamesExactlyEligible(walk: seq<WalkEntry>, extra: seq<string>, m: Matcher)
    ensures var excl, r := Exclusions(extra), SteamGamesOf(walk, extra, m);
      && (forall k :: 0 <= k < |r| ==> FromWalk(r[k], walk, excl, m))
      && (forall i, j :: 0 <= i < |walk| && Shallow(walk[i].rel) && 0 <= j < |walk[i].files|
                         && Eligible(walk[i].files[j], excl, m) ==>
            Lower(DropLast4(walk[i].files[j])) in r)
  {
    ScanOrigin(walk, Exclusions(extra), m);
    ScanComplete(walk, Exclusions(extra), m);
  }

  /** The dedup test compares the raw stem with a lowercased list, so when every
      eligible stem is already lower case no name is reported twice. */
  lemma LowerStemsNoDuplicates(walk: seq<WalkEntry>, extra: seq<string>, m: Matcher)
    requires forall i, j :: 0 <= i < |walk| && 0 <= j < |walk[i].files|
                            && Eligible(walk[i].files[j], Exclusions(extra), m) ==>
      IsLower(DropLast4(walk[i].files[j]))
    ensures NoDuplicates(SteamGamesOf(walk, extra, m))
  {
    ScanDistinct(walk, Exclusions(extra), m);
  }

  /** Directories three or more separators below `steamapps\common` add nothing. */
  lemma DeepDirectoryIgnored(walk: seq<WalkEntry>, e: WalkEntry, extra: seq<string>, m: Matcher)
    requires !Shallow(e.rel)
    ensures SteamGamesOf(walk + [e], extra, m) == SteamGamesOf(walk, extra, m)
  {
    assert (walk + [e])[..|walk|] == walk;
  }

  function NeverMatches(): Matcher
  {
    (p: string, s: string) => false
  }

  /** A mixed-case stem found twice in one directory is reported twice: the raw
      `Doom` is never in the list, which holds `doom`. */
  lemma MixedCaseRepeats()
    ensures SteamGamesOf([WalkEntry("", ["Doom.exe", "Doom.exe"])], [], NeverMatches())
         == ["doom", "doom"]
  {
    var excl := Exclusions([]);
    var m := NeverMatches();
    var files := ["Doom.exe", "Doom.exe"];
    assert Count("", Separator) == 0;
    assert EndsWith("Doom.exe", ".exe") by {
      assert "Doom.exe"[4..] == ".exe";
    }
    assert DropLast4("Doom.exe") == "Doom";
    assert !AnyMatch("Doom", excl, m);
    assert Lower("Doom") == "doom" by {
      assert LowerChar('D') == 'd';
    }
    assert files[..1][..0] == [];
    assert AddFiles([], files[..1], excl, m) == ["doom"];
    assert "Doom" !in ["doom"] by {
      assert "Doom"[0] != "doom"[0];
    }
    assert files[..2][..1] == files[..1];
    assert [WalkEntry("", files)][..0] == [];
  }

  /** Names of every library folder, concatenated in folder order; a game found
      in two folders appears twice. */
  function AllGames(walks: seq<seq<WalkEntry>>, extra: seq<string>, m: Matcher): seq<string>
    decreases |walks|
  {
    if |walks| == 0 then []
    else AllGames(walks[..|walks| - 1], extra, m) + SteamGamesOf(walks[|walks| - 1], extra, m)
  }

  /** The cache file: the timestamp line, then one game per line. */
  function CacheContent(timestamp: string, games: seq<string>): (r: string)
    ensures |r| > |timestamp| && r[..|timestamp| + 1] == timestamp + "\n"
  {
    timestamp + "\n" + JoinLines(games)
  }

  /** `find_and_write_steamgames_cache`: scan every library folder and produce
      the games and the text written to the cache file. */
  method FindAndWriteCache(walks: seq<seq<WalkEntry>>, extra: seq<string>, m: Matcher, timestamp: string)
    returns (games: seq<string>, content: string)
    ensures games == AllGames(walks, extra, m)
    ensures content == CacheContent(timestamp, games)
  {
    games := [];
    var i := 0;
    while i < |walks|
      invariant 0 <= i <= |walks|
      invariant games == AllGames(walks[..i], extra, m)
    {
      assert walks[..i + 1][..i] == walks[..i];
      var found := FindSteamGames(walks[i], extra, m);
      games := games + found;
      i := i + 1;
    }
    assert walks[..|walks|] == walks;
    content := timestamp + "\n" + JoinLines(games);
  }

  /** Folder results are kept whole and in order. */
  lemma {:induction false} AllGamesAppend(walks: seq<seq<WalkEntry>>, more: seq<seq<WalkEntry>>,
                                          extra: seq<string>, m: Matcher)
    ensures AllGames(walks + more, extra, m) == AllGames(walks, extra, m) + AllGames(more, extra, m)
    decreases |more|
  {
    if |more| == 0 {
      assert walks + more == walks;
    } else {
      var init, last := more[..|more| - 1], more[|more| - 1];
      assert (walks + more)[..|walks + more| - 1] == walks + init;
      AllGamesAppend(walks, init, extra, m);
    }
  }

  /** Every name reported for any folder is lower case. */
  lemma {:induction false} AllGamesLower(walks: seq<seq<WalkEntry>>, extra: seq<string>, m: Matcher)
    ensures AllLower(AllGames(walks, extra, m))
    decreases |walks|
  {
    if |walks| > 0 {
      AllGamesLower(walks[..|walks| - 1], extra, m);
      GamesAreLower(walks[|walks| - 1], extra, m);
    }
  }

  /** The lines of the cache longer than one character, lowercased, in order. */
  function ParseEntries(parts: seq<string>): (r: seq<string>)
    ensures |r| <= |parts|
    ensures AllLower(r)
  {
    if |parts| == 0 then []
    else
      LowerIsLower(parts[0]);
      (if |parts[0]| > 1 then [Lower(parts[0])] else []) + ParseEntries(parts[1..])
  }

  /** Seconds elapsed since a timestamp line, or None when the line is not a
      timestamp; the clock is an input. */
  type Elapsed = string -> Option<int>

  /** The outcome of reading the cache file. */
  datatype CacheRead =
    | Fresh(games: seq<string>)
    /** `read_steamgames_cache` returned None. */
    | Stale
    /** No timestamp line, or one that does not parse: the read raises. */
    | Unreadable

  /** `timedelta.seconds`: the seconds part of a duration, whole days dropped. */
  function SecondsPart(e: int): (r: int)
    ensures 0 <= r < 86400
    ensures exists d: int :: e == d * 86400 + r
  {
    assert e == (e / 86400) * 86400 + e % 86400;
    e % 86400
  }

  /** `read_steamgames_cache(content, expiration)` */
  function ReadCache(content: string, expiration: int, elapsed: Elapsed): (r: CacheRead)
    ensures r.Fresh? ==> AllLower(r.games) && |r.games| < |SplitLines(content)|
    ensures r.Stale? ==> expiration * 60 < 86399
  {
    var entries := ParseEntries(SplitLines(content));
    if |entries| == 0 then Unreadable
    else
      match elapsed(entries[0])
      case None => Unreadable
      case Some(e) => if SecondsPart(e) > expiration * 60 then Stale else Fresh(entries[1..])
  }

  /** Exactly the lines longer than one character survive, lowercased. */
  lemma {:induction false} ParseEntriesMembers(parts: seq<string>, x: string)
    ensures x in ParseEntries(parts) <==>
            exists k :: 0 <= k < |parts| && |parts[k]| > 1 && x == Lower(parts[k])
    decreases |parts|
  {
    if |parts| > 0 {
      ParseEntriesMembers(parts[1..], x);
      if exists k :: 0 <= k < |parts[1..]| && |parts[1..][k]| > 1 && x == Lower(parts[1..][k]) {
        var k :| 0 <= k < |parts[1..]| && |parts[1..][k]| > 1 && x == Lower(parts[1..][k]);
        assert parts[k + 1] == parts[1..][k];
      }
      if exists k :: 0 <= k < |parts| && |parts[k]| > 1 && x == Lower(parts[k]) {
        var k :| 0 <= k < |parts| && |parts[k]| > 1 && x == Lower(parts[k]);
        if k > 0 {
          assert parts[1..][k - 1] == parts[k];
        }
      }
    }
  }

  /** Order is kept: a further line adds its lowercased text at the end when it
      is longer than one character, and nothing otherwise. */
  lemma {:induction false} ParseEntriesSnoc(parts: seq<string>, line: string)
    ensures ParseEntries(parts + [line])
         == ParseEntries(parts) + (if |line| > 1 then [Lower(line)] else [])
    decreases |parts|
  {
    var tail := if |line| > 1 then [Lower(line)] else [];
    if |parts| > 0 {
      var head := if |parts[0]| > 1 then [Lower(parts[0])] else [];
      var all := parts + [line];
      assert all[0] == parts[0];
      assert all[1..] == parts[1..] + [line];
      ParseEntriesSnoc(parts[1..], line);
      assert ParseEntries(all) == head + ParseEntries(all[1..]);
      assert ParseEntries(parts) == head + ParseEntries(parts[1..]);
      assert head + (ParseEntries(parts[1..]) + tail) == (head + ParseEntries(parts[1..])) + tail;
    } else {
      assert [] + [line] == [line];
    }
  }

  /** A one-character game name is written to the cache and lost on reading it
      back: a fresh cache holding only "a" lists no game. */
  lemma ShortNameLost(timestamp: string, expiration: int, elapsed: Elapsed)
    requires NoNewline(timestamp) && |timestamp| > 1
    requires elapsed(Lower(timestamp)).Some? && SecondsPart(elapsed(Lower(timestamp)).value) <= expiration * 60
    ensures ReadCache(CacheContent(timestamp, ["a"]), expiration, elapsed) == Fresh([])
  {
    ContentLines(timestamp, ["a"]);
    var parts := SplitLines(CacheContent(timestamp, ["a"]));
    assert parts == [timestamp] + ["a"];
    ParseEntriesSnoc([timestamp], "a");
    assert ParseEntries([timestamp]) == [Lower(timestamp)] by {
      assert [timestamp][1..] == [];
    }
  }

  lemma {:induction false} ParseLongLower(parts: seq<string>)
    requires forall k :: 0 <= k < |parts| ==> |parts[k]| > 1 && IsLower(parts[k])
    ensures ParseEntries(parts) == parts
    decreases |parts|
  {
    if |parts| > 0 {
      ParseLongLower(parts[1..]);
      assert [parts[0]] + parts[1..] == parts;
    }
  }

  /** The lines of written content: the timestamp, then the games, plus one empty
      line when there are no games. */
  lemma ContentLines(timestamp: string, games: seq<string>)
    requires NoNewline(timestamp)
    requires forall k :: 0 <= k < |games| ==> NoNewline(games[k])
    ensures SplitLines(CacheContent(timestamp, games))
         == [timestamp] + (if |games| == 0 then [""] else games)
  {
    SplitLine(timestamp, JoinLines(games));
    if |games| > 0 {
      SplitJoin(games);
    }
  }

  /** Round trip: written games that are lower case, longer than one character and
      free of newlines are read back exactly, unless the cache is stale by the
      elapsed time of the (lowercased) timestamp line. */
  lemma CacheRoundTrip(timestamp: string, games: seq<string>, expiration: int, elapsed: Elapsed)
    requires NoNewline(timestamp) && |timestamp| > 1
    requires forall k :: 0 <= k < |games| ==> NoNewline(games[k]) && |games[k]| > 1 && IsLower(games[k])
    ensures ReadCache(CacheContent(timestamp, games), expiration, elapsed)
         == match elapsed(Lower(timestamp))
            case None => Unreadable
            case Some(e) => if SecondsPart(e) > expiration * 60 then Stale else Fresh(games)
  {
    ContentLines(timestamp, games);
    var parts := SplitLines(CacheContent(timestamp, games));
    if |games| == 0 {
      assert ParseEntries(parts) == [Lower(timestamp)] by {
        assert parts[1..] == [""];
        assert parts[1..][1..] == [];
      }
    } else {
      assert parts[1..] == games;
      ParseLongLower(games);
      assert ParseEntries(parts) == [Lower(timestamp)] + games;
    }
  }

  /** An expiry of a day or more never reports stale: the elapsed seconds are
      taken without their days. The default of 7200 minutes is such a value. */
  lemma LongExpiryNeverStale(content: string, expiration: int, elapsed: Elapsed)
    requires expiration >= 1440
    ensures ReadCache(content, expiration, elapsed) != Stale
  {
  }

  /** Elapsed times that differ by whole days give the same answer. */
  lemma DaysIgnored(content: string, expiration: int, e: int, days: int)
    ensures ReadCache(content, expiration, t => Some(e))
         == ReadCache(content, expiration, t => Some(e + days * 86400))
  {
    assert (e + days * 86400) % 86400 == e % 86400;
  }

  /** How the game list is obtained at start-up. */
  datatype Startup =
    /** Read from the cache file. */
    | Loaded(games: seq<string>)
    /** Scanned afresh; `content` is written to the cache file. */
    | Scanned(games: seq<string>, content: string)
    /** The program stops with an exception: an empty or unparsable cache, or a
        stale one, whose None has no `len`. */
    | Crashed

  /** The start-up choice: use the cache when it exists and a scan is not forced,
      otherwise scan every library folder and write the cache. */
  function StartupGames(cacheExists: bool, forceScan: bool, cacheContent: string, expiration: int,
                        elapsed: Elapsed, walks: seq<seq<WalkEntry>>, extra: seq<string>,
                        m: Matcher, timestamp: string): (r: Startup)
    ensures r.Loaded? ==> AllLower(r.games)
    ensures r.Scanned? ==> AllLower(r.games)
    ensures r.Crashed? ==> cacheExists && !forceScan
  {
    if cacheExists && !forceScan then
      match ReadCache(cacheContent, expiration, elapsed)
      case Fresh(games) => Loaded(games)
      case _ => Crashed
    else
      var games := AllGames(walks, extra, m);
      AllGamesLower(walks, extra, m);
      Scanned(games, CacheContent(timestamp, games))
  }

  /** A present cache is never replaced by a rescan; it is used as read or the
      program stops. */
  lemma CacheNeverRescanned(cacheExists: bool, forceScan: bool, cacheContent: string, expiration: int,
                            elapsed: Elapsed, walks: seq<seq<WalkEntry>>, extra: seq<string>,
                            m: Matcher, timestamp: string)
    requires cacheExists && !forceScan
    ensures var r := StartupGames(cacheExists, forceScan, cacheContent, expiration, elapsed,
                                  walks, extra, m, timestamp);
      && !r.Scanned?
      && (r.Loaded? <==> ReadCache(cacheContent, expiration, elapsed).Fresh?)
  {
  }

  /** A scan writes the games it returns, all in lower case. */
  lemma ScanWritesGames(cacheExists: bool, forceScan: bool, cacheContent: string, expiration: int,
                        elapsed: Elapsed, walks: seq<seq<WalkEntry>>, extra: seq<string>,
                        m: Matcher, timestamp: string)
    requires !cacheExists || forceScan
    ensures var r := StartupGames(cacheExists, forceScan, cacheContent, expiration, elapsed,
                                  walks, extra, m, timestamp);
      && r.Scanned?
      && r.games == AllGames(walks, extra, m)
      && AllLower(r.games)
      && r.content == CacheContent(timestamp, r.games)
  {
    AllGamesLower(walks, extra, m);
  }
}
