/** The viewer's rules: which (folder, marker) pairs it lists, how a menu
    choice picks one of them, the earned count, and what it shows of each
    achievement of the chosen game. */
module Viewer {
  import opened Common
  import opened Records
  import Watchdog

  // ---------------------------------------------------------------------
  // matching_games

  /** One element of `matching_games`. */
  datatype GameEntry = GameEntry(name: string, rootFolder: string, localFolder: Path,
                                 gameAchievementsPath: Path)

  /** The entry a folder and a marker naming it contribute. */
  function EntryFor(folder: string, m: Marker, localPath: Path, gamesPath: Path): GameEntry
  {
    GameEntry(folder, RelPathHead(m.dir, gamesPath), Join(localPath, folder), DefinitionsPath(m))
  }

  /** An entry names the folder, points at the folder under the local saves
      path and at the definitions file beside the marker, and records the
      first directory below the games path that holds the marker. */
  lemma EntryForFields(folder: string, m: Marker, localPath: Path, gamesPath: Path)
    ensures var g := EntryFor(folder, m, localPath, gamesPath);
            && g.name == folder
            && Dirname(g.localFolder) == localPath && Basename(g.localFolder) == folder
            && Dirname(g.gameAchievementsPath) == m.dir && Basename(g.gameAchievementsPath) == AchievementsFileName
            && (|gamesPath| < |m.dir| && m.dir[..|gamesPath|] == gamesPath ==> g.rootFolder == m.dir[|gamesPath|])
            && (m.dir == gamesPath ==> g.rootFolder == ".")
            && (!(|gamesPath| <= |m.dir| && m.dir[..|gamesPath|] == gamesPath) ==> g.rootFolder == "..")
  {
  }

  /** The entries one folder contributes: one per marker whose stripped
      text is the folder name, in marker order (the scan does not stop at
      the first). */
  function FolderEntries(folder: string, markers: seq<Marker>, localPath: Path, gamesPath: Path)
    : seq<GameEntry>
  {
    if |markers| == 0 then []
    else
      var m := markers[|markers| - 1];
      FolderEntries(folder, markers[..|markers| - 1], localPath, gamesPath)
      + (if Strip(m.text) == folder then [EntryFor(folder, m, localPath, gamesPath)] else [])
  }

  /** `matching_games`: the entries of every listed name (directory or
      not), in listing order. */
  function MatchingGames(listing: seq<DirEntry>, markers: seq<Marker>, localPath: Path, gamesPath: Path)
    : seq<GameEntry>
  {
    if |listing| == 0 then []
    else
      MatchingGames(listing[..|listing| - 1], markers, localPath, gamesPath)
      + FolderEntries(listing[|listing| - 1].name, markers, localPath, gamesPath)
  }

  /** The two nested loops that fill `matching_games`. */
  method FindMatchingGames(listing: seq<DirEntry>, markers: seq<Marker>, localPath: Path, gamesPath: Path)
    returns (games: seq<GameEntry>)
    ensures games == MatchingGames(listing, markers, localPath, gamesPath)
  {
    games := [];
    for i := 0 to |listing|
      invariant games == MatchingGames(listing[..i], markers, localPath, gamesPath)
    {
      var folder := listing[i].name;
      ghost var before := games;
      for j := 0 to |markers|
        invariant games == before + FolderEntries(folder, markers[..j], localPath, gamesPath)
      {
        FolderEntriesStep(folder, markers, localPath, gamesPath, j);
        if Strip(markers[j].text) == folder {
          games := games + [EntryFor(folder, markers[j], localPath, gamesPath)];
        }
      }
      assert markers[..|markers|] == markers;
      MatchingGamesStep(listing, markers, localPath, gamesPath, i);
    }
    assert listing[..|listing|] == listing;
  }

  /** One more listed name adds its own entries at the end. */
  lemma MatchingGamesStep(listing: seq<DirEntry>, markers: seq<Marker>, localPath: Path, gamesPath: Path, i: nat)
    requires i < |listing|
    ensures MatchingGames(listing[..i + 1], markers, localPath, gamesPath)
            == MatchingGames(listing[..i], markers, localPath, gamesPath)
               + FolderEntries(listing[i].name, markers, localPath, gamesPath)
  {
    assert listing[..i + 1][..i] == listing[..i];
  }

  /** One more marker adds its own entry, if any, at the end. */
  lemma FolderEntriesStep(folder: string, markers: seq<Marker>, localPath: Path, gamesPath: Path, j: nat)
    requires j < |markers|
    ensures FolderEntries(folder, markers[..j + 1], localPath, gamesPath)
            == FolderEntries(folder, markers[..j], localPath, gamesPath)
               + (if Strip(markers[j].text) == folder then [EntryFor(folder, markers[j], localPath, gamesPath)] else [])
  {
    assert markers[..j + 1][..j] == markers[..j];
  }

  /** Folder name `folder` and marker `m` produce entry `g`. */
  predicate Contributes(folder: string, m: Marker, localPath: Path, gamesPath: Path, g: GameEntry)
  {
    Strip(m.text) == folder && g == EntryFor(folder, m, localPath, gamesPath)
  }

  /** Every entry of a folder comes from a marker naming it. */
  lemma {:induction false} FolderEntriesSound(folder: string, markers: seq<Marker>, localPath: Path,
                                              gamesPath: Path, g: GameEntry)
    requires g in FolderEntries(folder, markers, localPath, gamesPath)
    ensures exists j :: 0 <= j < |markers| && Contributes(folder, markers[j], localPath, gamesPath, g)
  {
    var n := |markers| - 1;
    var init := markers[..n];
    if g in FolderEntries(folder, init, localPath, gamesPath) {
      FolderEntriesSound(folder, init, localPath, gamesPath, g);
      var j :| 0 <= j < |init| && Contributes(folder, init[j], localPath, gamesPath, g);
      assert markers[j] == init[j];
    } else {
      assert Contributes(folder, markers[n], localPath, gamesPath, g);
    }
  }

  /** Every marker naming a folder gives that folder an entry. */
  lemma {:induction false} FolderEntriesComplete(folder: string, markers: seq<Marker>, localPath: Path,
                                                 gamesPath: Path, j: nat)
    requires j < |markers| && Strip(markers[j].text) == folder
    ensures EntryFor(folder, markers[j], localPath, gamesPath) in FolderEntries(folder, markers, localPath, gamesPath)
  {
    var n := |markers| - 1;
    var init := markers[..n];
    var e := EntryFor(folder, markers[j], localPath, gamesPath);
    var tail := if Strip(markers[n].text) == folder then [EntryFor(folder, markers[n], localPath, gamesPath)] else [];
    assert FolderEntries(folder, markers, localPath, gamesPath)
           == FolderEntries(folder, init, localPath, gamesPath) + tail;
    if j < n {
      assert e in FolderEntries(folder, init, localPath, gamesPath) by {
        assert init[j] == markers[j];
        FolderEntriesComplete(folder, init, localPath, gamesPath, j);
      }
    } else {
      assert e in tail by {
        assert j == n;
      }
    }
  }

  /** Every listed game comes from a listed name and a marker naming it. */
  lemma {:induction false} MatchingGamesSound(listing: seq<DirEntry>, markers: seq<Marker>,
                                              localPath: Path, gamesPath: Path, g: GameEntry)
    requires g in MatchingGames(listing, markers, localPath, gamesPath)
    ensures exists i, j :: 0 <= i < |listing| && 0 <= j < |markers|
                           && Contributes(listing[i].name, markers[j], localPath, gamesPath, g)
  {
    var n := |listing| - 1;
    var init := listing[..n];
    if g in MatchingGames(init, markers, localPath, gamesPath) {
      MatchingGamesSound(init, markers, localPath, gamesPath, g);
      var i, j :| 0 <= i < |init| && 0 <= j < |markers|
                  && Contributes(init[i].name, markers[j], localPath, gamesPath, g);
      assert listing[i] == init[i];
    } else {
      FolderEntriesSound(listing[n].name, markers, localPath, gamesPath, g);
      var j :| 0 <= j < |markers| && Contributes(listing[n].name, markers[j], localPath, gamesPath, g);
    }
  }

  /** Every listed name and marker naming it give a listed game. */
  lemma {:induction false} MatchingGamesComplete(listing: seq<DirEntry>, markers: seq<Marker>,
                                                 localPath: Path, gamesPath: Path, i: nat, j: nat)
    requires i < |listing| && j < |markers| && Strip(markers[j].text) == listing[i].name
    ensures EntryFor(listing[i].name, markers[j], localPath, gamesPath)
            in MatchingGames(listing, markers, localPath, gamesPath)
  {
    var n := |listing| - 1;
    var init := listing[..n];
    var e := EntryFor(listing[i].name, markers[j], localPath, gamesPath);
    assert MatchingGames(listing, markers, localPath, gamesPath)
           == MatchingGames(init, markers, localPath, gamesPath)
              + FolderEntries(listing[n].name, markers, localPath, gamesPath);
    if i < n {
      assert init[i] == listing[i];
      MatchingGamesComplete(init, markers, localPath, gamesPath, i, j);
      assert e in MatchingGames(init, markers, localPath, gamesPath);
    } else {
      FolderEntriesComplete(listing[n].name, markers, localPath, gamesPath, j);
      assert e in FolderEntries(listing[n].name, markers, localPath, gamesPath);
    }
  }

  /** A game is listed exactly when it is the entry of a listed name and a
      marker whose stripped text is that name. */
  lemma MatchingGamesMembership(listing: seq<DirEntry>, markers: seq<Marker>,
                                localPath: Path, gamesPath: Path, g: GameEntry)
    ensures g in MatchingGames(listing, markers, localPath, gamesPath) <==>
            exists i, j :: 0 <= i < |listing| && 0 <= j < |markers|
                           && Contributes(listing[i].name, markers[j], localPath, gamesPath, g)
  {
    if g in MatchingGames(listing, markers, localPath, gamesPath) {
      MatchingGamesSound(listing, markers, localPath, gamesPath, g);
    }
    if exists i, j :: 0 <= i < |listing| && 0 <= j < |markers|
                      && Contributes(listing[i].name, markers[j], localPath, gamesPath, g) {
      var i, j :| 0 <= i < |listing| && 0 <= j < |markers|
                  && Contributes(listing[i].name, markers[j], localPath, gamesPath, g);
      MatchingGamesComplete(listing, markers, localPath, gamesPath, i, j);
    }
  }

  // ---------------------------------------------------------------------
  // Choosing a game

  /** `matching_games[int(answer) - 1]` with Python's indexing: `choice` is
      the parsed answer, absent when `int` refused it. The result is absent
      exactly when the source reports "Invalid selection.". */
  function SelectGame(games: seq<GameEntry>, choice: Option<int>): (r: Option<GameEntry>)
    ensures choice.None? ==> r.None?
    ensures choice.Some? && 1 <= choice.value <= |games| ==> r == Some(games[choice.value - 1])
    ensures choice.Some? && -|games| < choice.value <= 0 ==> r == Some(games[|games| + choice.value - 1])
    ensures choice.Some? && (choice.value > |games| || choice.value <= -|games|) ==> r.None?
  {
    match choice
    case None => None
    case Some(n) =>
      var k := n - 1;
      if 0 <= k < |games| then Some(games[k])
      else if -|games| <= k < 0 then Some(games[|games| + k])
      else None
  }

  // ---------------------------------------------------------------------
  // Counts

  /** `sum(1 for ach in local_achievements.values() if ach['earned'])`. */
  function EarnedCount(records: seq<LocalRecord>): (n: nat)
    ensures n <= |records|
    ensures n == 0 <==> forall k :: 0 <= k < |records| ==> !records[k].earned
    ensures n == |records| <==> forall k :: 0 <= k < |records| ==> records[k].earned
  {
    if |records| == 0 then 0
    else
      var rest := EarnedCount(records[1..]);
      assert forall k :: 1 <= k < |records| ==> records[k] == records[1..][k - 1];
      (if records[0].earned then 1 else 0) + rest
  }

  /** The count is the number of earned records. */
  lemma EarnedCountCountsEarned(records: seq<LocalRecord>)
    ensures EarnedCount(records) == |set k | 0 <= k < |records| && records[k].earned|
  {
    EarnedCountFrom(records, 0);
    assert records[0..] == records;
  }

  /** The same count for the records from index `lo` on. */
  lemma {:induction false} EarnedCountFrom(records: seq<LocalRecord>, lo: nat)
    requires lo <= |records|
    ensures EarnedCount(records[lo..]) == |set k | lo <= k < |records| && records[k].earned|
    decreases |records| - lo
  {
    var here := set k | lo <= k < |records| && records[k].earned;
    if lo < |records| {
      EarnedCountFrom(records, lo + 1);
      assert records[lo..][1..] == records[lo + 1..];
      var later := set k | lo + 1 <= k < |records| && records[k].earned;
      if records[lo].earned {
        assert here == later + {lo};
      } else {
        assert here == later;
      }
    } else {
      assert here == {};
    }
  }

  /** The viewer shows nothing earned exactly when the watchdog would find
      no recent achievement in the same file. */
  lemma EarnedCountZeroWhenNothingRecent(records: seq<LocalRecord>)
    ensures EarnedCount(records) == 0 <==> Watchdog.FindRecentAchievement(records).None?
  {
  }

  // ---------------------------------------------------------------------
  // Showing the achievements of the chosen game

  /** The progress line: shown value and target. */
  datatype ProgressLine = ProgressLine(shown: int, maxProgress: int)

  /** What the viewer prints for one achievement: the description is absent
      when the viewer prints "This achievement is hidden.", the progress
      line when it prints none, the earned time when it prints "Not Earned". */
  datatype AchievementView = AchievementView(title: string, description: Option<string>,
                                             progress: Option<ProgressLine>, earned: bool,
                                             earnedTime: Option<int>)

  /** `game_achievement.get('hidden', 0)`. */
  function HiddenFlag(d: Definition): int
  {
    match d.hidden
    case None => 0
    case Some(h) => h
  }

  /** The progress percentage `progress / max_progress` divides by zero:
      an unearned record with a progress line and a zero target. */
  predicate DividesByZero(rec: LocalRecord)
  {
    !rec.earned && rec.progress.Some? && rec.maxProgress == Some(0)
  }

  /** The view of one definition with its local record, or nothing when
      printing it raises: an English text it must print is missing
      (`KeyError`) or its progress percentage divides by zero
      (`ZeroDivisionError`). Either ends the listing. */
  function Present(d: Definition, rec: LocalRecord, nohide: bool): (r: Option<AchievementView>)
    ensures r.Some? <==>
              English in d.displayName
              && ((HiddenFlag(d) == 1 && !rec.earned && !nohide) || English in d.description)
              && !DividesByZero(rec)
    ensures r.Some? ==> r.value.title == d.displayName[English] && r.value.earned == rec.earned
    // the description is withheld exactly for a hidden, unearned achievement without -nohide
    ensures r.Some? ==> (r.value.description.None? <==> HiddenFlag(d) == 1 && !rec.earned && !nohide)
    ensures r.Some? && r.value.description.Some? ==> r.value.description.value == d.description[English]
    // a progress line needs both fields; an earned achievement shows its target as its progress
    ensures r.Some? ==> (r.value.progress.Some? <==> rec.progress.Some? && rec.maxProgress.Some?)
    ensures r.Some? && r.value.progress.Some? ==>
              r.value.progress.value.maxProgress == rec.maxProgress.value
              && r.value.progress.value.shown == (if rec.earned then rec.maxProgress.value else rec.progress.value)
    // `convert_from_unixtime` prints a date only for a positive time
    ensures r.Some? ==> (r.value.earnedTime.Some? <==> rec.earnedTime > 0)
    ensures r.Some? && r.value.earnedTime.Some? ==> r.value.earnedTime.value == rec.earnedTime
  {
    var withheld := HiddenFlag(d) == 1 && !rec.earned && !nohide;
    if English !in d.displayName || (!withheld && English !in d.description) || DividesByZero(rec) then None
    else
      var progress :=
        match (rec.progress, rec.maxProgress)
        case (Some(p), Some(m)) => Some(ProgressLine(if rec.earned then m else p, m))
        case _ => None;
      Some(AchievementView(d.displayName[English],
                           if withheld then None else Some(d.description[English]),
                           progress, rec.earned,
                           if rec.earnedTime > 0 then Some(rec.earnedTime) else None))
  }

  /** The definitions that have a local record of the same name, each with
      that record, in definition order. */
  function Matched(definitions: seq<Definition>, records: seq<LocalRecord>)
    : seq<(Definition, LocalRecord)>
  {
    if |definitions| == 0 then []
    else
      var d := definitions[|definitions| - 1];
      Matched(definitions[..|definitions| - 1], records)
      + match Lookup(records, d.name) case Some(rec) => [(d, rec)] case None => []
  }

  /** The display loop over the definitions, as a function: the views shown
      and whether the loop ran to its end. */
  function Report(definitions: seq<Definition>, records: seq<LocalRecord>, nohide: bool)
    : (seq<AchievementView>, bool)
  {
    if |definitions| == 0 then ([], true)
    else
      var d := definitions[|definitions| - 1];
      var before := Report(definitions[..|definitions| - 1], records, nohide);
      if !before.1 then before
      else match Lookup(records, d.name)
        case None => before
        case Some(rec) =>
          match Present(d, rec, nohide)
          case None => (before.0, false)
          case Some(v) => (before.0 + [v], true)
  }

  /** The display loop of the viewer. */
  method DisplayAchievements(definitions: seq<Definition>, records: seq<LocalRecord>, nohide: bool)
    returns (views: seq<AchievementView>, complete: bool)
    ensures (views, complete) == Report(definitions, records, nohide)
  {
    views := [];
    for i := 0 to |definitions|
      invariant (views, true) == Report(definitions[..i], records, nohide)
    {
      var d := definitions[i];
      assert definitions[..i + 1][..i] == definitions[..i];
      var rec := Lookup(records, d.name);
      if rec.Some? {
        var v := Present(d, rec.value, nohide);
        if v.None? {
          assert Report(definitions[..i + 1], records, nohide) == (views, false);
          ReportStopsAtFailure(definitions, records, nohide, i + 1);
          assert definitions[..|definitions|] == definitions;
          return views, false;
        }
        views := views + [v.value];
      }
    }
    assert definitions[..|definitions|] == definitions;
    complete := true;
  }

  /** Once the loop has stopped, later definitions add nothing. */
  lemma {:induction false} ReportStopsAtFailure(definitions: seq<Definition>, records: seq<LocalRecord>,
                                                nohide: bool, n: nat)
    requires n <= |definitions|
    requires !Report(definitions[..n], records, nohide).1
    ensures Report(definitions, records, nohide) == Report(definitions[..n], records, nohide)
    decreases |definitions| - n
  {
    if n < |definitions| {
      assert definitions[..n + 1][..n] == definitions[..n];
      ReportStopsAtFailure(definitions, records, nohide, n + 1);
    } else {
      assert definitions[..n] == definitions;
    }
  }

  /** The listing shows, in definition order, one view per definition that
      has a local record; it runs to the end exactly when every one of them
      can be shown (`Present` is not none), and otherwise stops just before
      the first that cannot. */
  lemma {:induction false} ReportFollowsMatched(definitions: seq<Definition>, records: seq<LocalRecord>,
                                                nohide: bool)
    ensures var r := Report(definitions, records, nohide);
            var ms := Matched(definitions, records);
            |r.0| <= |ms|
            && (forall k :: 0 <= k < |r.0| ==> Present(ms[k].0, ms[k].1, nohide) == Some(r.0[k]))
            && (r.1 <==> |r.0| == |ms|)
            && (!r.1 ==> Present(ms[|r.0|].0, ms[|r.0|].1, nohide).None?)
  {
    if |definitions| > 0 {
      var init := definitions[..|definitions| - 1];
      ReportFollowsMatched(init, records, nohide);
      var before := Report(init, records, nohide);
      var msInit := Matched(init, records);
      var ms := Matched(definitions, records);
      assert ms[..|msInit|] == msInit;
      if !before.1 {
        assert Present(ms[|before.0|].0, ms[|before.0|].1, nohide).None?;
      }
    }
  }

  /** A definition is matched exactly when a local record has its name. */
  lemma {:induction false} MatchedMembership(definitions: seq<Definition>, records: seq<LocalRecord>,
                                             d: Definition, rec: LocalRecord)
    ensures (d, rec) in Matched(definitions, records) <==> d in definitions && Lookup(records, d.name) == Some(rec)
  {
    if |definitions| > 0 {
      var init := definitions[..|definitions| - 1];
      MatchedMembership(init, records, d, rec);
      assert definitions == init + [definitions[|definitions| - 1]];
    }
  }
}
