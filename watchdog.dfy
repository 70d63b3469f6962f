/** The change-detection core of the watchdog: which achievement of a local
    save file is the most recent, which definitions file a save folder
    belongs to, and the event handler that turns one filesystem event into
    at most one notification request. */
module Watchdog {
  import opened Common
  import opened Records

  /** Seconds within which the same achievement is not announced twice. */
  const DuplicateWindow := 2

  // ---------------------------------------------------------------------
  // find_recent_achievement

  /** `r` is what Python's `max(..., key=earned_time)` picks among the earned
      records of `records[..n]`: nothing when none is earned, otherwise an
      earned record with the greatest time, the first such in order (`max`
      replaces its candidate only on a strictly greater key). */
  ghost predicate IsLatestAmong(records: seq<LocalRecord>, n: nat, r: Option<nat>)
    requires n <= |records|
  {
    match r
    case None => forall k :: 0 <= k < n ==> !records[k].earned
    case Some(i) =>
      i < n && records[i].earned
      && (forall k :: 0 <= k < n && records[k].earned ==> records[k].earnedTime <= records[i].earnedTime)
      && (forall k :: 0 <= k < i && records[k].earned ==> records[k].earnedTime < records[i].earnedTime)
  }

  /** The scan `max` performs over the earned records from position `i` on,
      holding the candidate chosen so far. */
  function LatestFrom(records: seq<LocalRecord>, i: nat, best: Option<nat>): (r: Option<nat>)
    requires i <= |records|
    requires IsLatestAmong(records, i, best)
    ensures IsLatestAmong(records, |records|, r)
    decreases |records| - i
  {
    if i == |records| then best
    else
      var next :=
        if records[i].earned && (best.None? || records[i].earnedTime > records[best.value].earnedTime)
        then Some(i) else best;
      LatestFrom(records, i + 1, next)
  }

  /** `find_recent_achievement`: the name of the latest earned record, or
      nothing when no record is earned. */
  function FindRecentAchievement(records: seq<LocalRecord>): (r: Option<string>)
    ensures r.None? <==> forall k :: 0 <= k < |records| ==> !records[k].earned
    ensures r.Some? ==> exists i :: 0 <= i < |records| && records[i].name == r.value
                                    && IsLatestAmong(records, |records|, Some(i))
  {
    match LatestFrom(records, 0, None)
    case None => None
    case Some(i) => Some(records[i].name)
  }

  // ---------------------------------------------------------------------
  // Matching save folders to markers

  /** Index of the first marker whose stripped text is `folder`. */
  function FirstMarker(markers: seq<Marker>, folder: string): (r: Option<nat>)
    ensures r.None? <==> forall j :: 0 <= j < |markers| ==> Strip(markers[j].text) != folder
    ensures r.Some? ==> r.value < |markers| && Strip(markers[r.value].text) == folder
                        && forall j :: 0 <= j < r.value ==> Strip(markers[j].text) != folder
  {
    if |markers| == 0 then None
    else if Strip(markers[0].text) == folder then Some(0)
    else match FirstMarker(markers[1..], folder)
      case None => None
      case Some(i) => Some(i + 1)
  }

  /** The definitions file a folder resolves to: beside its first marker. */
  function Resolve(markers: seq<Marker>, folder: string): Option<Path>
  {
    match FirstMarker(markers, folder)
    case None => None
    case Some(i) => Some(DefinitionsPath(markers[i]))
  }

  /** The names `os.path.isdir` accepts in a listing of the local saves path. */
  function Directories(listing: seq<DirEntry>): (r: set<string>)
    ensures forall f :: f in r <==> exists i :: 0 <= i < |listing| && listing[i].isDir && listing[i].name == f
  {
    if |listing| == 0 then {}
    else
      var init := listing[..|listing| - 1];
      var last := listing[|listing| - 1];
      var r := Directories(init) + (if last.isDir then {last.name} else {});
      assert forall f :: f in r <==> exists i :: 0 <= i < |listing| && listing[i].isDir && listing[i].name == f
        by {
          forall f ensures f in r <==> exists i :: 0 <= i < |listing| && listing[i].isDir && listing[i].name == f {
            if f in Directories(init) {
              var i :| 0 <= i < |init| && init[i].isDir && init[i].name == f;
              assert listing[i] == init[i];
            }
            if exists i :: 0 <= i < |listing| && listing[i].isDir && listing[i].name == f {
              var i :| 0 <= i < |listing| && listing[i].isDir && listing[i].name == f;
              if i < |init| { assert init[i] == listing[i]; }
            }
          }
        }
      r
  }

  /** Every entry of a cache is the one the markers resolve its folder to. */
  ghost predicate CacheAgrees(cache: map<string, Path>, markers: seq<Marker>)
  {
    forall f :: f in cache ==> Resolve(markers, f) == Some(cache[f])
  }

  /** The scan over the markers that both the start-up index and the
      handler run: stop at the first marker whose stripped text is the
      folder name. */
  method ScanMarkers(markers: seq<Marker>, folder: string) returns (r: Option<nat>)
    ensures r == FirstMarker(markers, folder)
  {
    var j := 0;
    while j < |markers|
      invariant 0 <= j <= |markers|
      invariant forall k :: 0 <= k < j ==> Strip(markers[k].text) != folder
    {
      if Strip(markers[j].text) == folder {
        assert FirstMarker(markers, folder) == Some(j) by {
          var first := FirstMarker(markers, folder);
          assert first.Some? && first.value >= j;
        }
        return Some(j);
      }
      j := j + 1;
    }
    assert FirstMarker(markers, folder) == None;
    return None;
  }

  /** `map_local_folders_to_games`: every directory of the local saves path
      that some marker names, mapped to the definitions file beside the
      first such marker; nothing else. */
  method MapLocalFoldersToGames(listing: seq<DirEntry>, markers: seq<Marker>)
    returns (cache: map<string, Path>)
    ensures forall f :: f in cache <==> f in Directories(listing) && Resolve(markers, f).Some?
    ensures CacheAgrees(cache, markers)
  {
    cache := map[];
    var i := 0;
    while i < |listing|
      invariant 0 <= i <= |listing|
      invariant forall f :: f in cache <==> f in Directories(listing[..i]) && Resolve(markers, f).Some?
      invariant CacheAgrees(cache, markers)
    {
      var entry := listing[i];
      if entry.isDir {
        var found := ScanMarkers(markers, entry.name);
        if found.Some? {
          cache := cache[entry.name := DefinitionsPath(markers[found.value])];
        }
      }
      assert listing[..i + 1][..i] == listing[..i];
      assert Directories(listing[..i + 1]) == Directories(listing[..i]) + (if entry.isDir then {entry.name} else {});
      i := i + 1;
    }
    assert listing[..|listing|] == listing;
  }

  // ---------------------------------------------------------------------
  // AchievementHandler

  /** A create or modify event from the observer. */
  datatype FileEvent = FileEvent(isDirectory: bool, srcPath: Path)

  /** What the handler reads from disk while it handles one event: the
      markers the recursive glob returns at that moment, and the definitions
      files that load (a path absent here fails to load). */
  datatype FileSystem = FileSystem(markers: seq<Marker>, definitionFiles: map<Path, seq<Definition>>)

  /** The arguments of one `send_notification` call. */
  datatype Notification = Notification(title: string, body: string, icon: Option<Path>)

  /** Which way one call of `process_achievement_file` ended. */
  datatype Outcome =
    | Ignored                 // a directory, or not named achievements.json
    | Unresolved              // the folder is new and no marker names it
    | NoRecent                // no earned record, or the latest has an empty name
    | DefinitionsUnreadable   // the definitions file failed to load
    | NoDefinition            // no definition has the latest name
    | Duplicate               // the two-second check refused it
    | TextMissing             // KeyError on the English title or description, raised after the check recorded the name
    | Notified(request: Notification)

  /** The handler's fields. */
  datatype HandlerState = HandlerState(gameCache: map<string, Path>,
                                       lastAchievement: Option<string>,
                                       lastNotificationTime: int)

  /** The handler acts only on a file (not a directory) named achievements.json. */
  predicate IsRelevant(ev: FileEvent)
  {
    !ev.isDirectory && Basename(ev.srcPath) == AchievementsFileName
  }

  /** The save folder an event belongs to: the name of the file's directory. */
  function EventFolder(ev: FileEvent): string
  {
    Basename(Dirname(ev.srcPath))
  }

  /** The condition under which `_check_duplicate` refuses. */
  predicate IsDuplicate(lastAchievement: Option<string>, lastTime: int, name: string, now: int)
  {
    lastAchievement == Some(name) && now - lastTime < DuplicateWindow
  }

  /** `next(ach for ach in definitions if ach['name'] == name)`. */
  function FirstDefinition(definitions: seq<Definition>, name: string): (r: Option<Definition>)
    ensures r.None? <==> forall k :: 0 <= k < |definitions| ==> definitions[k].name != name
    ensures r.Some? ==> exists k :: 0 <= k < |definitions| && definitions[k] == r.value && r.value.name == name
                                    && forall j :: 0 <= j < k ==> definitions[j].name != name
  {
    if |definitions| == 0 then None
    else if definitions[0].name == name then Some(definitions[0])
    else
      var r := FirstDefinition(definitions[1..], name);
      assert r.Some? ==> exists k :: 0 <= k < |definitions| && definitions[k] == r.value
                                     && forall j :: 0 <= j < k ==> definitions[j].name != name
        by {
          if r.Some? {
            var k :| 0 <= k < |definitions[1..]| && definitions[1..][k] == r.value
                     && forall j :: 0 <= j < k ==> definitions[1..][j].name != name;
            assert definitions[k + 1] == r.value;
            assert forall j :: 0 <= j < k + 1 ==> definitions[j].name != name by {
              forall j | 0 <= j < k + 1 ensures definitions[j].name != name {
                if j > 0 { assert definitions[j] == definitions[1..][j - 1]; }
              }
            }
          }
        }
      r
  }

  /** The icon of a notification: the definition's `icon` beside the
      definitions file when it is present and non-empty, otherwise none. */
  function IconPath(d: Definition, definitionsPath: Path): (r: Option<Path>)
    ensures r.Some? <==> d.icon.Some? && d.icon.value != ""
    ensures r.Some? ==> Dirname(r.value) == Dirname(definitionsPath) && Basename(r.value) == d.icon.value
  {
    match d.icon
    case None => None
    case Some(icon) => if icon != "" then Some(Join(Dirname(definitionsPath), icon)) else None
  }

  /** `process_achievement_file` as a function of the handler's state, the
      event, what the disk holds and the clock. `records` is what the
      event's file holds (its load has no error handling, so a failing
      read is outside the model). */
  function Process(s: HandlerState, ev: FileEvent, fs: FileSystem, records: seq<LocalRecord>, now: int)
    : (r: (HandlerState, Outcome))
    // anything but a local achievements.json file is ignored outright
    ensures !IsRelevant(ev) ==> r == (s, Ignored)
    // the cache only grows: known entries keep their value ...
    ensures forall f :: f in s.gameCache ==> f in r.0.gameCache && r.0.gameCache[f] == s.gameCache[f]
    // ... and the only new entry is the event's folder, mapped by its first marker
    ensures forall f :: f in r.0.gameCache && f !in s.gameCache ==>
              IsRelevant(ev) && f == EventFolder(ev) && Resolve(fs.markers, f) == Some(r.0.gameCache[f])
    // a new folder that no marker names changes nothing and notifies nothing
    ensures r.1 == Unresolved <==>
              IsRelevant(ev) && EventFolder(ev) !in s.gameCache && Resolve(fs.markers, EventFolder(ev)).None?
    ensures r.1 == Unresolved ==> r.0 == s
    // past the filter and the cache, the folder has a definitions file
    ensures IsRelevant(ev) && r.1 != Unresolved ==> EventFolder(ev) in r.0.gameCache
    // past the filter and the cache, the checks decide the outcome in the source's order
    ensures IsRelevant(ev) && r.1 != Unresolved ==>
              var recent := FindRecentAchievement(records);
              var path := r.0.gameCache[EventFolder(ev)];
              if recent.None? || recent.value == "" then r.1 == NoRecent
              else if path !in fs.definitionFiles then r.1 == DefinitionsUnreadable
              else if FirstDefinition(fs.definitionFiles[path], recent.value).None? then r.1 == NoDefinition
              else if IsDuplicate(s.lastAchievement, s.lastNotificationTime, recent.value, now) then r.1 == Duplicate
              else r.1.Notified? || r.1 == TextMissing
    // every way of not notifying, with its reason
    ensures r.1 == NoRecent ==>
              FindRecentAchievement(records) == None || FindRecentAchievement(records) == Some("")
    ensures r.1 == DefinitionsUnreadable ==>
              EventFolder(ev) in r.0.gameCache && r.0.gameCache[EventFolder(ev)] !in fs.definitionFiles
    ensures r.1 == NoDefinition ==>
              EventFolder(ev) in r.0.gameCache && r.0.gameCache[EventFolder(ev)] in fs.definitionFiles
              && FindRecentAchievement(records).Some?
              && FirstDefinition(fs.definitionFiles[r.0.gameCache[EventFolder(ev)]],
                                 FindRecentAchievement(records).value).None?
    ensures r.1 == Duplicate ==>
              FindRecentAchievement(records).Some?
              && IsDuplicate(s.lastAchievement, s.lastNotificationTime, FindRecentAchievement(records).value, now)
    // the suppressor changes exactly when the check let a name through, and then records it
    ensures (r.0.lastAchievement != s.lastAchievement || r.0.lastNotificationTime != s.lastNotificationTime)
            <==> (r.1.Notified? || r.1 == TextMissing)
    ensures r.1.Notified? || r.1 == TextMissing ==>
              FindRecentAchievement(records).Some? && FindRecentAchievement(records).value != ""
              && !IsDuplicate(s.lastAchievement, s.lastNotificationTime, FindRecentAchievement(records).value, now)
              && r.0.lastAchievement == FindRecentAchievement(records)
              && r.0.lastNotificationTime == now
    // a notification shows the English texts of the first definition of the latest name
    ensures r.1.Notified? || r.1 == TextMissing ==>
              EventFolder(ev) in r.0.gameCache && r.0.gameCache[EventFolder(ev)] in fs.definitionFiles
              && FirstDefinition(fs.definitionFiles[r.0.gameCache[EventFolder(ev)]],
                                 FindRecentAchievement(records).value).Some?
    ensures r.1.Notified? ==>
              var path := r.0.gameCache[EventFolder(ev)];
              var d := FirstDefinition(fs.definitionFiles[path], FindRecentAchievement(records).value).value;
              English in d.displayName && English in d.description
              && r.1.request == Notification(d.displayName[English], d.description[English], IconPath(d, path))
    ensures r.1 == TextMissing ==>
              var path := r.0.gameCache[EventFolder(ev)];
              var d := FirstDefinition(fs.definitionFiles[path], FindRecentAchievement(records).value).value;
              English !in d.displayName || English !in d.description
  {
    if !IsRelevant(ev) then (s, Ignored)
    else
      var folder := EventFolder(ev);
      if folder !in s.gameCache && Resolve(fs.markers, folder).None? then (s, Unresolved)
      else
        var cache := if folder in s.gameCache then s.gameCache
                     else s.gameCache[folder := Resolve(fs.markers, folder).value];
        var s1 := s.(gameCache := cache);
        var path := cache[folder];
        var recent := FindRecentAchievement(records);
        if recent.None? || recent.value == "" then (s1, NoRecent)
        else if path !in fs.definitionFiles then (s1, DefinitionsUnreadable)
        else
          var d := FirstDefinition(fs.definitionFiles[path], recent.value);
          if d.None? then (s1, NoDefinition)
          else if IsDuplicate(s.lastAchievement, s.lastNotificationTime, recent.value, now) then (s1, Duplicate)
          else
            var s2 := s1.(lastAchievement := Some(recent.value), lastNotificationTime := now);
            if English in d.value.displayName && English in d.value.description then
              (s2, Notified(Notification(d.value.displayName[English], d.value.description[English],
                                         IconPath(d.value, path))))
            else (s2, TextMissing)
  }

  /** `AchievementHandler`: the cache of definitions files by folder and
      the duplicate suppressor, updated in place as events arrive. */
  class AchievementHandler {
    var gameCache: map<string, Path>
    var lastAchievement: Option<string>
    var lastNotificationTime: int

    function State(): HandlerState
      reads this
    {
      HandlerState(gameCache, lastAchievement, lastNotificationTime)
    }

    constructor (gameCache: map<string, Path>)
      ensures State() == HandlerState(gameCache, None, 0)
    {
      this.gameCache := gameCache;
      lastAchievement := None;
      lastNotificationTime := 0;
    }

    method OnModified(ev: FileEvent, fs: FileSystem, records: seq<LocalRecord>, now: int)
      returns (out: Outcome)
      modifies this
      ensures (State(), out) == Process(old(State()), ev, fs, records, now)
    {
      out := ProcessAchievementFile(ev, fs, records, now);
    }

    method OnCreated(ev: FileEvent, fs: FileSystem, records: seq<LocalRecord>, now: int)
      returns (out: Outcome)
      modifies this
      ensures (State(), out) == Process(old(State()), ev, fs, records, now)
    {
      out := ProcessAchievementFile(ev, fs, records, now);
    }

    method ProcessAchievementFile(ev: FileEvent, fs: FileSystem, records: seq<LocalRecord>, now: int)
      returns (out: Outcome)
      modifies this
      ensures (State(), out) == Process(old(State()), ev, fs, records, now)
    {
      if ev.isDirectory || Basename(ev.srcPath) != AchievementsFileName {
        return Ignored;
      }
      var folder := Basename(Dirname(ev.srcPath));
      if folder !in gameCache {
        var found := ScanMarkers(fs.markers, folder);
        if found.None? {
          // the scan's else branch: no marker names the folder
          return Unresolved;
        }
        gameCache := gameCache[folder := DefinitionsPath(fs.markers[found.value])];
      }
      var path := gameCache[folder];
      var recent := FindRecentAchievement(records);
      if recent.None? || recent.value == "" {
        return NoRecent;
      }
      if path !in fs.definitionFiles {
        return DefinitionsUnreadable;
      }
      var d := FirstDefinition(fs.definitionFiles[path], recent.value);
      if d.None? {
        return NoDefinition;
      }
      var allowed := CheckDuplicate(recent.value, now);
      if !allowed {
        return Duplicate;
      }
      var icon := IconPath(d.value, path);
      if English !in d.value.displayName || English !in d.value.description {
        return TextMissing;
      }
      out := Notified(Notification(d.value.displayName[English], d.value.description[English], icon));
    }

    /** `_check_duplicate`: refuses the same name again within the window,
        otherwise records the name and the time. */
    method CheckDuplicate(name: string, now: int) returns (allowed: bool)
      modifies this
      ensures allowed == !IsDuplicate(old(lastAchievement), old(lastNotificationTime), name, now)
      ensures allowed ==> lastAchievement == Some(name) && lastNotificationTime == now
      ensures !allowed ==> lastAchievement == old(lastAchievement)
                           && lastNotificationTime == old(lastNotificationTime)
      ensures gameCache == old(gameCache)
    {
      if lastAchievement == Some(name) && now - lastNotificationTime < DuplicateWindow {
        return false;
      }
      lastAchievement, lastNotificationTime := Some(name), now;
      return true;
    }
  }
}
