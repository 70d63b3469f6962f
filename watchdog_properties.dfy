/** What the handler guarantees over a sequence of events, delivered one at
    a time as the observer thread delivers them. */
module WatchdogProperties {
  import opened Common
  import opened Records
  import opened Watchdog

  /** One event, with what the disk held and the clock read while it was handled. */
  datatype Delivery = Delivery(event: FileEvent, fs: FileSystem, records: seq<LocalRecord>, now: int)

  /** The handler's state and the outcomes after handling `ds` in order.
      A `TextMissing` outcome is a `KeyError` that escapes the handler and
      ends the observer's thread, so no later event is handled. */
  function Run(s: HandlerState, ds: seq<Delivery>): (r: (HandlerState, seq<Outcome>))
    ensures |r.1| <= |ds|
    ensures forall k :: 0 <= k < |r.1| - 1 ==> r.1[k] != TextMissing
    ensures |r.1| < |ds| ==> |r.1| > 0 && r.1[|r.1| - 1] == TextMissing
    decreases |ds|
  {
    if |ds| == 0 then (s, [])
    else
      var step := Process(s, ds[0].event, ds[0].fs, ds[0].records, ds[0].now);
      if step.1 == TextMissing then (step.0, [TextMissing])
      else
        var rest := Run(step.0, ds[1..]);
        assert forall k :: 1 <= k < |rest.1| + 1 ==> ([step.1] + rest.1)[k] == rest.1[k - 1];
        (rest.0, [step.1] + rest.1)
  }

  /** How many outcomes are notifications. */
  function NotifiedCount(os: seq<Outcome>): nat
  {
    if |os| == 0 then 0
    else (if os[0].Notified? then 1 else 0) + NotifiedCount(os[1..])
  }

  /** However many events arrive, no folder ever leaves the cache and no
      cached definitions path ever changes. */
  lemma {:induction false} CacheOnlyGrows(s: HandlerState, ds: seq<Delivery>)
    ensures forall f :: f in s.gameCache ==>
              f in Run(s, ds).0.gameCache && Run(s, ds).0.gameCache[f] == s.gameCache[f]
    decreases |ds|
  {
    if |ds| > 0 {
      var step := Process(s, ds[0].event, ds[0].fs, ds[0].records, ds[0].now);
      if step.1 != TextMissing {
        assert Run(s, ds).0 == Run(step.0, ds[1..]).0;
        CacheOnlyGrows(step.0, ds[1..]);
      }
    }
  }

  /** While the markers stay as they are, every cached folder keeps mapping
      to the definitions file beside its first marker: the start-up index
      (see MapLocalFoldersToGames) and the entries added lazily agree. */
  lemma {:induction false} CacheStaysFirstMatch(s: HandlerState, ds: seq<Delivery>, markers: seq<Marker>)
    requires CacheAgrees(s.gameCache, markers)
    requires forall k :: 0 <= k < |ds| ==> ds[k].fs.markers == markers
    ensures CacheAgrees(Run(s, ds).0.gameCache, markers)
    decreases |ds|
  {
    if |ds| > 0 {
      var step := Process(s, ds[0].event, ds[0].fs, ds[0].records, ds[0].now);
      assert CacheAgrees(step.0.gameCache, markers);
      if step.1 != TextMissing {
        CacheStaysFirstMatch(step.0, ds[1..], markers);
      }
    }
  }

  /** Once the suppressor holds `name` from a time no earlier than `t0`,
      events whose latest achievement is `name`, all before `t0 + 2`, are
      never notified. */
  lemma {:induction false} SuppressedWithinWindow(s: HandlerState, ds: seq<Delivery>, name: string, t0: int)
    requires s.lastAchievement == Some(name) && s.lastNotificationTime >= t0
    requires forall k :: 0 <= k < |ds| ==>
               FindRecentAchievement(ds[k].records) == Some(name) && ds[k].now < t0 + DuplicateWindow
    ensures NotifiedCount(Run(s, ds).1) == 0
    decreases |ds|
  {
    if |ds| > 0 {
      var step := Process(s, ds[0].event, ds[0].fs, ds[0].records, ds[0].now);
      assert !step.1.Notified? && step.1 != TextMissing;
      SuppressedWithinWindow(step.0, ds[1..], name, t0);
      assert Run(s, ds).1 == [step.1] + Run(step.0, ds[1..]).1;
    }
  }

  /** A burst of events, all within two seconds of `t0` and all with the
      same latest achievement, produces at most one notification, whatever
      the handler held before. */
  lemma {:induction false} BurstNotifiesAtMostOnce(s: HandlerState, ds: seq<Delivery>, name: string, t0: int)
    requires forall k :: 0 <= k < |ds| ==>
               FindRecentAchievement(ds[k].records) == Some(name) && t0 <= ds[k].now < t0 + DuplicateWindow
    ensures NotifiedCount(Run(s, ds).1) <= 1
    decreases |ds|
  {
    if |ds| > 0 {
      var step := Process(s, ds[0].event, ds[0].fs, ds[0].records, ds[0].now);
      if step.1.Notified? {
        SuppressedWithinWindow(step.0, ds[1..], name, t0);
      } else if step.1 != TextMissing {
        BurstNotifiesAtMostOnce(step.0, ds[1..], name, t0);
      }
    }
  }

  /** The suppressor is the only guard against repeats: the same event with
      the same file contents, two or more seconds after it was notified, is
      notified again with the same request. */
  lemma RepeatsAfterWindow(s: HandlerState, d: Delivery, later: int)
    requires Process(s, d.event, d.fs, d.records, d.now).1.Notified?
    requires later >= d.now + DuplicateWindow
    ensures var s1 := Process(s, d.event, d.fs, d.records, d.now).0;
            Process(s1, d.event, d.fs, d.records, later).1 == Process(s, d.event, d.fs, d.records, d.now).1
  {
  }
}
