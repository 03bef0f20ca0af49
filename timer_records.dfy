/**
 * Timer records as values: the per-record state machine of the timer
 * component (start, stop, reset, one tick), the history log with its
 * sentinel line, and the registry-level views the component needs (the
 * total of all times, removal by id, id assignment, the JSON image kept
 * in local storage).
 */
module TimerRecords {

  /**
   * One slot of a history array: a logged line, a hole left in a sparse
   * array, or the null that JSON serialisation writes in place of a hole.
   */
  datatype Slot = Text(line: string) | Hole | Null

  /**
   * The placeholder history line of a timer that has not run since creation
   * or reset. It is one line of text; it is written as two literals because
   * the verifier does not look inside a string literal this long, and the
   * proofs need its first character.
   */
  const Sentinel := "No History Found, " + "Click on the start button to track the timer"

  /** The fields of one timer: id, title, elapsed seconds, running flag, history. */
  datatype TimerData = TimerData(id: int, title: string, time: nat, isRunning: bool, history: seq<Slot>)

  // ---------------------------------------------------------------------------
  // History lines

  const StartedPrefix := "Started the timer at "

  /** The line logged when a timer starts; `now` is the locale date text. */
  function ActiveEntry(now: string): string {
    StartedPrefix + now + " (Active)"
  }

  predicate OpensParen(s: string, i: int)
    requires 0 <= i
  {
    i + 1 < |s| && s[i] == ' ' && s[i + 1] == '('
  }

  /** `s.split(' (')[0]`: the text before the first " (", or all of `s` when there is none. */
  function BeforeParen(s: string): (r: string)
    ensures r <= s
  {
    if |s| < 2 then s
    else if s[0] == ' ' && s[1] == '(' then []
    else [s[0]] + BeforeParen(s[1..])
  }

  /** The cut is at the first " (": none before it, one right at it unless nothing was cut. */
  lemma {:induction false} BeforeParenFirst(s: string)
    ensures var r := BeforeParen(s);
      && (forall i :: 0 <= i < |r| ==> !OpensParen(s, i))
      && (|r| < |s| ==> OpensParen(s, |r|))
    decreases |s|
  {
    if |s| >= 2 && !(s[0] == ' ' && s[1] == '(') {
      var rest := BeforeParen(s[1..]);
      BeforeParenFirst(s[1..]);
      assert forall i :: 1 <= i < |rest| + 1 ==> OpensParen(s, i) == OpensParen(s[1..], i - 1);
    }
  }

  /** The line logged when a timer stops: its start time re-read from the last line, then the stop time. */
  function StopEntry(last: string, now: string): string {
    StartedPrefix + BeforeParen(last) + " & Stopped at " + now
  }

  lemma {:induction false} BeforeParenOfSplit(a: string, b: string)
    requires '(' !in a
    ensures BeforeParen(a + " (" + b) == a
    decreases |a|
  {
    var s := a + " (" + b;
    if a != [] {
      assert s[1..] == a[1..] + " (" + b;
      BeforeParenOfSplit(a[1..], b);
    } else {
      assert s[0] == ' ' && s[1] == '(';
    }
  }

  /**
   * The stop line of a session repeats the prefix: re-reading the start
   * line keeps its own "Started the timer at".
   */
  lemma {:induction false} StopEntryOfActive(started: string, now: string)
    requires '(' !in started
    ensures StopEntry(ActiveEntry(started), now)
            == StartedPrefix + StartedPrefix + started + " & Stopped at " + now
  {
    assert ActiveEntry(started) == (StartedPrefix + started) + " (" + "Active)";
    BeforeParenOfSplit(StartedPrefix + started, "Active)");
  }

  /**
   * `deleteInitialHistory`: Array.prototype.filter keeping every entry that
   * is not the sentinel; filter never visits holes, so they go too.
   */
  function DropSentinel(h: seq<Slot>): (r: seq<Slot>)
    ensures Text(Sentinel) !in r && Hole !in r
    ensures |r| <= |h|
  {
    if h == [] then []
    else (if h[0] == Hole || h[0] == Text(Sentinel) then [] else [h[0]]) + DropSentinel(h[1..])
  }

  /** The filter keeps exactly the slots that are neither holes nor the sentinel. */
  lemma {:induction false} DropSentinelMembers(h: seq<Slot>, x: Slot)
    ensures x in DropSentinel(h) <==> x in h && x != Hole && x != Text(Sentinel)
    decreases |h|
  {
    if h != [] {
      assert h == [h[0]] + h[1..];
      DropSentinelMembers(h[1..], x);
    }
  }

  /**
   * The filter works slot by slot and keeps the order: filtering a joined
   * history joins the filtered parts, and a single slot is kept exactly
   * when it is neither a hole nor the sentinel.
   */
  lemma {:induction false} DropSentinelAppend(a: seq<Slot>, b: seq<Slot>)
    ensures DropSentinel(a + b) == DropSentinel(a) + DropSentinel(b)
    decreases |a|
  {
    if a != [] {
      assert (a + b)[1..] == a[1..] + b;
      DropSentinelAppend(a[1..], b);
    } else {
      assert a + b == b;
    }
  }

  lemma {:induction false} DropSentinelSingle(x: Slot)
    ensures DropSentinel([x]) == if x == Hole || x == Text(Sentinel) then [] else [x]
  {
    assert [x][1..] == [];
  }

  /** A history without holes or sentinel passes through the filter unchanged. */
  lemma {:induction false} DropSentinelKeeps(h: seq<Slot>)
    requires Hole !in h && Text(Sentinel) !in h
    ensures DropSentinel(h) == h
  {
    if h != [] {
      assert h == [h[0]] + h[1..];
      DropSentinelKeeps(h[1..]);
    }
  }

  // ---------------------------------------------------------------------------
  // The per-record state machine

  /** The sentinel is either the whole history or absent. */
  predicate SentinelAlone(h: seq<Slot>) {
    Text(Sentinel) in h ==> h == [Text(Sentinel)]
  }

  /** A running timer's last history slot is the line its stop re-reads. */
  predicate StopDefined(d: TimerData) {
    d.isRunning ==> |d.history| > 0 && d.history[|d.history| - 1].Text?
  }

  predicate WellFormed(d: TimerData) {
    && SentinelAlone(d.history)
    && StopDefined(d)
    && (d.isRunning ==> Text(Sentinel) !in d.history)
  }

  /** `startTimer` on the record: nothing if running, else drop the sentinel, log the start, run. */
  function StartRecord(d: TimerData, now: string): (r: TimerData)
    ensures r.isRunning && r.id == d.id && r.title == d.title && r.time == d.time
  {
    if d.isRunning then d
    else d.(isRunning := true, history := DropSentinel(d.history) + [Text(ActiveEntry(now))])
  }

  /**
   * `stopTimer` on the record: nothing if stopped; else stop and write the
   * stop line at index length + 1, which leaves a hole at the old length.
   */
  function StopRecord(d: TimerData, now: string): (r: TimerData)
    requires StopDefined(d)
    ensures !r.isRunning && r.id == d.id && r.title == d.title && r.time == d.time
    ensures d.history <= r.history
  {
    if !d.isRunning then d
    else
      var last := d.history[|d.history| - 1].line;
      d.(isRunning := false, history := d.history + [Hole, Text(StopEntry(last, now))])
  }

  /** `resetTimer` on the record (after its stop): zero time and the sentinel alone. */
  function ResetRecord(d: TimerData): (r: TimerData)
    ensures WellFormed(r) && r.id == d.id && r.title == d.title
  {
    d.(time := 0, isRunning := false, history := [Text(Sentinel)])
  }

  /** One firing of the interval callback: one more second. */
  function TickRecord(d: TimerData): (r: TimerData)
    ensures WellFormed(d) ==> WellFormed(r)
  {
    d.(time := d.time + 1)
  }

  /** A new task as `saveTimer` creates it. */
  function NewRecord(id: int, title: string): (r: TimerData)
    ensures WellFormed(r)
  {
    TimerData(id, title, 0, false, [Text(Sentinel)])
  }

  lemma {:induction false} StartRunning(d: TimerData, now: string)
    requires d.isRunning
    ensures StartRecord(d, now) == d
  {
  }

  /** Starting a stopped timer: running, time kept, sentinel and holes gone, one start line last. */
  lemma {:induction false} StartStopped(d: TimerData, now: string)
    requires !d.isRunning
    ensures var r := StartRecord(d, now);
      && r.isRunning && r.id == d.id && r.title == d.title && r.time == d.time
      && Text(Sentinel) !in r.history && Hole !in r.history[..|r.history| - 1]
      && r.history[|r.history| - 1] == Text(ActiveEntry(now))
      && r.history[..|r.history| - 1] == DropSentinel(d.history)
  {
    var r := StartRecord(d, now);
    assert r.history[..|r.history| - 1] == DropSentinel(d.history);
    assert ActiveEntry(now)[0] == 'S';
    assert Sentinel[0] == 'N';
  }

  /** A second start before any stop changes nothing. */
  lemma {:induction false} StartIdempotent(d: TimerData, a: string, b: string)
    ensures StartRecord(StartRecord(d, a), b) == StartRecord(d, a)
  {
  }

  lemma {:induction false} StopStopped(d: TimerData, now: string)
    requires !d.isRunning
    ensures StopRecord(d, now) == d
  {
  }

  /**
   * Stopping a running timer keeps its time and every earlier slot, and
   * grows the history by two: a hole, then the stop line.
   */
  lemma {:induction false} StopRunning(d: TimerData, now: string)
    requires d.isRunning && StopDefined(d)
    ensures var r, n := StopRecord(d, now), |d.history|;
      && !r.isRunning && r.id == d.id && r.title == d.title && r.time == d.time
      && |r.history| == n + 2 && r.history[..n] == d.history
      && r.history[n] == Hole
      && r.history[n + 1] == Text(StopEntry(d.history[n - 1].line, now))
  {
    var r, n := StopRecord(d, now), |d.history|;
    assert r.history[..n] == d.history;
  }

  /** Whatever the prior state, a reset leaves the same record; the stop before it leaves no trace. */
  lemma {:induction false} ResetForgets(d: TimerData, now: string)
    requires StopDefined(d)
    ensures var r := ResetRecord(StopRecord(d, now));
      && r == ResetRecord(d)
      && r.time == 0 && !r.isRunning && r.history == [Text(Sentinel)]
      && r.id == d.id && r.title == d.title
  {
  }

  lemma {:induction false} TickOnlyTime(d: TimerData)
    ensures var r := TickRecord(d);
      r.time == d.time + 1 && r.(time := d.time) == d
  {
  }

  /** Every transition keeps a record well formed. */
  lemma {:induction false} WellFormedPreserved(d: TimerData, now: string)
    requires WellFormed(d)
    ensures WellFormed(StartRecord(d, now))
    ensures WellFormed(StopRecord(d, now))
    ensures WellFormed(ResetRecord(d))
    ensures WellFormed(TickRecord(d))
  {
    if !d.isRunning {
      StartStopped(d, now);
    } else {
      var r := StopRecord(d, now);
      assert StopEntry(d.history[|d.history| - 1].line, now)[0] == 'S';
      assert Sentinel[0] == 'N';
      assert Text(Sentinel) !in r.history;
    }
  }

  // ---------------------------------------------------------------------------
  // A session trace: the time equals the seconds that passed with a live interval

  /** What can happen to one timer: a start, a stop, or one second passing. */
  datatype Event = Begin(now: string) | End(now: string) | Second

  /**
   * The record after the events, where `scheduled` tells whether its
   * interval is live. A start registers an interval only on a stopped
   * record; a record already flagged running (as after a reload) keeps
   * whatever it had. A stop clears it, and a second passing ticks the
   * record only while its interval is live.
   */
  function Replay(d: TimerData, scheduled: bool, evs: seq<Event>): (r: TimerData)
    requires WellFormed(d) && (scheduled ==> d.isRunning)
    ensures WellFormed(r)
    decreases |evs|
  {
    if evs == [] then d
    else
      WellFormedPreserved(d, if evs[0].Second? then "" else evs[0].now);
      match evs[0]
      case Begin(now) => Replay(StartRecord(d, now), scheduled || !d.isRunning, evs[1..])
      case End(now) => Replay(StopRecord(d, now), false, evs[1..])
      case Second => Replay(if scheduled then TickRecord(d) else d, scheduled, evs[1..])
  }

  /** The seconds that pass while an interval is live, following only the flags. */
  function ScheduledSeconds(running: bool, scheduled: bool, evs: seq<Event>): nat
    decreases |evs|
  {
    if evs == [] then 0
    else
      match evs[0]
      case Begin(_) => ScheduledSeconds(true, scheduled || !running, evs[1..])
      case End(_) => ScheduledSeconds(false, false, evs[1..])
      case Second => (if scheduled then 1 else 0) + ScheduledSeconds(running, scheduled, evs[1..])
  }

  /** The seconds that pass while the running flag is set. */
  function RunningSeconds(running: bool, evs: seq<Event>): nat
    decreases |evs|
  {
    if evs == [] then 0
    else
      match evs[0]
      case Begin(_) => RunningSeconds(true, evs[1..])
      case End(_) => RunningSeconds(false, evs[1..])
      case Second => (if running then 1 else 0) + RunningSeconds(running, evs[1..])
  }

  lemma {:induction false} ReplayTime(d: TimerData, scheduled: bool, evs: seq<Event>)
    requires WellFormed(d) && (scheduled ==> d.isRunning)
    ensures Replay(d, scheduled, evs).time == d.time + ScheduledSeconds(d.isRunning, scheduled, evs)
    decreases |evs|
  {
    if evs != [] {
      WellFormedPreserved(d, if evs[0].Second? then "" else evs[0].now);
      match evs[0]
      case Begin(now) => ReplayTime(StartRecord(d, now), scheduled || !d.isRunning, evs[1..]);
      case End(now) => ReplayTime(StopRecord(d, now), false, evs[1..]);
      case Second => ReplayTime(if scheduled then TickRecord(d) else d, scheduled, evs[1..]);
    }
  }

  /** While the interval matches the flag, the live seconds are the running seconds. */
  lemma {:induction false} ScheduledWhileRunning(running: bool, evs: seq<Event>)
    ensures ScheduledSeconds(running, running, evs) == RunningSeconds(running, evs)
    decreases |evs|
  {
    if evs != [] {
      match evs[0]
      case Begin(_) => ScheduledWhileRunning(true, evs[1..]);
      case End(_) => ScheduledWhileRunning(false, evs[1..]);
      case Second => ScheduledWhileRunning(running, evs[1..]);
    }
  }

  /** A record whose interval is live exactly when it runs gains the seconds it spends running. */
  lemma {:induction false} ReplaySynced(d: TimerData, evs: seq<Event>)
    requires WellFormed(d)
    ensures Replay(d, d.isRunning, evs).time == d.time + RunningSeconds(d.isRunning, evs)
  {
    ReplayTime(d, d.isRunning, evs);
    ScheduledWhileRunning(d.isRunning, evs);
  }

  /** Without a stop, a running record without a live interval never gains a second. */
  lemma {:induction false} StaleUntilStopped(running: bool, evs: seq<Event>)
    requires running && forall i :: 0 <= i < |evs| ==> !evs[i].End?
    ensures ScheduledSeconds(running, false, evs) == 0
    decreases |evs|
  {
    if evs != [] {
      StaleUntilStopped(true, evs[1..]);
    }
  }

  /**
   * A record reloaded while running has no interval: starts and seconds
   * leave its time as it is until it is stopped.
   */
  lemma {:induction false} ReloadedRunningFrozen(d: TimerData, evs: seq<Event>)
    requires WellFormed(d) && d.isRunning
    requires forall i :: 0 <= i < |evs| ==> !evs[i].End?
    ensures Replay(d, false, evs).time == d.time
  {
    ReplayTime(d, false, evs);
    StaleUntilStopped(true, evs);
  }

  // ---------------------------------------------------------------------------
  // The registry as a sequence of records

  /** The `reduce` of calculateTotalTime: the sum of all times, left to right. */
  function TotalSeconds(ts: seq<TimerData>): nat {
    if ts == [] then 0 else TotalSeconds(ts[..|ts| - 1]) + ts[|ts| - 1].time
  }

  /** Replacing one record changes the total by the difference of the two times. */
  lemma {:induction false} TotalSecondsUpdate(ts: seq<TimerData>, k: nat, d: TimerData)
    requires k < |ts|
    ensures TotalSeconds(ts[k := d]) == TotalSeconds(ts) - ts[k].time + d.time
    decreases |ts|
  {
    var n := |ts| - 1;
    if k < n {
      assert ts[k := d][..n] == ts[..n][k := d];
      TotalSecondsUpdate(ts[..n], k, d);
    } else {
      assert ts[k := d][..n] == ts[..n];
    }
  }

  /** Ids strictly increase along the registry (insertion order). */
  predicate StrictlyIncreasing(ts: seq<TimerData>) {
    forall i, j :: 0 <= i < j < |ts| ==> ts[i].id < ts[j].id
  }

  /** What the registry must look like for the component to work with it. */
  predicate Loadable(ts: seq<TimerData>) {
    StrictlyIncreasing(ts) && forall i :: 0 <= i < |ts| ==> WellFormed(ts[i])
  }

  /** Replacing one record by a well-formed one with the same id keeps the registry loadable. */
  lemma {:induction false} LoadableUpdate(ts: seq<TimerData>, k: nat, d: TimerData)
    requires Loadable(ts) && k < |ts| && d.id == ts[k].id && WellFormed(d)
    ensures Loadable(ts[k := d])
  {
    var us := ts[k := d];
    assert forall i :: 0 <= i < |us| ==> us[i].id == ts[i].id;
  }

  /** The ids of the running records, collected front to back. */
  function RunningIds(ts: seq<TimerData>): set<int> {
    if ts == [] then {}
    else RunningIds(ts[..|ts| - 1]) + (if ts[|ts| - 1].isRunning then {ts[|ts| - 1].id} else {})
  }

  /** An id is running exactly when some running record carries it. */
  lemma {:induction false} RunningIdsIn(ts: seq<TimerData>, x: int)
    ensures x in RunningIds(ts) <==> exists i :: 0 <= i < |ts| && ts[i].isRunning && ts[i].id == x
    decreases |ts|
  {
    if ts != [] {
      var n := |ts| - 1;
      var front := ts[..n];
      RunningIdsIn(front, x);
      if x in RunningIds(front) {
        var i :| 0 <= i < n && front[i].isRunning && front[i].id == x;
        assert ts[i] == front[i];
      }
      if exists i :: 0 <= i < |ts| && ts[i].isRunning && ts[i].id == x {
        var i :| 0 <= i < |ts| && ts[i].isRunning && ts[i].id == x;
        if i < n {
          assert front[i] == ts[i];
        }
      }
    }
  }

  /** With unique ids, a record's id is among the running ids exactly when that record runs. */
  lemma {:induction false} RunningIdsMember(ts: seq<TimerData>, k: nat)
    requires StrictlyIncreasing(ts) && k < |ts|
    ensures ts[k].id in RunningIds(ts) <==> ts[k].isRunning
  {
    RunningIdsIn(ts, ts[k].id);
    if ts[k].id in RunningIds(ts) {
      var i :| 0 <= i < |ts| && ts[i].isRunning && ts[i].id == ts[k].id;
      assert i == k;
    }
  }

  /** Replacing one record moves only its own id in or out of the running ids. */
  lemma {:induction false} RunningIdsUpdate(ts: seq<TimerData>, k: nat, d: TimerData)
    requires StrictlyIncreasing(ts) && k < |ts| && d.id == ts[k].id
    ensures RunningIds(ts[k := d]) == if d.isRunning then RunningIds(ts) + {d.id} else RunningIds(ts) - {d.id}
  {
    var us := ts[k := d];
    var expected := if d.isRunning then RunningIds(ts) + {d.id} else RunningIds(ts) - {d.id};
    forall x ensures x in RunningIds(us) <==> x in expected {
      RunningIdsIn(us, x);
      RunningIdsIn(ts, x);
      if x == d.id {
        if x in RunningIds(us) {
          var i :| 0 <= i < |us| && us[i].isRunning && us[i].id == x;
          assert i == k;
        }
        assert d.isRunning ==> us[k].isRunning && us[k].id == x;
      } else {
        if x in RunningIds(us) {
          var i :| 0 <= i < |us| && us[i].isRunning && us[i].id == x;
          assert i != k && ts[i] == us[i];
        }
        if x in RunningIds(ts) {
          var i :| 0 <= i < |ts| && ts[i].isRunning && ts[i].id == x;
          assert i != k && us[i] == ts[i];
        }
      }
    }
  }

  /** No id is running exactly when no record is. */
  lemma {:induction false} RunningIdsEmpty(ts: seq<TimerData>)
    ensures RunningIds(ts) == {} <==> !AnyRunning(ts)
  {
    if AnyRunning(ts) {
      var i :| 0 <= i < |ts| && ts[i].isRunning;
      RunningIdsIn(ts, ts[i].id);
    } else {
      forall x | x in RunningIds(ts) ensures false {
        RunningIdsIn(ts, x);
      }
    }
  }

  predicate AnyRunning(ts: seq<TimerData>) {
    exists i :: 0 <= i < |ts| && ts[i].isRunning
  }

  /** `filter(t => t.id !== id)`: every record with another id, in the original order. */
  function WithoutId(ts: seq<TimerData>, id: int): (r: seq<TimerData>)
    ensures |r| <= |ts|
  {
    if ts == [] then []
    else (if ts[0].id == id then [] else [ts[0]]) + WithoutId(ts[1..], id)
  }

  /** The filter keeps exactly the records whose id differs. */
  lemma {:induction false} WithoutIdMembers(ts: seq<TimerData>, id: int)
    ensures forall d :: d in WithoutId(ts, id) <==> d in ts && d.id != id
    decreases |ts|
  {
    if ts != [] {
      WithoutIdMembers(ts[1..], id);
      assert ts == [ts[0]] + ts[1..];
    }
  }

  /** With unique ids, deletion takes out exactly the one record with that id and keeps the order. */
  lemma {:induction false} WithoutIdRemovesOne(ts: seq<TimerData>, k: nat)
    requires StrictlyIncreasing(ts) && k < |ts|
    ensures WithoutId(ts, ts[k].id) == ts[..k] + ts[k + 1..]
    ensures |WithoutId(ts, ts[k].id)| == |ts| - 1
    decreases |ts|
  {
    var id, tail := ts[k].id, ts[1..];
    assert WithoutId(ts, id) == (if ts[0].id == id then [] else [ts[0]]) + WithoutId(tail, id);
    TailIncreasing(ts);
    if k == 0 {
      WithoutIdAbsent(tail, id);
      assert ts[..0] + ts[1..] == tail;
    } else {
      WithoutIdRemovesOne(tail, k - 1);
      assert tail[k - 1] == ts[k];
      ConsRemoved(ts, k);
    }
  }

  lemma {:induction false} TailIncreasing(ts: seq<TimerData>)
    requires StrictlyIncreasing(ts) && |ts| > 0
    ensures StrictlyIncreasing(ts[1..])
    ensures forall i :: 0 <= i < |ts| - 1 ==> ts[0].id < ts[1..][i].id
  {
    var tail := ts[1..];
    forall i, j | 0 <= i < j < |tail| ensures tail[i].id < tail[j].id {
      assert tail[i] == ts[i + 1] && tail[j] == ts[j + 1];
    }
    forall i | 0 <= i < |tail| ensures ts[0].id < tail[i].id {
      assert tail[i] == ts[i + 1];
    }
  }

  lemma {:induction false} ConsRemoved(ts: seq<TimerData>, k: nat)
    requires 0 < k < |ts|
    ensures [ts[0]] + (ts[1..][..k - 1] + ts[1..][k..]) == ts[..k] + ts[k + 1..]
  {
    assert ts[1..][..k - 1] == ts[1..k] && ts[1..][k..] == ts[k + 1..];
    assert ts[..k] == [ts[0]] + ts[1..k];
  }

  /** Filtering an id below every id in the registry keeps it whole. */
  lemma {:induction false} WithoutIdAbsent(ts: seq<TimerData>, id: int)
    requires forall i :: 0 <= i < |ts| ==> id < ts[i].id
    ensures WithoutId(ts, id) == ts
    decreases |ts|
  {
    if ts != [] {
      WithoutIdAbsent(ts[1..], id);
      assert ts == [ts[0]] + ts[1..];
    }
  }

  /** The counter `loadTimers` restores: one past the last record's id, or unchanged when empty. */
  function NextCounter(ts: seq<TimerData>, counter: int): (r: int)
    ensures StrictlyIncreasing(ts) ==> forall i :: 0 <= i < |ts| ==> ts[i].id < r
  {
    if |ts| > 0 then ts[|ts| - 1].id + 1 else counter
  }

  /**
   * Deleting the record with the highest id and reloading the saved image
   * restores a counter no higher than that id, so a later new task can be
   * given the deleted id again.
   */
  lemma {:induction false} ReloadAfterDeleteLast(ts: seq<TimerData>)
    requires Loadable(ts) && |ts| > 0 && 0 <= ts[|ts| - 1].id
    ensures NextCounter(Persist(WithoutId(ts, ts[|ts| - 1].id)), 0) <= ts[|ts| - 1].id
  {
    var n := |ts| - 1;
    DeleteInRegistry(ts, n);
    var us := WithoutId(ts, ts[n].id);
    assert us == ts[..n];
    if n > 0 {
      assert us[n - 1] == ts[n - 1];
    }
  }

  /** Ids 0, 1, 2; delete 2 and reload: the next new task gets id 2 again. */
  lemma IdReuseExample()
    ensures var ts := [NewRecord(0, "a"), NewRecord(1, "b"), NewRecord(2, "c")];
      NextCounter(Persist(WithoutId(ts, 2)), 0) == 2
  {
    var ts := [NewRecord(0, "a"), NewRecord(1, "b"), NewRecord(2, "c")];
    WithoutIdRemovesOne(ts, 2);
    assert WithoutId(ts, 2) == ts[..2];
  }

  /**
   * Appending a new task under an id above the last one keeps the registry
   * loadable, takes an id no record has, and changes neither the running
   * ids nor the total.
   */
  lemma {:induction false} AppendNew(ts: seq<TimerData>, counter: int, title: string)
    requires Loadable(ts) && (|ts| > 0 ==> ts[|ts| - 1].id < counter)
    ensures var us := ts + [NewRecord(counter, title)];
      && Loadable(us)
      && (forall i :: 0 <= i < |ts| ==> ts[i].id != counter)
      && RunningIds(us) == RunningIds(ts)
      && TotalSeconds(us) == TotalSeconds(ts)
  {
    var us := ts + [NewRecord(counter, title)];
    assert forall i :: 0 <= i < |ts| ==> us[i] == ts[i];
    if |ts| > 0 {
      assert forall i :: 0 <= i < |ts| ==> ts[i].id <= ts[|ts| - 1].id;
    }
    assert us[..|us| - 1] == ts;
  }

  /**
   * Replacing one record of a loadable registry by a well-formed record
   * with the same id: still loadable, the running ids follow the new
   * record's flag, and the total moves by the difference of the times.
   */
  lemma {:induction false} UpdateInRegistry(ts: seq<TimerData>, k: nat, d: TimerData)
    requires Loadable(ts) && k < |ts| && d.id == ts[k].id && WellFormed(d)
    ensures var us := ts[k := d];
      && Loadable(us)
      && RunningIds(us) == (if d.isRunning then RunningIds(ts) + {d.id} else RunningIds(ts) - {d.id})
      && TotalSeconds(us) == TotalSeconds(ts) - ts[k].time + d.time
      && us[|us| - 1].id == ts[|ts| - 1].id
  {
    LoadableUpdate(ts, k, d);
    RunningIdsUpdate(ts, k, d);
    TotalSecondsUpdate(ts, k, d);
  }

  /** The rest of a registry without its record at `k`, in order, is still loadable. */
  lemma {:induction false} RemoveKeepsLoadable(ts: seq<TimerData>, k: nat)
    requires Loadable(ts) && k < |ts|
    ensures Loadable(ts[..k] + ts[k + 1..])
  {
    var us := ts[..k] + ts[k + 1..];
    forall i | 0 <= i < |us| ensures us[i] == ts[if i < k then i else i + 1] {}
    forall i, j | 0 <= i < j < |us| ensures us[i].id < us[j].id {
      assert us[i] == ts[if i < k then i else i + 1] && us[j] == ts[if j < k then j else j + 1];
    }
  }

  /** With unique ids, removing the record at `k` removes exactly its id from the running ids. */
  lemma {:induction false} RemoveRunningIds(ts: seq<TimerData>, k: nat)
    requires StrictlyIncreasing(ts) && k < |ts|
    ensures RunningIds(ts[..k] + ts[k + 1..]) == RunningIds(ts) - {ts[k].id}
  {
    var us := ts[..k] + ts[k + 1..];
    assert forall i :: 0 <= i < |us| ==> us[i] == ts[if i < k then i else i + 1];
    forall x ensures x in RunningIds(us) <==> x in RunningIds(ts) && x != ts[k].id {
      RemoveRunningIdsAt(ts, us, k, x);
    }
  }

  /** One id at a time: `us` is `ts` without position `k`. */
  lemma {:induction false} RemoveRunningIdsAt(ts: seq<TimerData>, us: seq<TimerData>, k: nat, x: int)
    requires StrictlyIncreasing(ts) && k < |ts| && |us| == |ts| - 1
    requires forall i :: 0 <= i < |us| ==> us[i] == ts[if i < k then i else i + 1]
    ensures x in RunningIds(us) <==> x in RunningIds(ts) && x != ts[k].id
  {
    RunningIdsIn(us, x);
    RunningIdsIn(ts, x);
    if x in RunningIds(us) {
      var i :| 0 <= i < |us| && us[i].isRunning && us[i].id == x;
      assert us[i] == ts[if i < k then i else i + 1];
    }
    if x in RunningIds(ts) && x != ts[k].id {
      var j :| 0 <= j < |ts| && ts[j].isRunning && ts[j].id == x;
      var i := if j < k then j else j - 1;
      assert us[i] == ts[j];
    }
  }

  /**
   * Deleting the record at `k` of a loadable registry by its id: the rest,
   * in order, still loadable, without that id among the running ones.
   */
  lemma {:induction false} DeleteInRegistry(ts: seq<TimerData>, k: nat)
    requires Loadable(ts) && k < |ts|
    ensures var us := WithoutId(ts, ts[k].id);
      && us == ts[..k] + ts[k + 1..]
      && Loadable(us)
      && RunningIds(us) == RunningIds(ts) - {ts[k].id}
      && (|us| > 0 ==> us[|us| - 1].id <= ts[|ts| - 1].id)
  {
    WithoutIdRemovesOne(ts, k);
    RemoveKeepsLoadable(ts, k);
    RemoveRunningIds(ts, k);
    var us := ts[..k] + ts[k + 1..];
    if |us| > 0 {
      assert us[|us| - 1] == ts[if |us| - 1 < k then |us| - 1 else |us|];
    }
  }

  // ---------------------------------------------------------------------------
  // The JSON image in local storage

  /** JSON.stringify writes each hole of a history array as null. */
  function PersistHistory(h: seq<Slot>): (r: seq<Slot>)
    ensures |r| == |h| && Hole !in r
    ensures forall i :: 0 <= i < |h| ==> (h[i] == Hole ==> r[i] == Null) && (h[i] != Hole ==> r[i] == h[i])
    ensures Hole !in h ==> r == h
  {
    seq(|h|, i requires 0 <= i < |h| => if h[i] == Hole then Null else h[i])
  }

  function PersistRecord(d: TimerData): TimerData {
    d.(history := PersistHistory(d.history))
  }

  /**
   * The image of the list: every record keeps its id, title, time and
   * flag, and its history is written with each hole as null.
   */
  function Persist(ts: seq<TimerData>): (r: seq<TimerData>)
    ensures |r| == |ts|
    ensures forall i :: 0 <= i < |ts| ==>
      && r[i].id == ts[i].id && r[i].title == ts[i].title
      && r[i].time == ts[i].time && r[i].isRunning == ts[i].isRunning
      && r[i].history == PersistHistory(ts[i].history)
  {
    seq(|ts|, i requires 0 <= i < |ts| => PersistRecord(ts[i]))
  }

  /** Writing a stored image again changes nothing. */
  lemma {:induction false} PersistIdempotent(ts: seq<TimerData>)
    ensures Persist(Persist(ts)) == Persist(ts)
  {
    forall i | 0 <= i < |ts|
      ensures PersistRecord(PersistRecord(ts[i])) == PersistRecord(ts[i])
    {
      var h := ts[i].history;
      assert PersistHistory(PersistHistory(h)) == PersistHistory(h);
    }
  }

  /** The stored image of a loadable list is loadable, with the same total and the same running state. */
  lemma {:induction false} PersistKeeps(ts: seq<TimerData>)
    ensures Loadable(ts) ==> Loadable(Persist(ts))
    ensures TotalSeconds(Persist(ts)) == TotalSeconds(ts)
    ensures AnyRunning(Persist(ts)) == AnyRunning(ts)
  {
    if Loadable(ts) {
      forall i | 0 <= i < |ts| ensures WellFormed(Persist(ts)[i]) {
        var d, h := ts[i], ts[i].history;
        var p := PersistHistory(h);
        assert Text(Sentinel) in p ==> Text(Sentinel) in h;
        if Text(Sentinel) in h {
          assert h == [Text(Sentinel)];
        }
      }
    }
    PersistTotal(ts);
    if AnyRunning(ts) {
      var i :| 0 <= i < |ts| && ts[i].isRunning;
      assert Persist(ts)[i].isRunning;
    }
  }

  lemma {:induction false} PersistTotal(ts: seq<TimerData>)
    ensures TotalSeconds(Persist(ts)) == TotalSeconds(ts)
    decreases |ts|
  {
    if ts != [] {
      var n := |ts| - 1;
      assert Persist(ts)[..n] == Persist(ts[..n]);
      PersistTotal(ts[..n]);
    }
  }

  /**
   * A hole and the null it becomes behave differently at the next start:
   * in memory the filter skips the hole, after a reload it keeps the null.
   */
  lemma {:induction false} HoleVersusNull(a: string, b: string)
    requires a != Sentinel && b != Sentinel
    ensures DropSentinel([Text(a), Hole, Text(b)]) == [Text(a), Text(b)]
    ensures DropSentinel(PersistHistory([Text(a), Hole, Text(b)])) == [Text(a), Null, Text(b)]
  {
    var h := [Text(a), Hole, Text(b)];
    assert h[1..] == [Hole, Text(b)] && h[1..][1..] == [Text(b)] && h[1..][1..][1..] == [];
    assert Text(a) != Text(Sentinel) && Text(b) != Text(Sentinel);
    assert DropSentinel([Text(b)]) == [Text(b)];
    assert DropSentinel([Hole, Text(b)]) == [Text(b)];
    var p := PersistHistory(h);
    assert p == [Text(a), Null, Text(b)];
    assert p[1..] == [Null, Text(b)] && p[1..][1..] == [Text(b)];
    assert DropSentinel([Null, Text(b)]) == [Null, Text(b)];
  }
}
