/**
 * The timer component: the ordered list of timers, the set of timer ids
 * that have a live interval, the id counter, the total-time text it
 * publishes, and the image it keeps in local storage.
 *
 * A timer of the list is addressed by its position: the template hands a
 * method the timer object it rendered, which is the list's element at that
 * position, and every update the source makes to that object is an update
 * of the list at that position.
 */
module TimerComponents {
  import opened Options
  import opened TimeFormat
  import opened TimerRecords

  /**
   * The component's invariant, on its list, its handle keys and its
   * counter: ids increase along the list and stay below the counter, every
   * record is well formed, and every handle belongs to a running timer.
   */
  ghost predicate Consistent(ts: seq<TimerData>, ids: set<int>, counter: int) {
    && Loadable(ts)
    && (|ts| > 0 ==> ts[|ts| - 1].id < counter)
    && ids <= RunningIds(ts)
  }

  /** Every running timer has its handle. */
  ghost predicate Covered(ts: seq<TimerData>, ids: set<int>) {
    RunningIds(ts) <= ids
  }

  /**
   * Replacing the record at `k` by a well-formed one with the same id, and
   * the handle keys by a set that gains at most that id and holds it only
   * for a running record, keeps the invariant; the total moves by the
   * difference of the times; and every running timer keeps its handle when
   * the new keys keep the other ids and hold this one when it runs.
   */
  lemma {:induction false} ReplaceKeeps(
    ts: seq<TimerData>, ids: set<int>, counter: int, k: nat, d: TimerData, ids2: set<int>)
    requires Consistent(ts, ids, counter) && k < |ts| && d.id == ts[k].id && WellFormed(d)
    requires ids2 <= ids + {d.id} && (d.isRunning || d.id !in ids2)
    ensures Consistent(ts[k := d], ids2, counter)
    ensures TotalSeconds(ts[k := d]) == TotalSeconds(ts) - ts[k].time + d.time
    ensures Covered(ts, ids) && ids - {d.id} <= ids2 && (d.isRunning ==> d.id in ids2) ==> Covered(ts[k := d], ids2)
  {
    UpdateInRegistry(ts, k, d);
  }

  /** Dropping a record whose id has no handle keeps the invariant and the coverage. */
  lemma {:induction false} DeleteKeeps(ts: seq<TimerData>, ids: set<int>, counter: int, k: nat)
    requires Consistent(ts, ids, counter) && k < |ts| && ts[k].id !in ids
    ensures WithoutId(ts, ts[k].id) == ts[..k] + ts[k + 1..]
    ensures Consistent(ts[..k] + ts[k + 1..], ids, counter)
    ensures Covered(ts, ids) ==> Covered(ts[..k] + ts[k + 1..], ids)
  {
    DeleteInRegistry(ts, k);
  }

  /** Replacing record `k` does not change what remains once it is dropped. */
  lemma {:induction false} DropReplaced(ts: seq<TimerData>, k: nat, d: TimerData)
    requires k < |ts|
    ensures ts[k := d][..k] + ts[k := d][k + 1..] == ts[..k] + ts[k + 1..]
  {
    assert ts[k := d][..k] == ts[..k] && ts[k := d][k + 1..] == ts[k + 1..];
  }

  /** The first `i` records of `start` stopped at `now`, the rest untouched. */
  ghost predicate StoppedBefore(start: seq<TimerData>, ts: seq<TimerData>, i: nat, now: string) {
    && |ts| == |start| && i <= |ts|
    && (forall k :: 0 <= k < |ts| ==> StopDefined(start[k]))
    && (forall k :: 0 <= k < |ts| ==> ts[k] == if k < i then StopRecord(start[k], now) else start[k])
  }

  lemma {:induction false} StoppedStep(start: seq<TimerData>, ts: seq<TimerData>, i: nat, now: string)
    requires StoppedBefore(start, ts, i, now) && i < |ts|
    ensures StopDefined(ts[i]) && StoppedBefore(start, ts[i := StopRecord(ts[i], now)], i + 1, now)
  {
  }

  class TimerComponent {
    var timers: seq<TimerData>
    /**
     * The keys of the interval-handle table. The handle itself is opaque;
     * the callback behind the handle under key `id` ticks the timer with
     * that id (see Tick).
     */
    var intervalIds: set<int>
    var timerIdCounter: int
    /** The shared total-time cell of the service that calculateTotalTime writes. */
    var totalTimeSpend: string
    /** The 'timers' key of local storage; None when absent or storage is unavailable. */
    var storage: Option<seq<TimerData>>

    /**
     * Ids increase along the list and stay below the counter, every record
     * is well formed, and every handle belongs to a running timer.
     */
    ghost predicate Valid()
      reads this`timers, this`intervalIds, this`timerIdCounter
    {
      Consistent(timers, intervalIds, timerIdCounter)
    }

    /** Every running timer has its handle: false after reloading a record saved while running. */
    ghost predicate Synced()
      reads this`timers, this`intervalIds
    {
      Covered(timers, intervalIds)
    }

    /** With every handle in place, a timer runs exactly when its id has a handle. */
    lemma {:induction false} RunningIffScheduled(k: nat)
      requires Valid() && Synced() && k < |timers|
      ensures timers[k].isRunning <==> timers[k].id in intervalIds
    {
      RunningIdsMember(timers, k);
    }

    /** Construction followed by `ngOnInit`: load the stored list, then publish the total. */
    constructor (stored: Option<seq<TimerData>>)
      ensures storage == stored && intervalIds == {}
      ensures timers == if stored.Some? then stored.value else []
      ensures timerIdCounter == if stored.Some? then NextCounter(stored.value, 0) else 0
      ensures totalTimeSpend == TotalTimeText(TotalSeconds(timers))
      ensures stored.None? || Loadable(stored.value) ==> Valid()
      ensures Synced() <==> !AnyRunning(timers)
    {
      timers := [];
      intervalIds := {};
      timerIdCounter := 0;
      totalTimeSpend := "";
      storage := stored;
      new;
      LoadTimers();
      CalculateTotalTime();
      RunningIdsEmpty(timers);
    }

    /** `loadTimers`: take the stored list, if any, and re-derive the counter from its last id. */
    method LoadTimers()
      modifies this`timers, this`timerIdCounter
      ensures timers == if storage.Some? then storage.value else old(timers)
      ensures timerIdCounter
              == if storage.Some? then NextCounter(storage.value, old(timerIdCounter)) else old(timerIdCounter)
    {
      if storage.Some? {
        timers := storage.value;
        if |timers| > 0 {
          timerIdCounter := timers[|timers| - 1].id + 1;
        }
      }
    }

    /** `saveTimers`: the whole list, as JSON writes it, under the storage key. */
    method SaveTimers()
      modifies this`storage
      ensures storage == Some(Persist(timers))
    {
      storage := Some(Persist(timers));
    }

    /** `calculateTotalTime`: publish the summary of the sum of all times. */
    method CalculateTotalTime()
      modifies this`totalTimeSpend
      ensures totalTimeSpend == TotalTimeText(TotalSeconds(timers))
    {
      totalTimeSpend := TotalTimeText(TotalSeconds(timers));
    }

    /**
     * `deleteInitialHistory`: filter the sentinel (and any holes) out of the
     * history of the timer at `k`, in place; nothing else changes.
     */
    method DeleteInitialHistory(k: nat)
      requires k < |timers|
      modifies this`timers
      ensures timers == old(timers)[k := old(timers[k]).(history := DropSentinel(old(timers[k].history)))]
    {
      timers := timers[k := timers[k].(history := DropSentinel(timers[k].history))];
    }

    /** `startTimer`: no effect on a running timer; otherwise run it, log the start, register its handle. */
    method StartTimer(k: nat, now: string)
      requires Valid() && k < |timers|
      modifies this`timers, this`intervalIds
      ensures Valid()
      ensures timers == old(timers)[k := StartRecord(old(timers[k]), now)]
      ensures intervalIds == if old(timers[k].isRunning) then old(intervalIds) else old(intervalIds) + {timers[k].id}
      ensures old(Synced()) ==> Synced()
    {
      ghost var before, ids := timers, intervalIds;
      WellFormedPreserved(before[k], now);
      RunningIdsMember(before, k);
      if !timers[k].isRunning {
        timers := timers[k := timers[k].(isRunning := true)];
        DeleteInitialHistory(k);
        timers := timers[k := timers[k].(history := timers[k].history + [Text(ActiveEntry(now))])];
        intervalIds := intervalIds + {timers[k].id};
      }
      assert timers == before[k := StartRecord(before[k], now)];
      ReplaceKeeps(before, ids, timerIdCounter, k, timers[k], intervalIds);
    }

    /**
     * One firing of the interval registered for the timer at `k`: one more
     * second, then save. A handle exists only for a running timer of the list.
     */
    method Tick(k: nat)
      requires Valid() && k < |timers| && timers[k].id in intervalIds
      modifies this`timers, this`storage
      ensures Valid()
      ensures timers == old(timers)[k := TickRecord(old(timers[k]))]
      ensures TotalSeconds(timers) == old(TotalSeconds(timers)) + 1
      ensures storage == Some(Persist(timers))
      ensures old(Synced()) ==> Synced()
    {
      ghost var before := timers;
      WellFormedPreserved(before[k], "");
      RunningIdsMember(before, k);
      var t := timers[k];
      t := t.(time := t.time + 1);
      timers := timers[k := t];
      ReplaceKeeps(before, intervalIds, timerIdCounter, k, t, intervalIds);
      SaveTimers();
    }

    /**
     * `stopTimer`: on a running timer, drop its handle, stop it and log the
     * stop at index length + 1, then save; in every case publish the total.
     */
    method StopTimer(k: nat, now: string)
      requires Valid() && k < |timers|
      modifies this`timers, this`intervalIds, this`storage, this`totalTimeSpend
      ensures Valid()
      ensures StopDefined(old(timers[k])) && timers == old(timers)[k := StopRecord(old(timers[k]), now)]
      ensures intervalIds == old(intervalIds) - {timers[k].id}
      ensures storage == if old(timers[k].isRunning) then Some(Persist(timers)) else old(storage)
      ensures TotalSeconds(timers) == old(TotalSeconds(timers))
      ensures totalTimeSpend == TotalTimeText(TotalSeconds(timers))
      ensures old(Synced()) ==> Synced()
    {
      ghost var before, ids := timers, intervalIds;
      WellFormedPreserved(before[k], now);
      RunningIdsMember(before, k);
      var t := timers[k];
      if t.isRunning {
        intervalIds := intervalIds - {t.id};
        t := t.(isRunning := false);
        t := t.(history := t.history + [Hole, Text(StopEntry(t.history[|t.history| - 1].line, now))]);
        timers := timers[k := t];
        SaveTimers();
      }
      assert timers == before[k := StopRecord(before[k], now)];
      ReplaceKeeps(before, ids, timerIdCounter, k, timers[k], intervalIds);
      CalculateTotalTime();
    }

    /**
     * `resetTimer`: stop, then zero the time and restore the sentinel, then
     * save; the published total is the one the stop computed, before zeroing.
     */
    method ResetTimer(k: nat, now: string)
      requires Valid() && k < |timers|
      modifies this`timers, this`intervalIds, this`storage, this`totalTimeSpend
      ensures Valid()
      ensures StopDefined(old(timers[k]))
      ensures timers == old(timers)[k := ResetRecord(StopRecord(old(timers[k]), now))]
      ensures intervalIds == old(intervalIds) - {timers[k].id}
      ensures storage == Some(Persist(timers))
      ensures TotalSeconds(timers) == old(TotalSeconds(timers)) - old(timers[k].time)
      ensures totalTimeSpend == TotalTimeText(old(TotalSeconds(timers)))
      ensures old(Synced()) ==> Synced()
    {
      StopTimer(k, now);
      ghost var stopped := timers;
      WellFormedPreserved(stopped[k], now);
      RunningIdsMember(stopped, k);
      var t := timers[k];
      t := t.(time := 0);
      t := t.(history := [Text(Sentinel)]);
      timers := timers[k := t];
      ReplaceKeeps(stopped, intervalIds, timerIdCounter, k, t, intervalIds);
      SaveTimers();
    }

    /** `deleteTimer`: stop, then drop the timer (see DropTimer). */
    method DeleteTimer(k: nat, now: string)
      requires Valid() && k < |timers|
      modifies this`timers, this`intervalIds, this`storage, this`totalTimeSpend
      ensures Valid()
      ensures timers == old(timers[..k] + timers[k + 1..])
      ensures intervalIds == old(intervalIds) - {old(timers[k].id)}
      ensures storage == Some(Persist(timers))
      ensures totalTimeSpend == TotalTimeText(old(TotalSeconds(timers)))
      ensures old(Synced()) ==> Synced()
    {
      ghost var before := timers;
      StopTimer(k, now);
      DropReplaced(before, k, timers[k]);
      DropTimer(k);
    }

    /** The rest of `deleteTimer`: keep only the timers with another id, then save. */
    method DropTimer(k: nat)
      requires Valid() && k < |timers| && timers[k].id !in intervalIds
      modifies this`timers, this`storage
      ensures Valid()
      ensures timers == old(timers[..k] + timers[k + 1..])
      ensures storage == Some(Persist(timers))
      ensures old(Synced()) ==> Synced()
    {
      var id := timers[k].id;
      DeleteKeeps(timers, intervalIds, timerIdCounter, k);
      timers := WithoutId(timers, id);
      SaveTimers();
    }

    /** `saveTimer`: append a new task under the next id, advance the counter, save. */
    method SaveTimer(taskTitle: string)
      requires Valid()
      modifies this`timers, this`timerIdCounter, this`storage
      ensures Valid()
      ensures timers == old(timers) + [NewRecord(old(timerIdCounter), taskTitle)]
      ensures forall i :: 0 <= i < |old(timers)| ==> old(timers)[i].id != old(timerIdCounter)
      ensures timerIdCounter == old(timerIdCounter) + 1
      ensures TotalSeconds(timers) == old(TotalSeconds(timers))
      ensures storage == Some(Persist(timers))
      ensures old(Synced()) ==> Synced()
    {
      AppendNew(timers, timerIdCounter, taskTitle);
      timers := timers + [NewRecord(timerIdCounter, taskTitle)];
      timerIdCounter := timerIdCounter + 1;
      SaveTimers();
    }

    /**
     * The state of `ngOnDestroy` after stopping the first `i` of the records
     * `start` it began with: `saved` tells whether one of them was running,
     * and `store0` and `text0` are the stored image and the published total
     * from before.
     */
    ghost predicate Stopping(
      start: seq<TimerData>, i: nat, now: string, saved: bool, store0: Option<seq<TimerData>>, text0: string)
      reads this`timers, this`intervalIds, this`timerIdCounter, this`storage, this`totalTimeSpend
    {
      && i <= |start|
      && Valid()
      && StoppedBefore(start, timers, i, now)
      && TotalSeconds(timers) == TotalSeconds(start)
      && (saved <==> exists k :: 0 <= k < i && start[k].isRunning)
      && storage == (if saved then Some(Persist(timers)) else store0)
      && totalTimeSpend == if i == 0 then text0 else TotalTimeText(TotalSeconds(start))
    }

    /** One turn of the loop in `ngOnDestroy`: stop record `i`. */
    method StopNext(
      ghost start: seq<TimerData>, i: nat, now: string, ghost saved: bool,
      ghost store0: Option<seq<TimerData>>, ghost text0: string)
      returns (ghost saved': bool)
      requires Stopping(start, i, now, saved, store0, text0) && i < |start|
      modifies this`timers, this`intervalIds, this`storage, this`totalTimeSpend
      ensures Stopping(start, i + 1, now, saved', store0, text0)
    {
      ghost var before := timers;
      StopTimer(i, now);
      StoppedStep(start, before, i, now);
      saved' := saved || start[i].isRunning;
      if !start[i].isRunning {
        assert timers == before;
      }
    }

    /** `ngOnDestroy`: stop every timer, front to back. */
    method Destroy(now: string)
      requires Valid()
      modifies this`timers, this`intervalIds, this`storage, this`totalTimeSpend
      ensures Valid() && Synced() && intervalIds == {}
      ensures |timers| == |old(timers)|
      ensures forall k :: 0 <= k < |timers| ==> StopDefined(old(timers)[k]) && timers[k] == StopRecord(old(timers)[k], now)
      ensures storage == if old(AnyRunning(timers)) then Some(Persist(timers)) else old(storage)
      ensures TotalSeconds(timers) == old(TotalSeconds(timers))
      ensures totalTimeSpend
              == if |timers| == 0 then old(totalTimeSpend) else TotalTimeText(TotalSeconds(timers))
    {
      ghost var start, saved := timers, false;
      assert forall k :: 0 <= k < |start| ==> WellFormed(start[k]);
      var i := 0;
      while i < |timers|
        invariant |timers| == |start|
        invariant Stopping(start, i, now, saved, old(storage), old(totalTimeSpend))
      {
        saved := StopNext(start, i, now, saved, old(storage), old(totalTimeSpend));
        i := i + 1;
      }
      RunningIdsEmpty(timers);
    }
  }

  /**
   * Saving and then building a new component from the stored image (a page
   * reload): the same records with holes read back as nulls, no handle.
   */
  method SaveAndReload(c: TimerComponent) returns (d: TimerComponent)
    requires c.Valid()
    modifies c`storage
    ensures fresh(d) && d.timers == Persist(c.timers)
    ensures d.Valid() && d.intervalIds == {}
    ensures d.timerIdCounter == NextCounter(c.timers, 0)
    ensures d.Synced() <==> !AnyRunning(c.timers)
  {
    PersistKeeps(c.timers);
    c.SaveTimers();
    ghost var image := Persist(c.timers);
    assert c.storage == Some(image);
    d := new TimerComponent(c.storage);
    assert d.timers == image;
  }

  /**
   * A timer saved while running, after a page reload: starting it again
   * changes nothing and registers no interval, so it never ticks.
   */
  method StartAfterReload(c: TimerComponent, k: nat, now: string) returns (d: TimerComponent)
    requires c.Valid() && k < |c.timers| && c.timers[k].isRunning
    modifies c`storage
    ensures fresh(d) && d.Valid()
    ensures d.timers == Persist(old(c.timers)) && d.timers[k].isRunning
    ensures d.intervalIds == {}
  {
    d := SaveAndReload(c);
    d.StartTimer(k, now);
  }

  /**
   * `deleteTimer` on the timer with the highest id, then a page reload: the
   * restored counter is no higher than the deleted id, so a later
   * `saveTimer` can hand that id out again.
   */
  method DeleteLastAndReload(c: TimerComponent, now: string) returns (d: TimerComponent)
    requires c.Valid() && |c.timers| > 0 && 0 <= c.timers[|c.timers| - 1].id
    modifies c`timers, c`intervalIds, c`storage, c`totalTimeSpend
    ensures fresh(d) && d.Valid() && d.intervalIds == {}
    ensures d.timers == Persist(old(c.timers[..|c.timers| - 1]))
    ensures d.timerIdCounter <= old(c.timers[|c.timers| - 1].id)
  {
    ghost var ts := c.timers;
    var n := |c.timers| - 1;
    c.DeleteTimer(n, now);
    d := SaveAndReload(c);
    if n > 0 {
      assert ts[..n][n - 1] == ts[n - 1];
    }
  }

  /**
   * The dialog's close handler in `openDialog`: a non-empty title becomes a
   * new task and the page reloads; an empty result leaves the component as it is.
   */
  method DialogClosed(c: TimerComponent, result: string) returns (d: TimerComponent)
    requires c.Valid()
    modifies c`timers, c`timerIdCounter, c`storage
    ensures result == "" ==> d == c && c.timers == old(c.timers)
    ensures result == "" ==> c.timerIdCounter == old(c.timerIdCounter) && c.storage == old(c.storage)
    ensures result != "" ==> fresh(d) && d.intervalIds == {}
    ensures result != "" ==> d.timers == Persist(old(c.timers) + [NewRecord(old(c.timerIdCounter), result)])
    ensures result != "" ==> d.timerIdCounter == old(c.timerIdCounter) + 1
    ensures d.Valid()
  {
    if result != "" {
      c.SaveTimer(result);
      d := SaveAndReload(c);
    } else {
      d := c;
    }
  }
}
