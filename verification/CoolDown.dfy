/**
 The cool-down register: a map from workers to the end of their cool-down, with entries
 deleted lazily by the query. The log of all entries says what the answers mean.
 */
module CoolDown {
  /** `enterCoolDown(worker)` was called at instant `at`. */
  datatype Entered = Entered(worker: int, at: int)

  datatype CoolState = CoolState(startTime: int, endTime: int, duration: int)

  /** The worker has entered, and less than `duration` ago the last time. */
  predicate Cooling(log: seq<Entered>, worker: int, duration: int, now: int) {
    if log == [] then false
    else
      var last := log[|log| - 1];
      if last.worker == worker then now < last.at + duration
      else Cooling(log[..|log| - 1], worker, duration, now)
  }

  /** Entry `i` is the worker's last one. */
  predicate LastEntry(log: seq<Entered>, worker: int, i: nat) {
    i < |log| && log[i].worker == worker && forall j :: i < j < |log| ==> log[j].worker != worker
  }

  /** `Cooling` says: the worker's last entry is less than `duration` old. */
  lemma {:induction false} CoolingMeansLastEntry(log: seq<Entered>, worker: int, duration: int, now: int)
    ensures Cooling(log, worker, duration, now) <==>
            exists i: nat :: LastEntry(log, worker, i) && now < log[i].at + duration
    decreases |log|
  {
    if log != [] {
      var n := |log| - 1;
      var init := log[..n];
      CoolingMeansLastEntry(init, worker, duration, now);
      forall i: nat | i < n && log[n].worker != worker
        ensures LastEntry(log, worker, i) <==> LastEntry(init, worker, i)
      {
        assert forall j :: 0 <= j < n ==> init[j] == log[j];
      }
      if log[n].worker == worker {
        assert LastEntry(log, worker, n);
      }
    }
  }

  /** Once a worker has cooled down it stays so until it enters again. */
  lemma {:induction false} CoolingFades(log: seq<Entered>, worker: int, duration: int, now: int, later: int)
    requires now <= later && !Cooling(log, worker, duration, now)
    ensures !Cooling(log, worker, duration, later)
    decreases |log|
  {
    if log != [] && log[|log| - 1].worker != worker {
      CoolingFades(log[..|log| - 1], worker, duration, now, later);
    }
  }

  class Register {
    const durationMs: int
    var active: map<int, CoolState>
    /** Every entry so far, and the latest instant at which the clock was read. */
    ghost var log: seq<Entered>
    ghost var clock: int

    /** An entry that is missing, or present, answers as the log does, now and at every later instant. */
    ghost predicate Valid()
      reads this
    {
      forall w, now :: clock <= now ==>
        (Cooling(log, w, durationMs, now) <==> w in active && now < active[w].endTime)
    }

    constructor (durationMs: int, now: int)
      ensures Valid() && log == [] && clock == now && this.durationMs == durationMs
    {
      this.durationMs := durationMs;
      active, log, clock := map[], [], now;
    }

    /** The code reads the clock twice; the second reading is only recorded. */
    method EnterCoolDown(worker: int, now: int, again: int)
      requires Valid() && clock <= now <= again
      modifies this
      ensures Valid() && log == old(log) + [Entered(worker, now)] && clock == again
    {
      active := active[worker := CoolState(again, now + durationMs, durationMs)];
      log := log + [Entered(worker, now)];
      clock := again;
      assert log[..|log| - 1] == old(log);
    }

    method IsInCoolDown(worker: int, now: int) returns (cooling: bool)
      requires Valid() && clock <= now
      modifies this
      ensures cooling <==> Cooling(log, worker, durationMs, now)
      ensures Valid() && log == old(log) && clock == now
    {
      clock := now;
      if worker !in active {
        return false;
      }
      if now >= active[worker].endTime {
        active := active - {worker};
        return false;
      }
      return true;
    }

    method GetRemainingTime(worker: int, now: int) returns (remaining: int)
      requires Valid() && clock <= now
      ensures remaining >= 0
      ensures remaining > 0 <==> Cooling(log, worker, durationMs, now)
      ensures forall later :: now <= later ==> (Cooling(log, worker, durationMs, later) <==> later < now + remaining)
    {
      if worker !in active {
        return 0;
      }
      var left := active[worker].endTime - now;
      return if left > 0 then left else 0;
    }
  }
}
