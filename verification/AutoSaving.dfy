/** The auto saver: changes restart a short timer, and a long wait since the first unsaved change
    saves at once. Times are in milliseconds. */
module AutoSaving {

  const AUTOSAVE_IN := 1000 * 3
  const MAXWAIT := 1000 * 15
  const DAY_MS := 86400 * 1000

  datatype Timer = Stopped | Due(at: int)

  /** A `QTime`: a time of day, or null. */
  datatype QTime = NullTime | TimeOfDay(ms: int)

  /** `QTime::elapsed`: the time of day only, so it starts again after a day. */
  function Elapsed(start: int, now: int): int {
    (now % DAY_MS - start) % DAY_MS
  }

  /** One save: the times of the changes it wrote, and its own time. */
  datatype Saved = Saved(changes: seq<int>, at: int)

  ghost function AllSaved(log: seq<Saved>): seq<int> {
    if log == [] then [] else AllSaved(log[..|log| - 1]) + log[|log| - 1].changes
  }

  /** A save that is not late for any change it writes. */
  ghost predicate Timely(s: Saved) {
    && s.changes != [] && s.at <= s.changes[0] + MAXWAIT + AUTOSAVE_IN
    && forall i :: 0 <= i < |s.changes| ==> s.changes[0] <= s.changes[i] <= s.at
  }

  class AutoSaver {
    var m_timer: Timer
    var m_firstChange: QTime

    /** The run so far: its clock, every change that has occurred, the saves, and the changes that no
        save has written yet. */
    ghost var clock: int
    ghost var changes: seq<int>
    ghost var log: seq<Saved>
    ghost var pending: seq<int>

    /** In a run whose timer fires when due. */
    ghost predicate Valid()
      reads this
    {
      && changes == AllSaved(log) + pending
      && (forall s :: s in log ==> Timely(s))
      && (forall i :: 0 <= i < |pending| ==> pending[0] <= pending[i] <= clock)
      && (m_timer.Due? <==> pending != [])
      && (m_firstChange.TimeOfDay? <==> pending != [])
      && (pending != [] ==>
            && m_firstChange.ms == pending[0] % DAY_MS
            && clock <= m_timer.at <= pending[0] + MAXWAIT + AUTOSAVE_IN)
    }

    /** The clock may move on to `now`: time does not run back, nor past a due timer. */
    ghost predicate MayReach(now: int)
      reads this
    {
      clock <= now && (m_timer.Due? ==> now <= m_timer.at)
    }

    constructor (ghost now: int)
      ensures Valid() && changes == [] && log == [] && clock == now && m_timer.Stopped?
    {
      m_timer, m_firstChange := Stopped, NullTime;
      clock, changes, log, pending := now, [], [], [];
    }

    /** Every change is recorded, and either pending under a timer that will fire within the bound
        of the first pending one, or written at once. */
    method ChangeOccurred(now: int)
      requires Valid() && MayReach(now)
      modifies this
      ensures Valid() && clock == now && changes == old(changes) + [now]
      ensures old(log) <= log
      ensures m_timer.Due? ==> m_timer.at == now + 3000 && log == old(log) && pending == old(pending) + [now]
      ensures m_timer.Stopped? <==> old(pending) != [] && now - old(pending)[0] > 15000
      ensures m_timer.Stopped? ==> pending == [] && log == old(log) + [Saved(old(pending) + [now], now)]
    {
      hide AllSaved, Timely, Elapsed;
      if m_firstChange == NullTime {
        m_firstChange := TimeOfDay(now % DAY_MS);
      }
      changes := changes + [now];
      pending := pending + [now];
      clock := now;
      assert changes == AllSaved(log) + pending;
      ElapsedIsDifference(pending[0], now);
      if Elapsed(m_firstChange.ms, now) > MAXWAIT {
        SaveIfNecessary(now);
      } else {
        m_timer := Due(now + AUTOSAVE_IN);
      }
    }

    /** The timer fires when it is due. */
    method TimerEvent(now: int, mine: bool)
      requires Valid() && MayReach(now) && (mine ==> m_timer == Due(now))
      modifies this
      ensures Valid() && clock == now && changes == old(changes)
      ensures mine ==> pending == [] && m_timer.Stopped? && log == old(log) + [Saved(old(pending), now)]
      ensures !mine ==> pending == old(pending) && log == old(log) && m_timer == old(m_timer)
    {
      clock := now;
      if mine {
        SaveIfNecessary(now);
      }
    }

    /** Writes all pending changes in one save, if there are any. */
    method SaveIfNecessary(now: int)
      requires Valid() && clock == now
      modifies this
      ensures Valid() && clock == now && changes == old(changes)
      ensures pending == [] && m_timer.Stopped?
      ensures log == if old(pending) == [] then old(log) else old(log) + [Saved(old(pending), now)]
    {
      if m_timer.Stopped? {
        return;
      }
      m_timer := Stopped;
      m_firstChange := NullTime;
      log := log + [Saved(pending, now)];
      assert log[..|log| - 1] == old(log);
      pending := [];
    }
  }

  /** Within a day, the wrap at midnight does no harm. */
  lemma ElapsedIsDifference(start: int, now: int)
    requires start <= now < start + DAY_MS
    ensures Elapsed(start % DAY_MS, now) == now - start
  {
    var a, b := start / DAY_MS, now / DAY_MS;
    assert start == a * DAY_MS + start % DAY_MS && now == b * DAY_MS + now % DAY_MS;
    assert b == a || b == a + 1;
  }

  /** Whoever looks at a run finds each change either in a save no later than the bound after the
      first change of that save, or pending with the bound still ahead. */
  lemma EveryChangeIsSavedInTime(saver: AutoSaver, i: nat)
    requires saver.Valid() && i < |saver.changes|
    ensures (exists s :: s in saver.log && saver.changes[i] in s.changes
                         && saver.changes[i] <= s.at <= s.changes[0] + 18000)
            || (saver.changes[i] in saver.pending && saver.m_timer.Due?
                && saver.clock <= saver.m_timer.at <= saver.pending[0] + 18000)
  {
    if i < |AllSaved(saver.log)| {
      var k := SaveOf(saver.log, i);
      var s := saver.log[k];
      assert s in saver.log && Timely(s);
      assert saver.changes[i] in s.changes;
    } else {
      assert saver.changes[i] == saver.pending[i - |AllSaved(saver.log)|];
    }
  }

  lemma {:induction false} SaveOf(log: seq<Saved>, i: nat) returns (k: nat)
    requires i < |AllSaved(log)|
    ensures k < |log| && AllSaved(log)[i] in log[k].changes
  {
    var n := |log| - 1;
    if i < |AllSaved(log[..n])| {
      k := SaveOf(log[..n], i);
    } else {
      k := n;
      assert AllSaved(log)[i] == log[n].changes[i - |AllSaved(log[..n])|];
    }
  }
}
