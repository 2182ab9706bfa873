/**
 * Reminder schedule of a new challenge (commands/startchallenge.js,
 * `scheduleReminders`). Instants are integer milliseconds; the timer is left
 * out and each scheduled reminder is returned with its delay.
 */
module Reminders {

  /** How long before the close a reminder fires, and how its message names it. */
  datatype Offset = Offset(ms: nat, name: string)

  const OFFSETS: seq<Offset> := [
    Offset(86400000, "24 hours"),    // 24 * HOUR
    Offset(21600000, "6 hours"),     // 6 * HOUR
    Offset(3600000, "1 hour"),       // HOUR
    Offset(1800000, "30 minutes")    // 30 * MINUTE
  ]

  /** A one-shot timer: it fires `delay` milliseconds after scheduling, at `fireAt`. */
  datatype Reminder = Reminder(delay: int, fireAt: int, name: string)

  /** The timer an offset would get: delay `closeTime - offset - now`. */
  function Due(now: int, closeTime: int, o: Offset): Reminder {
    Reminder(closeTime - o.ms - now, closeTime - o.ms, o.name)
  }

  /** One timer per offset whose delay is strictly positive, in the offsets' order. */
  function Schedule(now: int, closeTime: int, offsets: seq<Offset>): (r: seq<Reminder>)
    ensures |r| <= |offsets|
    ensures forall j :: 0 <= j < |r| ==> r[j].delay > 0 && r[j].fireAt == now + r[j].delay
    decreases |offsets|
  {
    if offsets == [] then []
    else
      var rest := Schedule(now, closeTime, offsets[1..]);
      var d := Due(now, closeTime, offsets[0]);
      if d.delay > 0 then [d] + rest else rest
  }

  /** The reminders `startchallenge` schedules. */
  function ScheduleReminders(now: int, closeTime: int): seq<Reminder> {
    Schedule(now, closeTime, OFFSETS)
  }

  /** An offset is scheduled exactly when it is listed and its fire instant is in the future. */
  lemma {:induction false} ScheduledIffFuture(now: int, closeTime: int, offsets: seq<Offset>, o: Offset)
    ensures Due(now, closeTime, o) in Schedule(now, closeTime, offsets)
        <==> o in offsets && closeTime - o.ms > now
    decreases |offsets|
  {
    if offsets != [] {
      ScheduledIffFuture(now, closeTime, offsets[1..], o);
      assert offsets == [offsets[0]] + offsets[1..];
    }
  }

  /** Every scheduled timer belongs to one listed offset: it fires at `closeTime` minus that offset. */
  lemma {:induction false} ScheduledFromOffset(now: int, closeTime: int, offsets: seq<Offset>, j: nat)
    requires j < |Schedule(now, closeTime, offsets)|
    ensures Schedule(now, closeTime, offsets)[j].fireAt <= closeTime
    ensures Offset(closeTime - Schedule(now, closeTime, offsets)[j].fireAt,
                   Schedule(now, closeTime, offsets)[j].name) in offsets
    decreases |offsets|
  {
    var rest := Schedule(now, closeTime, offsets[1..]);
    var d := Due(now, closeTime, offsets[0]);
    if d.delay > 0 && j == 0 {
    } else {
      var j' := if d.delay > 0 then j - 1 else j;
      ScheduledFromOffset(now, closeTime, offsets[1..], j');
      assert Schedule(now, closeTime, offsets)[j] == rest[j'];
      assert offsets == [offsets[0]] + offsets[1..];
    }
  }

  /** Offsets in strictly decreasing order, as OFFSETS lists them. */
  predicate Decreasing(offsets: seq<Offset>) {
    forall i, j :: 0 <= i < j < |offsets| ==> offsets[i].ms > offsets[j].ms
  }

  /** Decreasing offsets give increasing fire instants. */
  lemma {:induction false} ScheduleIncreasing(now: int, closeTime: int, offsets: seq<Offset>)
    requires Decreasing(offsets)
    ensures forall i, j :: 0 <= i < j < |Schedule(now, closeTime, offsets)| ==>
      Schedule(now, closeTime, offsets)[i].fireAt < Schedule(now, closeTime, offsets)[j].fireAt
    decreases |offsets|
  {
    if offsets != [] {
      var rest := Schedule(now, closeTime, offsets[1..]);
      ScheduleIncreasing(now, closeTime, offsets[1..]);
      forall j | 0 <= j < |rest| ensures closeTime - offsets[0].ms < rest[j].fireAt {
        ScheduledFromOffset(now, closeTime, offsets[1..], j);
        var o := Offset(closeTime - rest[j].fireAt, rest[j].name);
        var k :| 0 <= k < |offsets[1..]| && offsets[1..][k] == o;
        assert offsets[k + 1] == o;
      }
    }
  }

  lemma NamesDistinct()
    ensures forall i, j :: 0 <= i < j < |OFFSETS| ==> OFFSETS[i].name != OFFSETS[j].name
  {
    assert |OFFSETS[0].name| == 8 && |OFFSETS[1].name| == 7;
    assert |OFFSETS[2].name| == 6 && |OFFSETS[3].name| == 10;
  }

  /**
   * An offset gets a reminder exactly when its fire instant `closeTime - offset`
   * is still in the future; an elapsed offset is dropped, not fired at once.
   */
  lemma {:induction false} ScheduledIff(now: int, closeTime: int, k: nat)
    requires k < |OFFSETS|
    ensures (exists j :: 0 <= j < |ScheduleReminders(now, closeTime)|
               && ScheduleReminders(now, closeTime)[j].name == OFFSETS[k].name)
        <==> closeTime - OFFSETS[k].ms > now
  {
    var r := ScheduleReminders(now, closeTime);
    if exists j :: 0 <= j < |r| && r[j].name == OFFSETS[k].name {
      var j :| 0 <= j < |r| && r[j].name == OFFSETS[k].name;
      ScheduledFromOffset(now, closeTime, OFFSETS, j);
      var o := Offset(closeTime - r[j].fireAt, r[j].name);
      var k' :| 0 <= k' < |OFFSETS| && OFFSETS[k'] == o;
      NamesDistinct();
      assert k' == k;
    }
    ScheduledIffFuture(now, closeTime, OFFSETS, OFFSETS[k]);
    if closeTime - OFFSETS[k].ms > now {
      var d := Due(now, closeTime, OFFSETS[k]);
      var j :| 0 <= j < |r| && r[j] == d;
    }
  }

  /**
   * The fire instants do not depend on `now`: each is `closeTime` minus one of
   * the offsets, and they come in increasing order, each offset at most once.
   */
  lemma {:induction false} FireInstants(now: int, closeTime: int)
    ensures |ScheduleReminders(now, closeTime)| <= 4
    ensures forall j :: 0 <= j < |ScheduleReminders(now, closeTime)| ==>
      ScheduleReminders(now, closeTime)[j].fireAt in
        {closeTime - 86400000, closeTime - 21600000, closeTime - 3600000, closeTime - 1800000}
    ensures forall i, j :: 0 <= i < j < |ScheduleReminders(now, closeTime)| ==>
      ScheduleReminders(now, closeTime)[i].fireAt < ScheduleReminders(now, closeTime)[j].fireAt
  {
    ScheduleIncreasing(now, closeTime, OFFSETS);
    var r := ScheduleReminders(now, closeTime);
    forall j | 0 <= j < |r|
      ensures r[j].fireAt in {closeTime - 86400000, closeTime - 21600000, closeTime - 3600000, closeTime - 1800000}
    {
      ScheduledFromOffset(now, closeTime, OFFSETS, j);
    }
  }

  /** A close two hours away schedules only the 1 hour and 30 minutes reminders. */
  lemma {:induction false} TwoHoursBeforeClose(now: int)
    ensures ScheduleReminders(now, now + 7200000)
         == [Reminder(3600000, now + 3600000, "1 hour"), Reminder(5400000, now + 5400000, "30 minutes")]
  {
    var o := OFFSETS;
    var c := now + 7200000;
    assert o[3..][1..] == [];
    assert o[2..][1..] == o[3..];
    assert o[1..][1..] == o[2..];
    assert Schedule(now, c, o[3..]) == [Due(now, c, o[3])];
    assert Schedule(now, c, o[2..]) == [Due(now, c, o[2]), Due(now, c, o[3])];
    assert Schedule(now, c, o[1..]) == Schedule(now, c, o[2..]);
  }
}
