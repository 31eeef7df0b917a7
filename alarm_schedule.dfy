/**
 * The alarm callback `timer_relogio`: after each alarm it re-arms the timer
 * one period (1,000,000 ticks of 1 us) after the value the alarm fired at,
 * not after the current count, so interrupt latency never accumulates.
 */
module AlarmSchedule {

  const TwoTo64: int := 0x1_0000_0000_0000_0000

  /** An `uint64_t` value; C's unsigned addition on it wraps modulo 2^64. */
  type Uint64 = x: int | 0 <= x < 0x1_0000_0000_0000_0000

  /** One second at the timer's 1 MHz resolution. */
  const AlarmPeriod: Uint64 := 1000000

  /** `gptimer_alarm_event_data_t`: the count when the callback ran, and the alarm value that fired. */
  datatype AlarmEvent = AlarmEvent(countValue: Uint64, alarmValue: Uint64)

  /** `alarm_count` of the re-armed alarm. */
  function NextAlarmCount(edata: AlarmEvent): (r: Uint64)
    ensures (r - edata.alarmValue) % TwoTo64 == AlarmPeriod
    ensures r > edata.alarmValue <==> edata.alarmValue < TwoTo64 - AlarmPeriod
    ensures r > edata.alarmValue ==> r - edata.alarmValue == AlarmPeriod
  {
    (edata.alarmValue + AlarmPeriod) % TwoTo64
  }

  /**
   * The alarm values programmed while the timer fires once per element of
   * `counts`: the first alarm is `first`, and the callback for the k-th alarm
   * runs when the counter reads `counts[k]`.
   */
  function Alarms(first: Uint64, counts: seq<Uint64>): (a: seq<Uint64>)
    ensures |a| == |counts| + 1
    ensures a[0] == first
    decreases |counts|
  {
    if counts == [] then [first]
    else
      var before := Alarms(first, counts[..|counts| - 1]);
      before + [NextAlarmCount(AlarmEvent(counts[|counts| - 1], before[|before| - 1]))]
  }

  /** Adding after reducing modulo 2^64 is the same as adding, then reducing. */
  lemma ModAdd(x: nat, y: nat)
    ensures (x % TwoTo64 + y) % TwoTo64 == (x + y) % TwoTo64
  {
    var q := x / TwoTo64;
    assert x == q * TwoTo64 + x % TwoTo64;
  }

  lemma {:induction false} AlarmsPrefix(first: Uint64, counts: seq<Uint64>, k: nat)
    requires k < |counts|
    ensures Alarms(first, counts)[..k + 1] == Alarms(first, counts[..k])
    decreases |counts|
  {
    var p := counts[..|counts| - 1];
    if k < |p| {
      AlarmsPrefix(first, p, k);
      assert p[..k] == counts[..k];
    } else {
      assert p == counts[..k];
    }
  }

  /**
   * Drift freedom: the k-th alarm is the first one plus k periods (modulo
   * 2^64), whatever the counter read when each callback ran.
   */
  lemma {:induction false} AlarmsDriftFree(first: Uint64, counts: seq<Uint64>, k: nat)
    requires k <= |counts|
    ensures Alarms(first, counts)[k] == (first + k * AlarmPeriod) % TwoTo64
    decreases |counts|
  {
    if k < |counts| {
      AlarmsPrefix(first, counts, k);
      AlarmsDriftFree(first, counts[..k], k);
      assert Alarms(first, counts)[k] == Alarms(first, counts)[..k + 1][k];
    } else if k > 0 {
      AlarmsDriftFree(first, counts[..|counts| - 1], k - 1);
      ModAdd(first + (k - 1) * AlarmPeriod, AlarmPeriod);
    }
  }

  /** The alarm schedule does not depend on when the callbacks ran. */
  lemma ScheduleIgnoresLatency(first: Uint64, counts1: seq<Uint64>, counts2: seq<Uint64>)
    requires |counts1| == |counts2|
    ensures Alarms(first, counts1) == Alarms(first, counts2)
  {
    forall k | 0 <= k <= |counts1|
      ensures Alarms(first, counts1)[k] == Alarms(first, counts2)[k]
    {
      AlarmsDriftFree(first, counts1, k);
      AlarmsDriftFree(first, counts2, k);
    }
  }
}
