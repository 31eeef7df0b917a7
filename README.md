# LED buttons and software clock — a Dafny model

The firmware has two variants. Both run a button worker, `gpio_task_led_botao`.
It takes GPIO numbers from a queue that the pin-change interrupt fills. It
decodes each one with a `switch`:

- 21 turns the LED on;
- 22 turns it off;
- 23 inverts it;
- anything else is logged as a failure.

For the three known buttons, the new value of `ESTADO_LED` is written to the LED
pin (GPIO 2). The second variant (`main/projeto2.c`) also has a timer worker,
`gptimer_task`. It keeps a software clock `{hora, minuto, segundo}` of `uint8_t`
fields. Each tick taken from the timer queue advances the clock by one second,
carrying at 60 seconds, 60 minutes and 24 hours. A receive that times out after
2 s only logs "missed one count event". The alarm callback `timer_relogio`
re-arms the alarm at the fired alarm value plus 1,000,000 µs.

The model has three modules:

- `ButtonDispatch` (`button_dispatch.dfy`): the button `switch`. It has a pure
  `Step` and its fold `Run` over an input sequence. The class `ButtonTask` holds
  the LED state `led` and the sequence `levels` of values written to the pin. Its
  method `HandleButton` is proved against `Step`, and `Serve` is the receive
  loop. The code is the same in both variants, so one model covers both.
  `RunIsPredicted` checks `Run` against an independent description: the last
  21/22 sets the level, and each later 23 inverts it.
- `SoftClock` (`soft_clock.dfy`): the clock as a pure `Advance` on a `Clock`
  value, and the class `ClockTask` with the three fields. `Tick` is proved
  against `Advance`, `Timeout` only counts a warning, and `Serve` is the
  `while(1)` loop. `ToSeconds` and `FromSeconds` are inverse to each other on
  valid clocks. The lemmas show that one tick adds one second modulo 86400 and
  that n ticks add n seconds modulo 86400.
- `AlarmSchedule` (`alarm_schedule.dfy`): the re-armed alarm value, with `uint64_t`
  wrap-around. `Alarms` is the sequence of programmed alarms. The drift-freedom
  lemma shows that the k-th alarm is the first plus k periods, whatever the
  counter read when each callback ran.

Inputs from the environment become parameters:

- a button event is the next `Uint32` of a sequence;
- a timer receive is `Arrived` or `TimedOut`;
- the counter value seen by the alarm callback is a field of `AlarmEvent`.

## Model

| member | source | states |
|---|---|---|
| `ButtonDispatch.Decode` | main/projeto2.c:106-127 | the `switch` table: 21 selects turn-on, 22 turn-off and 23 toggle, each exactly for that id; every other id falls to the default arm |
| `ButtonDispatch.Not` | main/projeto2.c:120 | C's `!` on an `int` yields 0 or 1, and yields 0 exactly when its operand is non-zero |
| `ButtonDispatch.Step` | main/projeto2.c:106-128 | one received id keeps the LED state in {0, 1}; an id other than 21, 22, 23 leaves it unchanged |
| `ButtonDispatch.SetterIgnoresPriorState` | main/projeto2.c:107-117 | 21 yields 1 and 22 yields 0 whatever the prior state |
| `ButtonDispatch.ToggleIsInvolution` | main/projeto2.c:119-123 | 23 always changes a 0/1 state, and two consecutive 23s restore it |
| `ButtonDispatch.Run` | main/projeto2.c:104-130 | any sequence of received ids keeps a 0/1 state in {0, 1} |
| `ButtonDispatch.TraceSteps` | Projeto2/main/projeto2.c:94-120 | the sequence of LED states has one entry per received id; the first is one `switch` step from the start state and each later one is one step from its predecessor |
| `ButtonDispatch.LastSetter` | Projeto2/main/projeto2.c:97-107 | finds the last 21/22 of a sequence: no 21/22 follows it, and None means there is none |
| `ButtonDispatch.PredictedSnoc` | Projeto2/main/projeto2.c:96-118 | one more id moves the "last 21/22, then parity of 23s" description by exactly one `switch` step |
| `ButtonDispatch.RunIsPredicted` | Projeto2/main/projeto2.c:94-120 | the state after any sequence is the level of the last 21/22 (or the start level), inverted once per later 23 |
| `ButtonDispatch.OnToggleToggle` | Projeto2/main/projeto2.c:94-120 | from the initial state, [21, 23, 23] yields the states [1, 0, 1] |
| `ButtonDispatch.ButtonTask.constructor` | Projeto2/main/projeto2.c:53 | the LED state starts at 0 and the pin has not been written |
| `ButtonDispatch.ButtonTask.HandleButton` | Projeto2/main/projeto2.c:96-118 | the new state is `Step` of the old; 21, 22 and 23 append the new state to the pin writes; any other id changes neither state nor pin; the state stays 0/1 and the pin shows it once written |
| `ButtonDispatch.WritesCount` | main/projeto2.c:104-130 | the pin is written exactly once per recognised id (21, 22 or 23), and the last level written is the final LED state |
| `ButtonDispatch.ButtonTask.Serve` | main/projeto2.c:104-130 | after the loop the state is `Run` of the inputs and the pin writes gained exactly one level per recognised id |
| `SoftClock.Inc8` | main/projeto2.c:201 | `++` on an `uint8_t` adds one below 255 and wraps 255 to 0 |
| `SoftClock.FromSeconds` | main/projeto2.c:54-58 | every second of the day is shown by a valid clock whose seconds since midnight are that second |
| `SoftClock.FromToSeconds` | main/projeto2.c:54-58 | a valid clock is below 86400 seconds and is recovered from its seconds since midnight |
| `SoftClock.Advance` | main/projeto2.c:201-212 | a tick keeps `segundo < 60`, `minuto < 60` and `hora < 24` |
| `SoftClock.SecondsDetermineClock` | main/projeto2.c:54-58 | two valid clocks with the same seconds since midnight are the same clock |
| `SoftClock.AdvanceStep` | main/projeto2.c:201-212 | a tick moves to the next second of the day, except that 23:59:59 is followed by 00:00:00 |
| `SoftClock.AdvanceSeconds` | main/projeto2.c:201-212 | a tick adds exactly one second to `hora*3600 + minuto*60 + segundo`, modulo 86400 |
| `SoftClock.EndOfDayWraps` | main/projeto2.c:205-210 | 23:59:59 plus one tick is 00:00:00 |
| `SoftClock.AdvanceNWraps` | main/projeto2.c:199-212 | n ticks keep the clock valid, and the start plus n seconds equals the seconds shown afterwards plus a whole number of days |
| `SoftClock.AdvanceNSeconds` | main/projeto2.c:199-212 | n ticks keep the clock valid and add exactly n seconds modulo 86400 |
| `SoftClock.AdvanceNClosedForm` | main/projeto2.c:201-212 | after n ticks the fields are `t % 60`, `(t / 60) % 60`, `t / 3600` for t the start plus n seconds modulo 86400, so seconds carry once per 60 ticks and minutes once per 3600 |
| `SoftClock.ApplyCountsArrivals` | main/projeto2.c:199-217 | the clock after any mix of ticks and timeouts is the clock advanced once per tick |
| `SoftClock.ApplySeconds` | main/projeto2.c:199-217 | the clock after any mix of ticks and timeouts stays valid and shows the start plus one second per tick, modulo 86400 |
| `SoftClock.ApplyWithinDay` | main/projeto2.c:199-212 | without passing midnight, the ticks add exactly their number of seconds |
| `SoftClock.AllArrived` | main/projeto2.c:200-201 | receives that all delivered a tick count as that many ticks |
| `SoftClock.ApplyReaches` | main/projeto2.c:199-217 | without passing midnight, the ticks and timeouts lead to exactly the valid clock showing the start plus one second per tick |
| `SoftClock.SixtyOneTicks` | main/projeto2.c:199-212 | 61 ticks from 00:00:00 give 00:01:01 |
| `SoftClock.TimeoutsKeepClock` | main/projeto2.c:214-216 | receives that all timed out leave the clock unchanged, with one warning each |
| `SoftClock.ClockTask.constructor` | main/projeto2.c:160-164 | the clock starts at 00:00:00 with no warning |
| `SoftClock.ClockTask.Tick` | main/projeto2.c:201-212 | the fields become `Advance` of the old clock, stay in range (so no `uint8_t` wraps) and no warning is added |
| `SoftClock.ClockTask.Timeout` | main/projeto2.c:214-216 | the clock is unchanged and one warning is added |
| `SoftClock.ClockTask.Serve` | main/projeto2.c:199-217 | after the loop the clock is `Apply` of the receive outcomes and the warnings grew by the number of timeouts |
| `AlarmSchedule.NextAlarmCount` | main/projeto2.c:148-150 | the new alarm is exactly one period after the fired value, modulo 2^64; it is larger than the fired value exactly when the fired value is below 2^64 - 1000000, and then by exactly 1000000 |
| `AlarmSchedule.Alarms` | main/projeto2.c:137-154 | one programmed alarm per callback plus the first, starting with the first |
| `AlarmSchedule.AlarmsDriftFree` | main/projeto2.c:148-151 | the k-th alarm is the first plus k periods modulo 2^64, whatever the counter read when the callbacks ran |
| `AlarmSchedule.ScheduleIgnoresLatency` | main/projeto2.c:148-151 | two runs with the same number of callbacks program the same alarms, whatever their callback latencies |

## Left out

- Hardware set-up: `gpio_config`, `gpio_install_isr_service`, `gpio_isr_handler_add`, `gptimer_new_timer`, `gptimer_register_event_callbacks`, `gptimer_enable`, `gptimer_start` and `ESP_ERROR_CHECK`. These are driver calls whose code is not part of this model.
- FreeRTOS queues and tasks (`xQueueCreate`, `xQueueSendFromISR`, `xQueueReceive`, `xTaskCreate`). Interrupts and workers run concurrently, and a full queue silently drops a send. Neither is modelled: each worker sees the items it received as an input sequence, in order.
- The failure of `xQueueCreate` in `gptimer_task` (early `return`) is not modelled. The model starts after the queue exists.
- The 2000 ms receive timeout is not modelled as time. A receive outcome is `Arrived` or `TimedOut`, so "no tick for 3 s gives one warning" is stated only as one `TimedOut` giving one warning.
- Log lines (`ESP_LOGI`, `ESP_LOGW`, `printf`) are not modelled. The missed-tick warnings are kept as a counter, `ClockTask.missed`.
- The tick payload is not modelled. The interrupt sends a 3-byte `relogio_t` into a queue whose items are the size of `propriedades_fila_timer_t`, and the worker never reads it. A tick is a marker with no content.
- The unused global queue `evento_timer`, and `app_main` in both variants (chip information, flash size, countdown), are not modelled.
- The first alarm value (100000) is a driver setting; `Alarms` takes the first alarm as a parameter.
- The callback's return value (`high_task_awoken`) is not modelled. It belongs to the interrupt-return protocol of FreeRTOS.
- `ButtonDispatch.ButtonTask.HandleButton`: the pin is modelled as the list of levels written to it, not as an electrical level, and the failure log of the default arm is not modelled.
