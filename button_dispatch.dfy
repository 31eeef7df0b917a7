/**
 * The button-dispatch worker `gpio_task_led_botao`, identical in both
 * firmware variants. Each identifier received from the button queue is
 * decoded by a `switch` and applied to the LED state `ESTADO_LED`, which is
 * then written to the LED pin. The queue receive is abstracted to "the next
 * identifier of an input sequence".
 */
module ButtonDispatch {

  /** `uint32_t io_num`: the pin identifier taken from the button queue. */
  type Uint32 = x: int | 0 <= x < 0x1_0000_0000

  datatype Option<T> = None | Some(value: T)

  /** GPIO numbers of the three buttons (`BOTAO_0`, `BOTAO_1`, `BOTAO_2`). */
  const BotaoLiga: Uint32 := 21
  const BotaoDesliga: Uint32 := 22
  const BotaoInverte: Uint32 := 23

  /** The initial value of `ESTADO_LED`. */
  const InitialLed: int := 0

  /** The four arms of the `switch`. */
  datatype Action = TurnOn | TurnOff | Toggle | Unknown

  predicate IsButton(id: Uint32) {
    id == BotaoLiga || id == BotaoDesliga || id == BotaoInverte
  }

  /** An identifier that forces the LED to a fixed level (21 or 22). */
  predicate IsSetter(id: Uint32) {
    id == BotaoLiga || id == BotaoDesliga
  }

  predicate IsBinary(v: int) {
    v == 0 || v == 1
  }

  /** Which arm of the `switch` an identifier selects. */
  function Decode(id: Uint32): (a: Action)
    ensures a == TurnOn <==> id == BotaoLiga
    ensures a == TurnOff <==> id == BotaoDesliga
    ensures a == Toggle <==> id == BotaoInverte
    ensures a == Unknown <==> !IsButton(id)
  {
    if id == BotaoLiga then TurnOn
    else if id == BotaoDesliga then TurnOff
    else if id == BotaoInverte then Toggle
    else Unknown
  }

  /** C's logical negation `!v` on an `int`: 1 for zero, 0 for anything else. */
  function Not(v: int): (r: int)
    ensures IsBinary(r)
    ensures r == 0 <==> v != 0
  {
    if v == 0 then 1 else 0
  }

  /** The effect of one received identifier on `ESTADO_LED`. */
  function Step(led: int, id: Uint32): (r: int)
    ensures IsBinary(led) ==> IsBinary(r)
    ensures Decode(id) == Unknown ==> r == led
  {
    match Decode(id)
    case TurnOn => 1
    case TurnOff => 0
    case Toggle => Not(led)
    case Unknown => led
  }

  /** The LED state after a sequence of identifiers, applied in order. */
  function Run(led: int, ids: seq<Uint32>): (r: int)
    ensures IsBinary(led) ==> IsBinary(r)
    decreases |ids|
  {
    if ids == [] then led else Step(Run(led, ids[..|ids| - 1]), ids[|ids| - 1])
  }

  /** The LED state after each identifier of `ids`, in order. */
  function Trace(led: int, ids: seq<Uint32>): seq<int> {
    seq(|ids|, i requires 0 <= i < |ids| => Run(led, ids[..i + 1]))
  }

  /** The levels written to the LED pin while handling `ids`: one per recognised identifier. */
  function Writes(led: int, ids: seq<Uint32>): (w: seq<int>)
    decreases |ids|
  {
    if ids == [] then []
    else
      var last := ids[|ids| - 1];
      Writes(led, ids[..|ids| - 1]) + (if IsButton(last) then [Run(led, ids)] else [])
  }

  /** Number of recognised identifiers (21, 22 or 23) in `ids`. */
  function Recognised(ids: seq<Uint32>): nat
    decreases |ids|
  {
    if ids == [] then 0
    else Recognised(ids[..|ids| - 1]) + (if IsButton(ids[|ids| - 1]) then 1 else 0)
  }

  /** Number of toggle identifiers (23) in `ids`. */
  function Toggles(ids: seq<Uint32>): (n: nat)
    ensures n <= |ids|
    decreases |ids|
  {
    if ids == [] then 0
    else Toggles(ids[..|ids| - 1]) + (if ids[|ids| - 1] == BotaoInverte then 1 else 0)
  }

  /** The position of the last 21 or 22 in `ids`, if any. */
  function LastSetter(ids: seq<Uint32>): (k: Option<nat>)
    ensures k.Some? ==> k.value < |ids| && IsSetter(ids[k.value])
    ensures k.Some? ==> forall j :: k.value < j < |ids| ==> !IsSetter(ids[j])
    ensures k.None? ==> forall j :: 0 <= j < |ids| ==> !IsSetter(ids[j])
    decreases |ids|
  {
    if ids == [] then None
    else if IsSetter(ids[|ids| - 1]) then Some(|ids| - 1)
    else LastSetter(ids[..|ids| - 1])
  }

  /** `b` negated `n` times. */
  function Flip(b: int, n: nat): int {
    if n % 2 == 0 then b else Not(b)
  }

  /**
   * Independent description of the LED state after `ids`: the level set by
   * the last 21/22 (or the starting level if there is none), negated once per
   * 23 that follows it.
   */
  function Predicted(led: int, ids: seq<Uint32>): int {
    match LastSetter(ids)
    case None => Flip(led, Toggles(ids))
    case Some(k) => Flip(if ids[k] == BotaoLiga then 1 else 0, Toggles(ids[k + 1..]))
  }

  /** 21 and 22 force the state whatever it was before. */
  lemma SetterIgnoresPriorState(a: int, b: int, id: Uint32)
    requires IsSetter(id)
    ensures Step(a, id) == Step(b, id)
    ensures Step(a, id) == (if id == BotaoLiga then 1 else 0)
  {
  }

  /** 23 always changes a 0/1 state, and two consecutive 23s restore it. */
  lemma ToggleIsInvolution(led: int)
    requires IsBinary(led)
    ensures Step(led, BotaoInverte) != led
    ensures Step(Step(led, BotaoInverte), BotaoInverte) == led
  {
  }

  lemma {:induction false} TogglesSnoc(ids: seq<Uint32>, x: Uint32)
    ensures Toggles(ids + [x]) == Toggles(ids) + (if x == BotaoInverte then 1 else 0)
  {
    assert (ids + [x])[..|ids|] == ids;
  }

  lemma FlipOnceMore(b: int, n: nat)
    requires IsBinary(b)
    ensures Flip(b, n + 1) == Not(Flip(b, n))
  {
  }

  lemma {:induction false} LastSetterSnoc(p: seq<Uint32>, x: Uint32)
    ensures LastSetter(p + [x]) == if IsSetter(x) then Some(|p|) else LastSetter(p)
  {
    assert (p + [x])[..|p|] == p;
  }

  /** A toggle or an unknown identifier after a prefix with no 21/22. */
  lemma {:induction false} PredictedSnocNoSetter(led: int, p: seq<Uint32>, x: Uint32)
    requires IsBinary(led) && !IsSetter(x) && LastSetter(p).None?
    ensures Predicted(led, p + [x]) == Step(Predicted(led, p), x)
  {
    LastSetterSnoc(p, x);
    TogglesSnoc(p, x);
    FlipOnceMore(led, Toggles(p));
  }

  /** A toggle or an unknown identifier after the last 21/22 at position `k`. */
  lemma {:induction false} PredictedSnocAfterSetter(led: int, p: seq<Uint32>, x: Uint32, k: nat)
    requires IsBinary(led) && !IsSetter(x) && LastSetter(p) == Some(k)
    ensures Predicted(led, p + [x]) == Step(Predicted(led, p), x)
  {
    var ids := p + [x];
    LastSetterSnoc(p, x);
    assert ids[k] == p[k];
    assert ids[k + 1..] == p[k + 1..] + [x];
    TogglesSnoc(p[k + 1..], x);
    FlipOnceMore(if p[k] == BotaoLiga then 1 else 0, Toggles(p[k + 1..]));
  }

  /** Appending one identifier to the input moves the predicted state by one `Step`. */
  lemma {:induction false} PredictedSnoc(led: int, p: seq<Uint32>, x: Uint32)
    requires IsBinary(led)
    ensures Predicted(led, p + [x]) == Step(Predicted(led, p), x)
  {
    if IsSetter(x) {
      LastSetterSnoc(p, x);
      assert (p + [x])[|p| + 1..] == [];
    } else if LastSetter(p).None? {
      PredictedSnocNoSetter(led, p, x);
    } else {
      PredictedSnocAfterSetter(led, p, x, LastSetter(p).value);
    }
  }

  /**
   * The state after any sequence is determined by the last 21/22 event and the
   * parity of the 23 events after it.
   */
  lemma {:induction false} RunIsPredicted(led: int, ids: seq<Uint32>)
    requires IsBinary(led)
    ensures Run(led, ids) == Predicted(led, ids)
    decreases |ids|
  {
    if ids != [] {
      var p, x := ids[..|ids| - 1], ids[|ids| - 1];
      assert ids == p + [x];
      RunIsPredicted(led, p);
      PredictedSnoc(led, p, x);
    }
  }

  /**
   * The trace takes one `switch` step per identifier: the first state is one
   * step from the start, and every later one is one step from its predecessor.
   */
  lemma TraceSteps(led: int, ids: seq<Uint32>)
    ensures |Trace(led, ids)| == |ids|
    ensures |ids| > 0 ==> Trace(led, ids)[0] == Step(led, ids[0])
    ensures forall i :: 0 < i < |ids| ==> Trace(led, ids)[i] == Step(Trace(led, ids)[i - 1], ids[i])
  {
    if |ids| > 0 {
      assert ids[..1][..0] == [];
      assert Run(led, ids[..1]) == Step(Run(led, ids[..1][..0]), ids[0]);
    }
    forall i | 0 < i < |ids|
      ensures Trace(led, ids)[i] == Step(Trace(led, ids)[i - 1], ids[i])
    {
      assert ids[..i + 1][..i] == ids[..i];
    }
  }

  /** The pin is written exactly once per recognised identifier, and the last write is the final state. */
  lemma {:induction false} WritesCount(led: int, ids: seq<Uint32>)
    ensures |Writes(led, ids)| == Recognised(ids)
    ensures Writes(led, ids) != [] ==> Writes(led, ids)[|Writes(led, ids)| - 1] == Run(led, ids)
    decreases |ids|
  {
    if ids != [] {
      var p := ids[..|ids| - 1];
      WritesCount(led, p);
      if !IsButton(ids[|ids| - 1]) {
        assert Run(led, ids) == Run(led, p);
      }
    }
  }

  /** The sequence [21, 23, 23] from the initial state yields the states [1, 0, 1]. */
  lemma OnToggleToggle()
    ensures Trace(InitialLed, [21, 23, 23]) == [1, 0, 1]
  {
    var ids: seq<Uint32> := [21, 23, 23];
    assert ids[..1] == [21];
    assert ids[..2] == [21, 23];
    assert ids[..3] == ids;
    assert [21, 23][..1] == [21];
    assert [21, 23, 23][..2] == [21, 23];
  }

  /**
   * The worker's local state: `ESTADO_LED` and the levels it has written to
   * the LED pin (GPIO 2) with `gpio_set_level`, oldest first.
   */
  class ButtonTask {
    var led: int
    var levels: seq<int>

    /** The LED state is 0 or 1, and the pin shows it once it has been written. */
    ghost predicate Valid()
      reads this
    {
      IsBinary(led) && (levels != [] ==> levels[|levels| - 1] == led)
    }

    constructor ()
      ensures Valid()
      ensures led == InitialLed && levels == []
    {
      led := InitialLed;
      levels := [];
    }

    /** One pass of the receive loop's `switch`. */
    method HandleButton(id: Uint32)
      requires Valid()
      modifies this
      ensures Valid()
      ensures led == Step(old(led), id)
      ensures IsButton(id) ==> levels == old(levels) + [led]
      ensures !IsButton(id) ==> led == old(led) && levels == old(levels)
    {
      if id == BotaoLiga {
        led := 1;
        levels := levels + [led];
      } else if id == BotaoDesliga {
        led := 0;
        levels := levels + [led];
      } else if id == BotaoInverte {
        led := Not(led);
        levels := levels + [led];
      }
    }

    /** The receive loop, run over the identifiers that arrive, in order. */
    method Serve(ids: seq<Uint32>)
      requires Valid()
      modifies this
      ensures Valid()
      ensures led == Run(old(led), ids)
      ensures levels == old(levels) + Writes(old(led), ids)
    {
      var i := 0;
      while i < |ids|
        invariant 0 <= i <= |ids|
        invariant Valid()
        invariant led == Run(old(led), ids[..i])
        invariant levels == old(levels) + Writes(old(led), ids[..i])
      {
        assert ids[..i + 1][..i] == ids[..i];
        HandleButton(ids[i]);
        i := i + 1;
      }
      assert ids[..|ids|] == ids;
    }
  }
}
