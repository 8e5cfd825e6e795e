/** src/control/hysteresis.rs: the asymmetric deadband in front of the ramp limiter. */
module Hysteresis {
  import opened Floats

  datatype Direction = Rising | Falling | Held

  datatype Hyst = Hyst(holdRpm: real, direction: Direction, lastTemp: real)

  // ---- specification on values ---------------------------------------------------------

  // The direction picks the order of the two tests, never their outcome.
  predicate Emits(h: Hyst, temp: real, up: real, down: real) {
    temp - h.lastTemp > up || temp - h.lastTemp < -down
  }

  function Fresh(rpm: real, temp: real): Hyst {
    Hyst(rpm, Held, temp)
  }

  function Next(h: Hyst, curveRpm: real, temp: real, up: real, down: real): Hyst {
    if Emits(h, temp, up, down) then
      Hyst(curveRpm,
           if temp > h.lastTemp then Rising else if temp < h.lastTemp then Falling else Held,
           temp)
    else h
  }

  // ---- the source's mutable state ------------------------------------------------------

  class HysteresisState {
    var holdRpm: real
    var direction: Direction
    var lastTemp: real

    function Value(): Hyst
      reads this
    {
      Hyst(holdRpm, direction, lastTemp)
    }

    constructor (initialRpm: real, initialTemp: real)
      ensures Value() == Fresh(initialRpm, initialTemp)
    {
      holdRpm := initialRpm;
      direction := Held;
      lastTemp := initialTemp;
    }

    method Reinit(rpm: real, temp: real)
      modifies this
      ensures Value() == Fresh(rpm, temp)
    {
      holdRpm := rpm;
      direction := Held;
      lastTemp := temp;
    }

    method Apply(curveRpm: real, smoothed: real, up: real, down: real) returns (rpm: real)
      modifies this
      ensures Value() == Next(old(Value()), curveRpm, smoothed, up, down)
      ensures rpm == holdRpm
    {
      var delta := smoothed - lastTemp;
      var shouldEmit;
      match direction {
      case Rising | Held =>
        if delta > up {
          shouldEmit := true;
        } else if delta < -down {
          shouldEmit := true;
        } else {
          shouldEmit := false;
        }
      case Falling =>
        if delta < -down {
          shouldEmit := true;
        } else if delta > up {
          shouldEmit := true;
        } else {
          shouldEmit := false;
        }
      }
      if shouldEmit {
        holdRpm := curveRpm;
        lastTemp := smoothed;
        direction := if delta > 0.0 then Rising else if delta < 0.0 then Falling else Held;
      }
      rpm := holdRpm;
    }
  }

  // ---- one step of the deadband argument -----------------------------------------------

  // An emission spends more than `m` of the distance the temperature has travelled since
  // the last one; a silent step spends nothing.
  lemma DeadbandStep(h: Hyst, curveRpm: real, prev: real, temp: real, up: real, down: real)
    ensures var h' := Next(h, curveRpm, temp, up, down);
            var spent := if Emits(h, temp, up, down) then Min(up, down) else 0.0;
            spent + Abs(temp - h'.lastTemp) <= Abs(prev - h.lastTemp) + Abs(temp - prev)
  {
  }

  // After every step the temperature is inside the band around the last emission.
  lemma InBand(h: Hyst, curveRpm: real, temp: real, up: real, down: real)
    requires up >= 0.0 && down >= 0.0
    ensures var h' := Next(h, curveRpm, temp, up, down);
            temp - up <= h'.lastTemp <= temp + down
  {
  }
}
