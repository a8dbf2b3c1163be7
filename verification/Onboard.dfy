// The board: the ride state and the speed handed to the motor's PWM signal.
module Onboard {
  import opened Errors
  import opened Words

  datatype Ride = Stopped | Init | Running

  // `duty` is what the PWM hardware last accepted; it is not part of the board's own record.
  datatype Board = Board(state: Ride, nowSpeed: uint8, err: Err, duty: uint8)

  const BOOT := Board(Stopped, 0, Ok, 0)

  // How a start goes: the first allocation fails, a later step fails (before or after the PWM signal
  // is set up), or every step succeeds.
  datatype Outcome = NoMemory | Fails(err: Err, pwmReady: bool) | Starts

  function StopBoard(b: Board): Board {
    Board(Stopped, 0, Ok, b.duty)
  }

  function StartBoard(b: Board, how: Outcome): Board {
    if b.state != Stopped then b
    else
      match how
      case NoMemory => b.(state := Init)
      case Fails(_, pwmReady) => StopBoard(if pwmReady then b.(duty := 0) else b)
      case Starts => b.(state := Running, duty := 0)
  }

  function SetSpeed(b: Board, speed: uint8, accepted: bool): Board {
    if b.state == Stopped then b
    else
      b.(nowSpeed := speed, err := if accepted then Ok else InvalidParam, duty := if accepted then speed else b.duty)
  }

  class OnboardState {
    var state: Ride
    var nowSpeed: uint8
    var err: Err
    var duty: uint8

    ghost function Value(): Board
      reads this
    {
      Board(state, nowSpeed, err, duty)
    }

    constructor ()
      ensures Value() == BOOT
    {
      state, nowSpeed, err, duty := Stopped, 0, Ok, 0;
    }

    method Start(how: Outcome) returns (result: Err)
      modifies this
      ensures Value() == StartBoard(old(Value()), how)
      ensures result == if old(state) != Stopped then BoardReinit
                        else match how case NoMemory => OutOfMemory case Fails(e, _) => e case Starts => Ok
    {
      if state != Stopped {
        return BoardReinit;
      }
      state := Init;
      match how {
        case NoMemory =>
          return OutOfMemory;
        case Fails(e, pwmReady) =>
          if pwmReady {
            duty := 0;
          }
          Stop();
          return e;
        case Starts =>
          duty := 0;
          state := Running;
          return Ok;
      }
    }

    // `accepted` tells whether the PWM hardware takes the duty.
    method UpdateSpeed(speed: uint8, accepted: bool) returns (result: Err)
      modifies this
      ensures Value() == SetSpeed(old(Value()), speed, accepted)
      ensures result == if old(state) == Stopped then BoardNoInit else err
    {
      if state == Stopped {
        return BoardNoInit;
      }
      nowSpeed := speed;
      if accepted {
        duty := speed;
        err := Ok;
      } else {
        err := InvalidParam;
      }
      result := err;
    }

    // The record is cleared; the PWM signal is left as it is.
    method Stop()
      modifies this
      ensures Value() == StopBoard(old(Value()))
    {
      state, nowSpeed, err := Stopped, 0, Ok;
    }
  }
}
