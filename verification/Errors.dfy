// The error codes of the firmware that the modelled functions can return.
module Errors {
  datatype Err =
    | Ok
      // BMS transaction
    | BmsInvalidLen
    | BmsWrongAddress
    | BmsWrongResponse
    | BmsNoResponse
      // UART codec
    | MsgNoHeader
    | MsgInvalidPldLen
    | MsgInvalidChkSum
    | MsgInvalidBuffer
      // PS/2 link
    | Ps2Timeout
    | Ps2RespTimeout
    | Ps2BadMvmt
    | Ps2BadStart
    | Ps2BadStop
    | Ps2BadParity
    | Ps2NoAck
    | Ps2Resend
    | Ps2Error
      // Button
    | BtnTimeout
      // BLE applications and the board
    | BleNoInit
    | InvalidParam
    | OutOfMemory
    | BoardReinit
    | BoardNoInit
}
