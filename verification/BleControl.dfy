// The connections of the control service: the slot table of the BLE application, the connection
// that is in control, and the writes it makes to the board's speed.
module BleControl {
  import opened Errors
  import opened Words
  import opened Onboard

  // A connection id of the Bluetooth stack, and a slot that holds one or is free.
  type Conn = x: int | 0 <= x < 0x1_0000
  type Slot = x: int | -1 <= x < 0x1_0000 witness -1

  const FREE: Slot := -1
  const ATTR_NUM := 7
  const ATTR_SPEED := 2

  // The first index that holds x, or the length if none does.
  function IndexOf(s: seq<int>, x: int): (k: nat)
    ensures k <= |s|
    ensures k < |s| ==> s[k] == x
    ensures forall i | 0 <= i < k :: s[i] != x
  {
    if s == [] || s[0] == x then 0 else 1 + IndexOf(s[1..], x)
  }

  lemma IndexOfIs(s: seq<int>, x: int, k: nat)
    requires k <= |s| && (k < |s| ==> s[k] == x) && forall i | 0 <= i < k :: s[i] != x
    ensures IndexOf(s, x) == k
  {
  }

  datatype Call = Added(id: Conn) | Removed(id: Conn)

  // `calls` lists the add and del callbacks made so far.
  datatype System = System(
    registered: bool, slots: seq<Slot>, handles: seq<int>, controller: Slot, board: Board, calls: seq<Call>)

  const BOOT_SYSTEM := System(false, [], [], FREE, BOOT, [])

  // ---------------------------------------------------------------- the control service

  // A controller with an id above zero is kept.
  function ConnAdd(s: System, id: Conn): System {
    var t := s.(calls := s.calls + [Added(id)]);
    if s.controller > 0 then t else t.(controller := id)
  }

  function ConnDel(s: System, id: Conn, accepted: bool): System {
    var t := s.(calls := s.calls + [Removed(id)]);
    if id != s.controller then t else t.(controller := FREE, board := SetSpeed(s.board, 0, accepted))
  }

  function ConnWrite(s: System, id: Conn, attr: int, value: seq<uint8>, accepted: bool): System {
    if attr == ATTR_SPEED && |value| == 1 && s.controller == id then s.(board := SetSpeed(s.board, value[0], accepted))
    else s
  }

  // ---------------------------------------------------------------- the events

  datatype Event =
    | Register(connMax: nat)
    | AttrTab(ok: bool, newHandles: seq<int>)
    | Connect(id: Conn)
    | Disconnect(id: Conn, accepted: bool)
    | Write(id: Conn, handle: int, value: seq<uint8>, accepted: bool)
    | Start(how: Outcome)
    | Stop
    | Deinit(accepted: bool)

  function Step(s: System, e: Event): System {
    match e
    case Register(n) =>
      if s.registered then s
      else s.(registered := true, slots := seq(n, _ => FREE), handles := seq(ATTR_NUM, _ => 0))
    case AttrTab(ok, newHandles) =>
      if s.registered && ok && |newHandles| == ATTR_NUM then s.(handles := newHandles, controller := FREE) else s
    case Connect(id) =>
      var k := IndexOf(s.slots, FREE);
      if k == |s.slots| then s else ConnAdd(s.(slots := s.slots[k := id]), id)
    case Disconnect(id, accepted) =>
      var k := IndexOf(s.slots, id);
      if k == |s.slots| then s else ConnDel(s, id, accepted).(slots := s.slots[k := FREE])
    case Write(id, handle, value, accepted) =>
      var attr := IndexOf(s.handles, handle);
      if attr == |s.handles| || IndexOf(s.slots, id) == |s.slots| then s
      else ConnWrite(s, id, attr, value, accepted)
    case Start(how) => s.(board := StartBoard(s.board, how))
    case Stop => s.(board := StopBoard(s.board))
    case Deinit(accepted) =>
      if !s.registered then s
      else DelAll(s, |s.slots|, accepted).(registered := false, slots := [], handles := [])
  }

  // The del callback for every connection in the first k slots, which stay as they are.
  function DelAll(s: System, k: nat, accepted: bool): (t: System)
    requires k <= |s.slots|
    ensures t.slots == s.slots && t.handles == s.handles && t.registered == s.registered
  {
    if k == 0 then s
    else
      var t := DelAll(s, k - 1, accepted);
      if s.slots[k - 1] < 0 then t else ConnDel(t, s.slots[k - 1], accepted)
  }

  // ---------------------------------------------------------------- the code

  // One BLE application with the callbacks of the control service. The slots are an array that is
  // written in place.
  class ControlApp {
    const board: OnboardState
    var registered: bool
    var slots: array<Slot>
    var handles: seq<int>
    var connId: Slot
    var calls: seq<Call>

    ghost function Value(): System
      reads this, slots, board
    {
      System(registered, slots[..], handles, connId, board.Value(), calls)
    }

    constructor ()
      ensures fresh(board) && fresh(slots)
      ensures Value() == BOOT_SYSTEM
    {
      board := new OnboardState();
      registered := false;
      slots := new Slot[0];
      handles := [];
      connId, calls := FREE, [];
    }

    method RegisterApp(connMax: nat)
      modifies this
      ensures Value() == Step(old(Value()), Register(connMax))
      ensures slots == old(slots) || fresh(slots)
    {
      if registered {
        return;
      }
      handles := seq(ATTR_NUM, _ => 0);
      slots := new Slot[connMax];
      for i := 0 to connMax
        modifies slots
        invariant forall j | 0 <= j < i :: slots[j] == FREE
      {
        slots[i] := FREE;
      }
      registered := true;
      assert slots[..] == seq(connMax, _ => FREE);
    }

    method AppConnAdd(id: Conn)
      modifies this`connId, this`calls
      ensures Value() == ConnAdd(old(Value()), id)
    {
      calls := calls + [Added(id)];
      if connId > 0 {
        return;
      }
      connId := id;
    }

    method AppConnDel(id: Conn, accepted: bool)
      modifies this`connId, this`calls, board
      ensures Value() == ConnDel(old(Value()), id, accepted)
    {
      calls := calls + [Removed(id)];
      if id != connId {
        return;
      }
      connId := FREE;
      var _ := board.UpdateSpeed(0, accepted);
    }

    method AppConnWrite(id: Conn, attr: int, value: seq<uint8>, accepted: bool)
      modifies board
      ensures Value() == ConnWrite(old(Value()), id, attr, value, accepted)
    {
      if attr == ATTR_SPEED {
        if |value| != 1 {
          return;
        }
        if connId != id {
          return;
        }
        var _ := board.UpdateSpeed(value[0], accepted);
      }
    }

    // The first slot that holds the connection, or the number of slots if none does.
    method GetCtx(id: Conn) returns (err: Err, slot: nat)
      ensures slot == IndexOf(slots[..], id)
      ensures err == if slot < slots.Length then Ok else InvalidParam
    {
      for i := 0 to slots.Length
        invariant forall j | 0 <= j < i :: slots[j] != id
      {
        if slots[i] == id {
          IndexOfIs(slots[..], id, i);
          return Ok, i;
        }
      }
      IndexOfIs(slots[..], id, slots.Length);
      return InvalidParam, slots.Length;
    }

    method GetAttrIdx(handle: int) returns (err: Err, attr: nat)
      ensures attr == IndexOf(handles, handle)
      ensures err == if attr < |handles| then Ok else InvalidParam
    {
      for i := 0 to |handles|
        invariant forall j | 0 <= j < i :: handles[j] != handle
      {
        if handles[i] == handle {
          IndexOfIs(handles, handle, i);
          return Ok, i;
        }
      }
      IndexOfIs(handles, handle, |handles|);
      return InvalidParam, |handles|;
    }

    method OnAttrTab(ok: bool, newHandles: seq<int>)
      modifies this
      ensures Value() == Step(old(Value()), AttrTab(ok, newHandles))
      ensures slots == old(slots)
    {
      if !registered || !ok || |newHandles| != ATTR_NUM {
        return;
      }
      handles := newHandles;
      connId := FREE;
    }

    method OnConnect(id: Conn)
      modifies this`connId, this`calls, slots
      ensures Value() == Step(old(Value()), Connect(id))
    {
      for i := 0 to slots.Length
        invariant Value() == old(Value())
        invariant forall j | 0 <= j < i :: slots[j] != FREE
      {
        if slots[i] < 0 {
          IndexOfIs(slots[..], FREE, i);
          slots[i] := id;
          AppConnAdd(id);
          return;
        }
      }
      IndexOfIs(slots[..], FREE, slots.Length);
    }

    method OnDisconnect(id: Conn, accepted: bool)
      modifies this`connId, this`calls, slots, board
      ensures Value() == Step(old(Value()), Disconnect(id, accepted))
    {
      for i := 0 to slots.Length
        invariant Value() == old(Value())
        invariant forall j | 0 <= j < i :: slots[j] != id
      {
        if id == slots[i] {
          IndexOfIs(slots[..], id, i);
          AppConnDel(slots[i], accepted);
          slots[i] := FREE;
          return;
        }
      }
      IndexOfIs(slots[..], id, slots.Length);
    }

    method OnWrite(id: Conn, handle: int, value: seq<uint8>, accepted: bool)
      modifies board
      ensures Value() == Step(old(Value()), Write(id, handle, value, accepted))
    {
      var err, attr := GetAttrIdx(handle);
      if err != Ok {
        return;
      }
      var slot;
      err, slot := GetCtx(id);
      if err != Ok {
        return;
      }
      AppConnWrite(slots[slot], attr, value, accepted);
    }

    method DeinitApps(accepted: bool) returns (err: Err)
      modifies this, board
      ensures Value() == Step(old(Value()), Deinit(accepted))
      ensures err == if old(registered) then Ok else BleNoInit
      ensures slots == old(slots) || fresh(slots)
    {
      if !registered {
        return BleNoInit;
      }
      for j := 0 to slots.Length
        invariant slots == old(slots)
        invariant Value() == DelAll(old(Value()), j, accepted)
      {
        if slots[j] < 0 {
          continue;
        }
        AppConnDel(slots[j], accepted);
      }
      handles := [];
      slots := new Slot[0];
      registered := false;
      err := Ok;
    }

    // `sent` lists the connections an indication goes to.
    method NotifyAll() returns (sent: seq<Slot>)
      ensures sent == Used(slots[..])
    {
      sent := [];
      ghost var all := slots[..];
      for i := 0 to slots.Length
        invariant sent == Used(all[..i])
      {
        assert all[..i + 1][..i] == all[..i];
        if slots[i] < 0 {
          continue;
        }
        sent := sent + [slots[i]];
      }
      assert all[..slots.Length] == all;
    }
  }

  // The slots in use, in order.
  function Used(slots: seq<Slot>): (r: seq<Slot>)
    ensures |r| <= |slots|
  {
    if slots == [] then []
    else
      var n := |slots| - 1;
      if slots[n] < 0 then Used(slots[..n]) else Used(slots[..n]) + [slots[n]]
  }
}
