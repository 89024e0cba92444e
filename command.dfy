/** The command vocabulary shared by the mesh nodes (command.hpp). */
module Command {

  type uint8 = x: int | 0 <= x < 0x100
  type uint32 = x: int | 0 <= x < 0x1_0000_0000

  /** message_type, a 32-bit enum: its four named values. */
  const KEEP_ALIVE: uint32 := 0
  const START_KEEP_ALIVE: uint32 := 1
  const STOP_KEEP_ALIVE: uint32 := 2
  const GO_TO_SLEEP: uint32 := 3

  /** my_bool, a one-byte boolean. */
  type MyBool = uint8
  const FALSE: MyBool := 0
  const TRUE: MyBool := 1

  /** to_bool: a C++ cast to bool, so any non-zero byte reads as true. */
  function ToBool(b: MyBool): (r: bool)
    ensures r <==> b != FALSE
  {
    b != 0
  }

  /** from_bool: the two booleans map to the two named values. */
  function FromBool(b: bool): (r: MyBool)
    ensures b ==> r == TRUE
    ensures !b ==> r == FALSE
  {
    if b then TRUE else FALSE
  }

  lemma ToBoolFromBool(b: bool)
    ensures ToBool(FromBool(b)) == b
  {
  }

  /** Encoding the boolean a byte reads as gives back the byte exactly when it is one of the named values. */
  lemma FromBoolToBool(m: MyBool)
    ensures FromBool(ToBool(m)) == m <==> m == FALSE || m == TRUE
  {
  }

  /** type_to_name: a name for each named value, "invalid_type" for any other. */
  function TypeToName(t: uint32): (name: string)
    ensures t == KEEP_ALIVE ==> name == "keep_alive"
    ensures t == START_KEEP_ALIVE ==> name == "start_keep_alive"
    ensures t == STOP_KEEP_ALIVE ==> name == "stop_keep_alive"
    ensures t == GO_TO_SLEEP ==> name == "go_to_sleep"
    ensures t > GO_TO_SLEEP ==> name == "invalid_type"
  {
    if t == KEEP_ALIVE then "keep_alive"
    else if t == START_KEEP_ALIVE then "start_keep_alive"
    else if t == STOP_KEEP_ALIVE then "stop_keep_alive"
    else if t == GO_TO_SLEEP then "go_to_sleep"
    else "invalid_type"
  }

  /** The names tell the values apart: distinct values get distinct names, and no named value is called "invalid_type". */
  lemma TypeNamesDistinct(a: uint32, b: uint32)
    requires a <= GO_TO_SLEEP && b <= GO_TO_SLEEP
    ensures TypeToName(a) == TypeToName(b) <==> a == b
    ensures TypeToName(a) != "invalid_type"
  {
    if a != b {
      assert TypeToName(a)[..3] != TypeToName(b)[..3] || |TypeToName(a)| != |TypeToName(b)|;
    }
  }
}
