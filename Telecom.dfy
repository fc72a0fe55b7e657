/**
 * Values the conference code takes from the Android telecom framework:
 * connection states, disconnect causes and the call capability bits.
 * The numbers are those the framework publishes; the framework classes
 * themselves are not part of this model.
 */
module Telecom {

  datatype Option<+T> = None | Some(value: T)

  // android.telecom.Connection states
  const STATE_INITIALIZING: int := 0
  const STATE_NEW: int := 1
  const STATE_RINGING: int := 2
  const STATE_DIALING: int := 3
  const STATE_ACTIVE: int := 4
  const STATE_HOLDING: int := 5
  const STATE_DISCONNECTED: int := 6

  /** A disconnect cause, reduced to its code; causes reported by the host are opaque. */
  datatype DisconnectCause = DisconnectCause(code: int)

  /** The cause that keeps a call out of the call log. */
  const CANCELED: int := 4

  // PhoneCapabilities bits; a capability set is a Java int
  const HOLD: bv32 := 0x1
  const SUPPORT_HOLD: bv32 := 0x2
  const MUTE: bv32 := 0x40
  const MANAGE_CONFERENCE: bv32 := 0x80

  /** PhoneCapabilities.remove: the set without the capability's bits, and with every other bit it had. */
  function Remove(capabilities: bv32, capability: bv32): (r: bv32)
    ensures r & capability == 0
    ensures r | capability == capabilities | capability
  {
    capabilities & !capability
  }

  /** PhoneCapabilities.can: the set shares a bit with the capability, so removing the capability changes it. */
  function Can(capabilities: bv32, capability: bv32): (r: bool)
    ensures r == (Remove(capabilities, capability) != capabilities)
  {
    capabilities & capability != 0
  }
}
