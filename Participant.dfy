/**
 * The connection that stands for one conference participant inside the
 * call manager. It is a virtual connection keyed by its endpoint; it owns
 * no radio resource of its own.
 */
module Participant {
  import opened Telecom
  import opened Roster

  class ConferenceParticipantConnection {
    /** The participant's endpoint, fixed at creation. */
    const endpoint: Endpoint
    /** The connection state. */
    var state: int
    /** Whether the conference's participant listener is registered on this connection. */
    var subscribed: bool
    /** The cause given when the connection was disconnected, if it was. */
    var disconnectCause: Option<DisconnectCause>
    /** Whether the connection has been destroyed. */
    var destroyed: bool

    /**
     * A connection for the given participant entry. It starts in the state
     * every new connection has, NEW: not the active state, and not the
     * reported one either, which the conference applies afterwards.
     */
    constructor (participant: ConferenceParticipant)
      ensures endpoint == participant.endpoint
      ensures state == STATE_NEW && !subscribed && disconnectCause == None && !destroyed
    {
      endpoint := participant.endpoint;
      state := STATE_NEW;
      subscribed := false;
      disconnectCause := None;
      destroyed := false;
    }

    /** Takes the state the conference event package reports. */
    method UpdateState(newState: int)
      modifies this`state
      ensures state == newState
    {
      state := newState;
    }

    method AddConnectionListener()
      modifies this`subscribed
      ensures subscribed
    {
      subscribed := true;
    }

    method RemoveConnectionListener()
      modifies this`subscribed
      ensures !subscribed
    {
      subscribed := false;
    }

    /** Records the cause and moves the connection to DISCONNECTED. */
    method SetDisconnected(cause: DisconnectCause)
      modifies this`disconnectCause, this`state
      ensures disconnectCause == Some(cause) && state == STATE_DISCONNECTED
    {
      disconnectCause := Some(cause);
      state := STATE_DISCONNECTED;
    }

    method Destroy()
      modifies this`destroyed
      ensures destroyed
    {
      destroyed := true;
    }
  }
}
