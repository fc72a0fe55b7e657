# IMS conference roster

A model of `ImsConference`, the telephony object that presents an IMS
conference call as one multi-party call. The conference has one host
connection to the conference server. It also keeps a roster of virtual
participant connections, keyed by endpoint. Each time the host delivers a
conference event package, the conference reconciles the roster with the
participant list in it. It also keeps the manage-conference capability
in line with the roster, mirrors the host's state, and tears the roster
down when the host goes away.

The project has four modules:

- `Telecom`: the framework constants the code uses, and two capability-bit helpers. The constants are the connection states, the CANCELED disconnect cause and the capability bits.
- `Roster`: pure definitions over a participant list. These are the endpoints it names, the entries that create connections, and the states an update leaves on known connections.
- `Participant`: the class `ConferenceParticipantConnection`. It holds an endpoint, a state, whether the conference's listener is registered, a disconnect cause and a destroyed flag.
- `Conference`: the class `ImsConference`. Its roster is a `map` from endpoint to connection object, and its child connections are a `set`. The connections handed to the connection service are a `seq`, in order. The capabilities are a `bv32` (a Java `int`). It also holds the aggregate state, the disconnect cause and a destroyed flag.

The roster update is one method for each pass of the source:

- pass 1 creates new participants and updates known ones;
- pass 2 sets the state of the new participants;
- pass 3 drops the absent participants and recomputes the capability.

Pass 1 and the teardown loop are broken into one step method per entry, so each proof stays small. Every pass method of the update is proved against pure definitions in `Roster`. The teardown, the capability recomputation and the host callbacks are proved against their own postconditions, which state the new state outright.

What a roster update does, as proved:

- The roster's endpoints become exactly those the list names, so an empty list empties the roster.
- A known endpoint that is still named keeps its connection object. That object ends in the state of the endpoint's last entry in the list.
- An unknown endpoint gets exactly one new connection, however often the list names it. The connection is registered, published and added to the conference. Because of the second pass, it ends in the state of the endpoint's first entry.
- An endpoint the list no longer names loses the listener, leaves the conference's connections and is dropped from the roster. It is not disconnected, not destroyed, and its state is unchanged.
- If anything was added or dropped, MANAGE_CONFERENCE is set exactly when the roster is non-empty, and every other capability bit stays as it was.
- A list naming exactly the known endpoints creates, publishes and drops nothing. One example is the same list delivered twice.

The code creates new participants in the connection's initial state, NEW. The comment at `ImsConference.java:406` speaks of the holding state, but the code never sets it, and the model follows the code. An update drops absent participants (:372-384) without disconnecting or destroying them. Only the teardown after the host is destroyed (:441-455) disconnects participants, with cause CANCELED.

## Model

| member | source | states |
|---|---|---|
| Telecom.Can | src/com/android/services/telephony/ImsConference.java:298-299 | the set holds the capability exactly when removing the capability changes the set |
| Telecom.Remove | src/com/android/services/telephony/ImsConference.java:310-311 | the result shares no bit with the capability, and with the capability put back it is the original set with the capability |
| Roster.EndpointsSnoc | src/com/android/services/telephony/ImsConference.java:343-348 | the endpoint set built as pass 1 walks the list: each entry adds exactly its own endpoint |
| Roster.NewParticipants | src/com/android/services/telephony/ImsConference.java:342-352 | the new-participant list is no longer than the list; `NewParticipantsAreFirstOccurrences` states which entries it holds |
| Roster.NewParticipantsAreFirstOccurrences | src/com/android/services/telephony/ImsConference.java:346-352 | the entries that create connections name exactly the list's unknown endpoints, each once, each by its first entry in the list |
| Roster.NewParticipantIsFirstEntry | src/com/android/services/telephony/ImsConference.java:361-367 | for an unknown endpoint, the last entry for it among the new participants, which pass 2 applies last, is its first entry in the list |
| Roster.KnownEndpointsCreateNothing | src/com/android/services/telephony/ImsConference.java:349-357 | a list all of whose endpoints are known creates no participant |
| Roster.UpdatedStatesAreLastStates | src/com/android/services/telephony/ImsConference.java:353-357 | after pass 1 a known endpoint's connection has the state of the endpoint's last entry in the list, or its own state if no entry names it |
| Roster.FirstIndex | src/com/android/services/telephony/ImsConference.java:346-352 | the position of an endpoint's first entry: it names the endpoint and no earlier entry does |
| Roster.LastIndex | src/com/android/services/telephony/ImsConference.java:353-357 | the position of an endpoint's last entry: it names the endpoint and no later entry does |
| Roster.UpdatedStates | src/com/android/services/telephony/ImsConference.java:353-357 | the states pass 1 leaves on known connections; the same endpoints as before |
| Participant.ConferenceParticipantConnection.constructor | src/com/android/services/telephony/ImsConference.java:408-409 | a connection for the entry's endpoint, in state NEW, without listener, cause or destruction |
| Participant.ConferenceParticipantConnection.UpdateState | src/com/android/services/telephony/ImsConference.java:354-356 | the connection takes the reported state and nothing else changes |
| Participant.ConferenceParticipantConnection.AddConnectionListener | src/com/android/services/telephony/ImsConference.java:410 | the conference's listener is registered |
| Participant.ConferenceParticipantConnection.RemoveConnectionListener | src/com/android/services/telephony/ImsConference.java:433 | the conference's listener is unregistered |
| Participant.ConferenceParticipantConnection.SetDisconnected | src/com/android/services/telephony/ImsConference.java:451 | the connection records the cause and is DISCONNECTED |
| Participant.ConferenceParticipantConnection.Destroy | src/com/android/services/telephony/ImsConference.java:452 | the connection is destroyed |
| Conference.WithManageConference | src/com/android/services/telephony/ImsConference.java:297-315 | the manage-conference bit says whether the conference can be managed; every other bit is unchanged |
| Conference.UpdatedConnections | src/com/android/services/telephony/ImsConference.java:350-381 | the conference's connections after passes 1 and 3: the old ones plus those created, less those dropped |
| Conference.UnchangedRosterUpdate | src/com/android/services/telephony/ImsConference.java:337-391 | from the update's postconditions: a list naming exactly the roster's endpoints leaves the roster, the connections and the published list as they were |
| Conference.ImsConference.constructor | src/com/android/services/telephony/ImsConference.java:171-182 | empty roster, no connections; capabilities SUPPORT_HOLD, HOLD and MUTE, so no MANAGE_CONFERENCE and the bit matches the empty roster |
| Conference.ImsConference.UpdateManageConference | src/com/android/services/telephony/ImsConference.java:297-315 | capabilities become `WithManageConference` of the old ones and the roster's non-emptiness, so the bit tracks the roster |
| Conference.ImsConference.UpdateManageConferenceIf | src/com/android/services/telephony/ImsConference.java:386-390 | the capability is recomputed if the roster changed, and left alone otherwise |
| Conference.ImsConference.CreateConferenceParticipantConnection | src/com/android/services/telephony/ImsConference.java:403-421 | a fresh NEW connection with the listener is filed under the endpoint, published last and added to the conference's connections; nothing else in the roster changes |
| Conference.ImsConference.UpdateKnownParticipant | src/com/android/services/telephony/ImsConference.java:353-357 | one pass-1 step at a known endpoint: its connection ends in the entry's state, and the pass invariant holds for one more entry |
| Conference.ImsConference.AddNewParticipant | src/com/android/services/telephony/ImsConference.java:349-352 | one pass-1 step at an unknown endpoint: one fresh connection under it, in state NEW; the entry joins the new participants, and the pass invariant holds for one more entry |
| Conference.ImsConference.AddOrUpdateParticipant | src/com/android/services/telephony/ImsConference.java:346-358 | one pass-1 iteration: the endpoint is recorded and is in the roster afterwards; its connection ends in the entry's state if it was known, and in NEW if it was created; known entries keep their objects |
| Conference.ImsConference.AddAndUpdateParticipants | src/com/android/services/telephony/ImsConference.java:345-358 | pass 1: the roster gains exactly the unknown endpoints, with fresh untouched connections filed, published in list order and added; known connections keep their objects and take the state of their last entry |
| Conference.ImsConference.SetNewParticipantStates | src/com/android/services/telephony/ImsConference.java:360-368 | pass 2, run only when something was added: each new participant's connection takes the state of its last entry in the new-participant list; all other states, causes and destruction flags are unchanged, and no connection off the roster is touched |
| Conference.ImsConference.AddParticipants | src/com/android/services/telephony/ImsConference.java:345-368 | passes 1 and 2: as pass 1, except that a new endpoint's connection ends in the state of its first entry; something was added exactly when the list names an unknown endpoint |
| Conference.ImsConference.DropParticipant | src/com/android/services/telephony/ImsConference.java:377-383 | one pass-3 removal: the listener comes off, the connection leaves the conference and the entry leaves the roster |
| Conference.ImsConference.RemoveIfAbsent | src/com/android/services/telephony/ImsConference.java:375-383 | one pass-3 iteration: an entry the list does not name is dropped and unsubscribed and sets the flag; a named one is kept; the pass invariant holds for one entry fewer |
| Conference.ImsConference.RemoveAbsentParticipants | src/com/android/services/telephony/ImsConference.java:370-384 | pass 3: exactly the unnamed entries are dropped, unsubscribed and removed from the connections; the flag says whether any was |
| Conference.ImsConference.RemoveAbsentAndUpdateManageConference | src/com/android/services/telephony/ImsConference.java:370-390 | pass 3 and the capability: the roster's endpoints become the list's; the capability is recomputed exactly when the endpoints changed; dropped connections keep state, cause and destruction |
| Conference.ImsConference.HandleConferenceParticipantsUpdate | src/com/android/services/telephony/ImsConference.java:337-391 | the whole update, in every property listed above the table; only connections on the roster when it starts can change state or listener, so one already dropped from it stays as it is |
| Conference.ImsConference.RemoveConferenceParticipant | src/com/android/services/telephony/ImsConference.java:428-436 | the listener comes off the participant and its endpoint leaves the roster; other entries are untouched |
| Conference.ImsConference.OnParticipantDestroyed | src/com/android/services/telephony/ImsConference.java:77-82 | a participant that destroys itself leaves the roster, and MANAGE_CONFERENCE then tracks the roster |
| Conference.ImsConference.DisconnectParticipant | src/com/android/services/telephony/ImsConference.java:447-452 | one teardown step: off the roster, unsubscribed, disconnected with CANCELED, destroyed |
| Conference.ImsConference.DisconnectConferenceParticipants | src/com/android/services/telephony/ImsConference.java:441-455 | on host destruction (:121-123): the roster empties, every former participant is torn down, and capabilities and connections are not touched |
| Conference.ImsConference.SetState | src/com/android/services/telephony/ImsConference.java:462-484 | on a host state change (:99-101): ACTIVE makes the conference active, HOLDING holds it, DISCONNECTED disconnects it with the host's cause and destroys it; any other value changes nothing |
| Conference.ImsConference.SetDisconnected | src/com/android/services/telephony/ImsConference.java:472-474 | the conference records the cause and is DISCONNECTED |
| Conference.ImsConference.OnDisconnected | src/com/android/services/telephony/ImsConference.java:110-112 | a host disconnect disconnects the conference with the host's cause, without destroying it |
| Conference.ImsConference.OnConferenceParticipantsChanged | src/com/android/services/telephony/ImsConference.java:133-142 | a report without host connection changes nothing: roster, connections, published list, capabilities, and every connection's state and listener; otherwise the roster becomes the list's endpoints |
| Conference.ImsConference.OnSeparate | src/com/android/services/telephony/ImsConference.java:225-227 | roster, capabilities and state are unchanged |
| Conference.ImsConference.OnConnectionAdded | src/com/android/services/telephony/ImsConference.java:288-290 | roster, capabilities and state are unchanged |
| Conference.ImsConference.OnDisconnect | src/com/android/services/telephony/ImsConference.java:203-214 | a hang-up is requested of the host's call exactly when there is one |
| Conference.ImsConference.OnMerge | src/com/android/services/telephony/ImsConference.java:236-245 | a merge is requested exactly when the connection has a phone |
| Conference.ImsConference.OnHold | src/com/android/services/telephony/ImsConference.java:251-253 | a hold is requested of the host |
| Conference.ImsConference.OnUnhold | src/com/android/services/telephony/ImsConference.java:259-261 | an unhold is requested of the host |
| Conference.ImsConference.OnPlayDtmfTone | src/com/android/services/telephony/ImsConference.java:269-271 | the tone is passed to the host |
| Conference.ImsConference.OnStopDtmfTone | src/com/android/services/telephony/ImsConference.java:277-279 | stopping the tone is passed to the host |

## Left out

- Concurrency: the concurrent hash map exists for thread safety. The model is a sequential `map`, and the iteration over it in pass 3 and in the teardown is taken in any order.
- Radio and Telecom side effects are foreign calls. The model records them in `hostRequests` without modelling what they do: hang-up, merge, hold, unhold and DTMF. Those absent at the call are booleans: the host's call, the connection's phone.
- `addExistingConnection` and the phone account handle become an append to `published`. The base class's `addConnection`/`removeConnection` become set operations on `connections`.
- CallStateException: the model keeps only the fact that the conference's state does not change when the request fails.
- The host's disconnect cause, mapped through `DisconnectCauseUtil`, is a parameter. The mapping is not modelled.
- Logging, `toString`, the `ConferenceHostConnection` subclass, `setConferenceHost` and `getPrimaryConnection` are not part of this model. The base class's listener callbacks that fire when state or capabilities change are not part of it either.
- The framework constants are not in the source. The model uses the values the Android framework publishes for them.
- ConferenceParticipantConnection.java and the framework Conference and Connection classes are not part of this model. `updateState` is a plain assignment. The connection's initial state is NEW. `setDisconnected` records the cause and sets DISCONNECTED. `destroy` sets a flag.
- Conference.ImsConference.DisconnectConferenceParticipants: the order of the three effects on each participant is not stated, only the state they leave behind.
- Conference.ImsConference.OnConferenceParticipantsChanged: for a report with a host connection, it states only the roster's endpoints. The rest is what `HandleConferenceParticipantsUpdate` states, and that method is what it calls.
- Conference.ImsConference.OnParticipantDestroyed: the base class's own reaction to a destroyed child connection is not part of this model.
- The source's `onStateChanged` and host `onDestroyed` callbacks are single calls to `setState` and `disconnectConferenceParticipants`. They are covered by those members' rows.
