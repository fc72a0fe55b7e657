/**
 * An IMS conference call: one host connection to the conference server and
 * a roster of virtual participant connections, keyed by endpoint, that the
 * conference keeps in step with the conference event packages the host
 * reports.
 */
module Conference {
  import opened Telecom
  import opened Roster
  import opened Participant

  /** A request the conference passes on to the host call or phone; what it does there is not modelled. */
  datatype HostRequest = Hangup | Merge | Hold | Unhold | PlayDtmfTone(c: char) | StopDtmfTone

  /**
   * The capability set after the manage-conference capability has been
   * brought in line with whether the conference can be managed: that bit
   * says so, and every other bit is the one it was.
   */
  function WithManageConference(capabilities: bv32, canManage: bool): (r: bv32)
    ensures Can(r, MANAGE_CONFERENCE) == canManage
    ensures Remove(r, MANAGE_CONFERENCE) == Remove(capabilities, MANAGE_CONFERENCE)
  {
    if Can(capabilities, MANAGE_CONFERENCE) == canManage then capabilities
    else if canManage then capabilities | MANAGE_CONFERENCE
    else Remove(capabilities, MANAGE_CONFERENCE)
  }

  /** The connections a roster files under endpoints outside the given set. */
  ghost function ConnectionsOutside(roster: map<Endpoint, ConferenceParticipantConnection>, keys: set<Endpoint>): set<ConferenceParticipantConnection>
  {
    set e | e in roster && e !in keys :: roster[e]
  }

  lemma ConnectionsOutsidePut(roster: map<Endpoint, ConferenceParticipantConnection>, keys: set<Endpoint>,
                              e: Endpoint, c: ConferenceParticipantConnection)
    requires e !in roster
    ensures ConnectionsOutside(roster[e := c], keys) ==
            ConnectionsOutside(roster, keys) + (if e in keys then {} else {c})
  {
    var bigger := roster[e := c];
    forall x | x in ConnectionsOutside(bigger, keys)
      ensures x in ConnectionsOutside(roster, keys) + (if e in keys then {} else {c})
    {
      var k :| k in bigger && k !in keys && bigger[k] == x;
      if k != e { assert roster[k] == x; }
    }
    forall x | x in ConnectionsOutside(roster, keys) ensures x in ConnectionsOutside(bigger, keys) {
      var k :| k in roster && k !in keys && roster[k] == x;
      assert bigger[k] == x;
    }
    if e !in keys { assert bigger[e] == c; }
  }

  lemma ConnectionsOutsideShrink(roster: map<Endpoint, ConferenceParticipantConnection>, keys: set<Endpoint>, e: Endpoint)
    requires e in roster && e in keys
    ensures ConnectionsOutside(roster, keys - {e}) == ConnectionsOutside(roster, keys) + {roster[e]}
  {
  }

  /** Two rosters that agree outside a set of endpoints file the same connections outside it. */
  lemma ConnectionsOutsideAgree(roster: map<Endpoint, ConferenceParticipantConnection>,
                                other: map<Endpoint, ConferenceParticipantConnection>, keys: set<Endpoint>)
    requires forall e | e in roster && e !in keys :: e in other && other[e] == roster[e]
    requires forall e | e in other && e !in keys :: e in roster
    ensures ConnectionsOutside(roster, keys) == ConnectionsOutside(other, keys)
  {
    forall c | c in ConnectionsOutside(other, keys) ensures c in ConnectionsOutside(roster, keys) {
      var e :| e in other && e !in keys && other[e] == c;
      assert roster[e] == c;
    }
  }

  /**
   * The published list is the earlier one followed by the roster's
   * connections for the given entries, in their order.
   */
  ghost predicate PublishedAfter(published: seq<ConferenceParticipantConnection>, before: seq<ConferenceParticipantConnection>,
                                 added: seq<ConferenceParticipant>, roster: map<Endpoint, ConferenceParticipantConnection>)
  {
    && |published| == |before| + |added|
    && published[..|before|] == before
    && forall k | 0 <= k < |added| :: added[k].endpoint in roster && published[|before| + k] == roster[added[k].endpoint]
  }

  lemma PublishedAfterSnoc(published: seq<ConferenceParticipantConnection>, before: seq<ConferenceParticipantConnection>,
                           added: seq<ConferenceParticipant>, roster: map<Endpoint, ConferenceParticipantConnection>,
                           p: ConferenceParticipant, c: ConferenceParticipantConnection)
    requires PublishedAfter(published, before, added, roster)
    requires p.endpoint !in roster
    ensures PublishedAfter(published + [c], before, added + [p], roster[p.endpoint := c])
  {
    var longer := published + [c];
    assert longer[..|before|] == published[..|before|];
    forall k | 0 <= k < |added| + 1
      ensures (added + [p])[k].endpoint in roster[p.endpoint := c] &&
              longer[|before| + k] == roster[p.endpoint := c][(added + [p])[k].endpoint]
    {
      if k < |added| { assert (added + [p])[k] == added[k]; }
    }
  }

  /**
     The endpoints and new entries of the first i entries of ps, with known
     the endpoints on the roster beforehand.
  */
  ghost predicate PrefixAt(known: set<Endpoint>, ps: seq<ConferenceParticipant>, i: nat,
                           newParticipants: seq<ConferenceParticipant>, endpoints: set<Endpoint>)
  {
    && i <= |ps|
    && endpoints == Endpoints(ps[..i])
    && newParticipants == NewParticipants(known, ps[..i])
  }

  lemma PrefixAtStep(known: set<Endpoint>, ps: seq<ConferenceParticipant>, i: nat,
                     newParticipants: seq<ConferenceParticipant>, endpoints: set<Endpoint>)
    requires PrefixAt(known, ps, i, newParticipants, endpoints) && i < |ps|
    ensures PrefixAt(known, ps, i + 1,
                     if ps[i].endpoint in known + endpoints then newParticipants else newParticipants + [ps[i]],
                     endpoints + {ps[i].endpoint})
  {
    EndpointsSnoc(ps, i);
    assert ps[..i + 1][..i] == ps[..i];
  }

  /** The roster holds the endpoints of before and the given ones, and keeps the connections of before. */
  ghost predicate RosterExtends(roster: map<Endpoint, ConferenceParticipantConnection>,
                                before: map<Endpoint, ConferenceParticipantConnection>, endpoints: set<Endpoint>)
  {
    && roster.Keys == before.Keys + endpoints
    && forall e | e in before :: e in roster && roster[e] == before[e]
  }

  /**
   * What a roster update leaves behind when its list names exactly the
   * endpoints already on the roster, as with the same list delivered twice
   * in a row: the requirements are the update's postconditions, and the
   * roster, the conference's connections and the published list come out
   * as they were.
   */
  lemma {:induction false} UnchangedRosterUpdate(ps: seq<ConferenceParticipant>,
                                                 rosterBefore: map<Endpoint, ConferenceParticipantConnection>,
                                                 rosterAfter: map<Endpoint, ConferenceParticipantConnection>,
                                                 connectionsBefore: set<ConferenceParticipantConnection>,
                                                 connectionsAfter: set<ConferenceParticipantConnection>,
                                                 publishedBefore: seq<ConferenceParticipantConnection>,
                                                 publishedAfter: seq<ConferenceParticipantConnection>)
    requires Endpoints(ps) == rosterBefore.Keys
    requires rosterAfter.Keys == Endpoints(ps)
    requires forall e | e in rosterBefore && e in Endpoints(ps) :: rosterAfter[e] == rosterBefore[e]
    requires connectionsAfter == (connectionsBefore + ConnectionsOutside(rosterAfter, rosterBefore.Keys))
                                 - ConnectionsOutside(rosterBefore, Endpoints(ps))
    requires PublishedAfter(publishedAfter, publishedBefore, NewParticipants(rosterBefore.Keys, ps), rosterAfter)
    ensures rosterAfter == rosterBefore
    ensures connectionsAfter == connectionsBefore
    ensures publishedAfter == publishedBefore
  {
    KnownEndpointsCreateNothing(rosterBefore.Keys, ps);
    assert publishedAfter == publishedAfter[..|publishedBefore|];
  }

  /** Dropping endpoints none of the entries name keeps the published list as it was. */
  lemma PublishedAfterRestrict(published: seq<ConferenceParticipantConnection>, before: seq<ConferenceParticipantConnection>,
                               added: seq<ConferenceParticipant>, roster: map<Endpoint, ConferenceParticipantConnection>,
                               keys: set<Endpoint>)
    requires PublishedAfter(published, before, added, roster)
    requires Endpoints(added) <= keys
    ensures PublishedAfter(published, before, added, roster - (roster.Keys - keys))
  {
    forall k | 0 <= k < |added| ensures added[k].endpoint in keys {
      assert added[k].endpoint in Endpoints(added);
    }
  }

  /**
   * The conference's connections after both halves of an update: those of
   * the roster before, plus the ones filed under new endpoints, less the ones
   * filed under endpoints the list does not name.
   */
  lemma UpdatedConnections(connections0: set<ConferenceParticipantConnection>,
                           connections1: set<ConferenceParticipantConnection>,
                           connections2: set<ConferenceParticipantConnection>,
                           roster0: map<Endpoint, ConferenceParticipantConnection>,
                           roster1: map<Endpoint, ConferenceParticipantConnection>,
                           roster2: map<Endpoint, ConferenceParticipantConnection>,
                           endpoints: set<Endpoint>)
    requires roster1.Keys == roster0.Keys + endpoints
    requires forall e | e in roster0 :: roster1[e] == roster0[e]
    requires connections1 == connections0 + ConnectionsOutside(roster1, roster0.Keys)
    requires connections2 == connections1 - ConnectionsOutside(roster1, endpoints)
    requires roster2 == roster1 - (roster0.Keys - endpoints)
    ensures connections2 == (connections0 + ConnectionsOutside(roster2, roster0.Keys)) - ConnectionsOutside(roster0, endpoints)
  {
    ConnectionsOutsideAgree(roster0, roster1, endpoints);
    ConnectionsOutsideAgree(roster1, roster2, roster0.Keys);
  }

  /** Each connection of the roster is in the state the table gives its endpoint. */
  ghost predicate StatesAre(roster: map<Endpoint, ConferenceParticipantConnection>, states: map<Endpoint, int>)
    reads roster.Values`state
  {
    forall e | e in roster :: e in states && roster[e].state == states[e]
  }

  /**
   * A participant connection the teardown is done with: unsubscribed,
   * disconnected with cause CANCELED, and destroyed.
   */
  ghost predicate TornDown(c: ConferenceParticipantConnection)
    reads c
  {
    && !c.subscribed
    && c.disconnectCause == Some(DisconnectCause(CANCELED))
    && c.state == STATE_DISCONNECTED
    && c.destroyed
  }

  class ImsConference {
    /** The known participant connections, keyed by endpoint. */
    var participants: map<Endpoint, ConferenceParticipantConnection>
    /** The conference's child connections. */
    var connections: set<ConferenceParticipantConnection>
    /** The connections handed to the connection service, in the order they were added. */
    var published: seq<ConferenceParticipantConnection>
    var capabilities: bv32
    /** The aggregate call state. */
    var state: int
    var disconnectCause: Option<DisconnectCause>
    var destroyed: bool
    /** The requests passed on to the host, in order. */
    var hostRequests: seq<HostRequest>

    /**
     * Every roster entry is the connection of its own endpoint, still has the
     * conference's listener, and is one of the conference's connections.
     */
    ghost predicate Valid()
      reads this`participants, this`connections, participants.Values`subscribed
    {
      forall e | e in participants ::
        participants[e].endpoint == e && participants[e].subscribed && participants[e] in connections
    }

    /** The manage-conference capability is held exactly while the roster is non-empty. */
    ghost predicate ManageConferenceTracksRoster()
      reads this`capabilities, this`participants
    {
      Can(capabilities, MANAGE_CONFERENCE) == (participants != map[])
    }

    /** A conference over a new host: no participants, and hold, support-hold and mute. */
    constructor ()
      ensures Valid() && ManageConferenceTracksRoster()
      ensures participants == map[] && connections == {} && published == [] && hostRequests == []
      ensures capabilities == SUPPORT_HOLD | HOLD | MUTE
      ensures !Can(capabilities, MANAGE_CONFERENCE)
      ensures state == STATE_NEW && disconnectCause == None && !destroyed
    {
      participants := map[];
      connections := {};
      published := [];
      hostRequests := [];
      state := STATE_NEW;
      disconnectCause := None;
      destroyed := false;
      capabilities := SUPPORT_HOLD | HOLD | MUTE;
    }

    /** Sets or clears the manage-conference capability to match the roster. */
    method UpdateManageConference()
      modifies this`capabilities
      ensures capabilities == WithManageConference(old(capabilities), participants != map[])
      ensures ManageConferenceTracksRoster()
    {
      ghost var r := WithManageConference(capabilities, participants != map[]);
      assert Can(r, MANAGE_CONFERENCE) == (participants != map[]);
      var couldManageConference := Can(capabilities, MANAGE_CONFERENCE);
      var canManageConference := participants != map[];
      if couldManageConference != canManageConference {
        var newCapabilities := capabilities;
        if canManageConference {
          newCapabilities := newCapabilities | MANAGE_CONFERENCE;
        } else {
          newCapabilities := Remove(newCapabilities, MANAGE_CONFERENCE);
        }
        capabilities := newCapabilities;
      }
    }

    /** Recomputes the manage-conference capability if the roster changed, and leaves it alone otherwise. */
    method UpdateManageConferenceIf(rosterChanged: bool)
      modifies this`capabilities
      ensures capabilities == if rosterChanged then WithManageConference(old(capabilities), participants != map[]) else old(capabilities)
      ensures rosterChanged ==> ManageConferenceTracksRoster()
    {
      if rosterChanged {
        UpdateManageConference();
      }
    }

    /**
     * Creates the connection for a participant entry, registers the
     * conference's listener on it, files it under its endpoint, publishes it
     * and adds it to the conference's connections.
     */
    method CreateConferenceParticipantConnection(participant: ConferenceParticipant)
      requires Valid()
      modifies this`participants, this`connections, this`published
      ensures Valid()
      ensures participant.endpoint in participants
      ensures participants == old(participants)[participant.endpoint := participants[participant.endpoint]]
      ensures var c := participants[participant.endpoint];
              && fresh(c) && c.state == STATE_NEW && c.subscribed
              && c.disconnectCause == None && !c.destroyed
              && connections == old(connections) + {c}
              && published == old(published) + [c]
    {
      var connection := new ConferenceParticipantConnection(participant);
      connection.AddConnectionListener();
      participants := participants[participant.endpoint := connection];
      published := published + [connection];
      connections := connections + {connection};
    }

    /** The connections filed under endpoints outside known carry no disconnect cause and are not destroyed. */
    ghost predicate NewConnectionsUntouched(known: set<Endpoint>)
      reads this`participants, participants.Values`disconnectCause, participants.Values`destroyed
    {
      forall e | e in participants && e !in known :: participants[e].disconnectCause == None && !participants[e].destroyed
    }

    /**
     * Where the first pass stands after the first i entries of ps, starting
     * from the roster before, with states for its connections' states and
     * connections0 and published0 for the conference's connections and the
     * published list: the roster holds the known endpoints and the ones
     * named so far; a known endpoint keeps its connection, which has the
     * state of its last entry so far, or its own if it has none; the
     * connections created so far are new, belong to the conference and were
     * published in order, one for each entry in newParticipants.
     */
    ghost predicate FirstPassAt(before: map<Endpoint, ConferenceParticipantConnection>, states: map<Endpoint, int>,
                                connections0: set<ConferenceParticipantConnection>,
                                published0: seq<ConferenceParticipantConnection>,
                                ps: seq<ConferenceParticipant>, i: nat,
                                newParticipants: seq<ConferenceParticipant>, endpoints: set<Endpoint>)
      reads this`participants, this`connections, this`published
      reads participants.Values`subscribed, participants.Values`disconnectCause, participants.Values`destroyed
      reads before.Values`state
    {
      && PrefixAt(before.Keys, ps, i, newParticipants, endpoints)
      && Valid()
      && RosterExtends(participants, before, endpoints)
      && StatesAre(before, UpdatedStates(states, ps[..i]))
      && NewConnectionsUntouched(before.Keys)
      && connections == connections0 + ConnectionsOutside(participants, before.Keys)
      && PublishedAfter(published, published0, newParticipants, participants)
    }

    /** The first pass at an entry whose endpoint is on the roster: its connection takes the entry's state. */
    method UpdateKnownParticipant(ghost before: map<Endpoint, ConferenceParticipantConnection>, ghost states: map<Endpoint, int>,
                                  ghost connections0: set<ConferenceParticipantConnection>,
                                  ghost published0: seq<ConferenceParticipantConnection>,
                                  ghost ps: seq<ConferenceParticipant>, ghost i: nat,
                                  ghost newParticipants: seq<ConferenceParticipant>, ghost endpoints: set<Endpoint>,
                                  participant: ConferenceParticipant, connection: ConferenceParticipantConnection)
      requires i < |ps| && ps[i] == participant
      requires participant.endpoint in participants && participants[participant.endpoint] == connection
      requires FirstPassAt(before, states, connections0, published0, ps, i, newParticipants, endpoints)
      modifies connection`state
      ensures FirstPassAt(before, states, connections0, published0, ps, i + 1, newParticipants, endpoints + {participant.endpoint})
      ensures connection.state == participant.state
    {
      PrefixAtStep(before.Keys, ps, i, newParticipants, endpoints);
      UpdatedStatesSnoc(states, ps, i);
      connection.UpdateState(participant.state);
    }

    /**
     * The first pass at an entry whose endpoint is not on the roster: a
     * connection is created for it.
     */
    method AddNewParticipant(ghost before: map<Endpoint, ConferenceParticipantConnection>, ghost states: map<Endpoint, int>,
                             ghost connections0: set<ConferenceParticipantConnection>,
                             ghost published0: seq<ConferenceParticipantConnection>,
                             ghost ps: seq<ConferenceParticipant>, ghost i: nat,
                             ghost newParticipants: seq<ConferenceParticipant>, ghost endpoints: set<Endpoint>,
                             participant: ConferenceParticipant)
      requires i < |ps| && ps[i] == participant && participant.endpoint !in participants
      requires FirstPassAt(before, states, connections0, published0, ps, i, newParticipants, endpoints)
      modifies this`participants, this`connections, this`published
      ensures FirstPassAt(before, states, connections0, published0, ps, i + 1,
                          newParticipants + [participant], endpoints + {participant.endpoint})
      ensures participants == old(participants)[participant.endpoint := participants[participant.endpoint]]
      ensures fresh(participants[participant.endpoint])
      ensures participants[participant.endpoint].state == STATE_NEW
    {
      PrefixAtStep(before.Keys, ps, i, newParticipants, endpoints);
      UpdatedStatesSnoc(states, ps, i);
      ghost var roster, publishedBefore := participants, published;
      CreateConferenceParticipantConnection(participant);
      var c := participants[participant.endpoint];
      ConnectionsOutsidePut(roster, before.Keys, participant.endpoint, c);
      PublishedAfterSnoc(publishedBefore, published0, newParticipants, roster, participant, c);
    }

    /**
     * The first pass at entry i: a new endpoint gets a connection and joins
     * the new participants, a known one takes the entry's state; either way
     * the endpoint joins the list's endpoints.
     */
    method AddOrUpdateParticipant(ghost before: map<Endpoint, ConferenceParticipantConnection>, ghost states: map<Endpoint, int>,
                                  ghost connections0: set<ConferenceParticipantConnection>,
                                  ghost published0: seq<ConferenceParticipantConnection>,
                                  ps: seq<ConferenceParticipant>, i: nat,
                                  newParticipants: seq<ConferenceParticipant>, endpoints: set<Endpoint>)
        returns (newParticipants': seq<ConferenceParticipant>, endpoints': set<Endpoint>)
      requires i < |ps|
      requires FirstPassAt(before, states, connections0, published0, ps, i, newParticipants, endpoints)
      modifies this`participants, this`connections, this`published, participants.Values`state
      ensures FirstPassAt(before, states, connections0, published0, ps, i + 1, newParticipants', endpoints')
      ensures forall e | e in old(participants) :: e in participants && participants[e] == old(participants)[e]
      ensures forall e | e in participants && e !in old(participants) :: fresh(participants[e])
      ensures ps[i].endpoint in participants
      ensures participants[ps[i].endpoint].state == if ps[i].endpoint in old(participants) then ps[i].state else STATE_NEW
    {
      var participant := ps[i];
      endpoints' := endpoints + {participant.endpoint};
      if participant.endpoint !in participants {
        AddNewParticipant(before, states, connections0, published0, ps, i, newParticipants, endpoints, participant);
        newParticipants' := newParticipants + [participant];
      } else {
        var connection := participants[participant.endpoint];
        UpdateKnownParticipant(before, states, connections0, published0, ps, i, newParticipants, endpoints,
                               participant, connection);
        newParticipants' := newParticipants;
      }
    }

    /**
     * First pass of an update: creates a connection for every endpoint not
     * yet on the roster and gives every endpoint already there the state of
     * each of its entries in turn. Returns the entries that caused a creation
     * and the set of endpoints in the list.
     */
    method AddAndUpdateParticipants(ps: seq<ConferenceParticipant>)
        returns (newParticipants: seq<ConferenceParticipant>, endpoints: set<Endpoint>)
      requires Valid()
      modifies this`participants, this`connections, this`published, participants.Values`state
      ensures Valid()
      ensures newParticipants == NewParticipants(old(participants).Keys, ps)
      ensures endpoints == Endpoints(ps)
      ensures participants.Keys == old(participants).Keys + endpoints
      ensures forall e | e in old(participants) :: participants[e] == old(participants[e])
      ensures forall e | e in old(participants) ::
                participants[e].state == if e in endpoints then ps[LastIndex(ps, e)].state else old(participants[e].state)
      ensures forall e | e in participants && e !in old(participants) :: fresh(participants[e])
      ensures forall e | e in participants && e !in old(participants) ::
                participants[e].disconnectCause == None && !participants[e].destroyed
      ensures connections == old(connections) + ConnectionsOutside(participants, old(participants).Keys)
      ensures PublishedAfter(published, old(published), newParticipants, participants)
    {
      ghost var before := participants;
      ghost var states := map e | e in participants :: participants[e].state;
      ghost var connections0, published0 := connections, published;
      newParticipants, endpoints := [], {};
      assert ps[..0] == [];
      assert forall e | e in before :: before[e] in old(connections);
      var i := 0;
      while i < |ps|
        invariant FirstPassAt(before, states, connections0, published0, ps, i, newParticipants, endpoints)
        invariant forall e | e in participants && e !in before :: fresh(participants[e])
      {
        newParticipants, endpoints :=
          AddOrUpdateParticipant(before, states, connections0, published0, ps, i, newParticipants, endpoints);
        i := i + 1;
      }
      assert ps[..|ps|] == ps;
      UpdatedStatesAreLastStates(states, ps);
    }

    /**
     * Second pass of an update: each listed entry's endpoint takes that
     * entry's state, a later entry for the same endpoint overriding an
     * earlier one.
     */
    method SetNewParticipantStates(newParticipantsAdded: bool, newParticipants: seq<ConferenceParticipant>)
      requires Valid()
      requires newParticipantsAdded == (newParticipants != [])
      requires forall k | 0 <= k < |newParticipants| :: newParticipants[k].endpoint in participants
      modifies participants.Values`state
      ensures Valid()
      ensures forall e | e in participants ::
                participants[e].state ==
                  if e in Endpoints(newParticipants) then newParticipants[LastIndex(newParticipants, e)].state
                  else old(participants[e].state)
      ensures forall e | e in participants ::
                participants[e].disconnectCause == old(participants[e].disconnectCause) &&
                participants[e].destroyed == old(participants[e].destroyed)
    {
      if newParticipantsAdded {
        var k := 0;
        while k < |newParticipants|
          invariant 0 <= k <= |newParticipants|
          invariant Valid()
          invariant forall e | e in participants ::
                      participants[e].state ==
                        if e in Endpoints(newParticipants[..k]) then newParticipants[LastIndex(newParticipants[..k], e)].state
                        else old(participants[e].state)
        {
          var newParticipant := newParticipants[k];
          assert newParticipants[..k + 1][..k] == newParticipants[..k] && newParticipants[..k + 1][k] == newParticipant;
          EndpointsSnoc(newParticipants, k);
          var connection := participants[newParticipant.endpoint];
          connection.UpdateState(newParticipant.state);
          k := k + 1;
        }
        assert newParticipants[..|newParticipants|] == newParticipants;
      }
    }

    /**
     * Where the third pass stands with the roster entries still to visit:
     * the entries visited so far whose endpoint the list does not name have
     * been unsubscribed, dropped from the roster and removed from the
     * conference's connections, and removed says whether there was one.
     */
    ghost predicate ThirdPassAt(before: map<Endpoint, ConferenceParticipantConnection>,
                                connections0: set<ConferenceParticipantConnection>,
                                endpoints: set<Endpoint>, entries: set<Endpoint>, removed: bool)
      reads this`participants, this`connections, participants.Values`subscribed, before.Values`subscribed
    {
      && entries <= before.Keys
      && Valid()
      && (forall e | e in before :: before[e].endpoint == e)
      && participants == before - (before.Keys - (endpoints + entries))
      && (forall e | e in before && e !in endpoints + entries :: !before[e].subscribed)
      && connections == connections0 - ConnectionsOutside(before, endpoints + entries)
      && removed == !(before.Keys <= endpoints + entries)
    }

    /** The third pass at one roster entry: dropped if the list does not name its endpoint. */
    method RemoveIfAbsent(ghost before: map<Endpoint, ConferenceParticipantConnection>,
                          ghost connections0: set<ConferenceParticipantConnection>,
                          endpoints: set<Endpoint>, ghost entries: set<Endpoint>, e: Endpoint, removed: bool)
        returns (removed': bool)
      requires e in entries
      requires ThirdPassAt(before, connections0, endpoints, entries, removed)
      modifies this`participants, this`connections, before.Values`subscribed
      ensures ThirdPassAt(before, connections0, endpoints, entries - {e}, removed')
    {
      if e !in endpoints {
        ConnectionsOutsideShrink(before, endpoints + entries, e);
        assert endpoints + (entries - {e}) == endpoints + entries - {e};
        var participant := participants[e];
        DropParticipant(e, participant);
        removed' := true;
      } else {
        assert endpoints + (entries - {e}) == endpoints + entries;
        removed' := removed;
      }
    }

    /**
     * The third pass at an endpoint not in the list: its connection loses
     * the conference's listener and leaves the conference's connections, and
     * the endpoint leaves the roster.
     */
    method DropParticipant(e: Endpoint, participant: ConferenceParticipantConnection)
      requires Valid() && e in participants && participants[e] == participant
      modifies this`participants, this`connections, participant`subscribed
      ensures Valid()
      ensures participants == old(participants) - {e}
      ensures connections == old(connections) - {participant}
      ensures !participant.subscribed
    {
      participant.RemoveConnectionListener();
      connections := connections - {participant};
      participants := participants - {e};
    }

    /**
     * Third pass of an update: every roster entry whose endpoint is not in
     * the list loses the conference's listener, leaves the conference's
     * connections and is dropped from the roster. It is neither disconnected
     * nor destroyed. Returns whether anything was dropped.
     */
    method RemoveAbsentParticipants(endpoints: set<Endpoint>) returns (removed: bool)
      requires Valid()
      modifies this`participants, this`connections, participants.Values`subscribed
      ensures Valid()
      ensures participants == old(participants) - (old(participants).Keys - endpoints)
      ensures removed == !(old(participants).Keys <= endpoints)
      ensures forall e | e in old(participants) && e !in endpoints :: !old(participants)[e].subscribed
      ensures connections == old(connections) - ConnectionsOutside(old(participants), endpoints)
    {
      ghost var before, connections0 := participants, connections;
      var entries := participants.Keys;
      removed := false;
      while entries != {}
        invariant ThirdPassAt(before, connections0, endpoints, entries, removed)
        decreases entries
      {
        var e :| e in entries;
        removed := RemoveIfAbsent(before, connections0, endpoints, entries, e, removed);
        entries := entries - {e};
      }
      assert endpoints + {} == endpoints;
    }

    /**
     * The end of an update: the third pass, then the manage-conference
     * capability is recomputed if the first pass created or the third pass
     * dropped anything.
     */
    method RemoveAbsentAndUpdateManageConference(ghost known: set<Endpoint>, endpoints: set<Endpoint>, newParticipantsAdded: bool)
      requires Valid()
      requires participants.Keys == known + endpoints
      requires newParticipantsAdded == !(endpoints <= known)
      modifies this`participants, this`connections, this`capabilities, participants.Values`subscribed
      ensures Valid()
      ensures participants.Keys == endpoints
      ensures participants == old(participants) - (known - endpoints)
      ensures forall e | e in participants :: participants[e] == old(participants)[e]
      ensures forall e | e in old(participants) :: old(participants)[e].state == old(participants[e].state)
      ensures forall e | e in old(participants) ::
                old(participants)[e].disconnectCause == old(participants[e].disconnectCause) &&
                old(participants)[e].destroyed == old(participants[e].destroyed)
      ensures forall e | e in old(participants) && e !in endpoints :: !old(participants)[e].subscribed
      ensures connections == old(connections) - ConnectionsOutside(old(participants), endpoints)
      ensures capabilities ==
                if endpoints != known then WithManageConference(old(capabilities), participants != map[])
                else old(capabilities)
      ensures endpoints != known ==> ManageConferenceTracksRoster()
    {
      var oldParticipantsRemoved := RemoveAbsentParticipants(endpoints);
      assert old(participants).Keys - endpoints == known - endpoints;
      UpdateManageConferenceIf(newParticipantsAdded || oldParticipantsRemoved);
    }

    /**
     * The first two passes of an update: afterwards every listed endpoint is
     * on the roster; one already there keeps its connection and has the
     * state of its last entry, a new one has a fresh connection, published
     * and added to the conference, in the state of its first entry.
     */
    method AddParticipants(ps: seq<ConferenceParticipant>)
        returns (newParticipants: seq<ConferenceParticipant>, endpoints: set<Endpoint>)
      requires Valid()
      modifies this`participants, this`connections, this`published, participants.Values`state
      ensures Valid()
      ensures newParticipants == NewParticipants(old(participants).Keys, ps)
      ensures endpoints == Endpoints(ps)
      ensures participants.Keys == old(participants).Keys + endpoints
      ensures forall e | e in old(participants) :: participants[e] == old(participants[e])
      ensures forall e | e in old(participants) ::
                participants[e].state == if e in endpoints then ps[LastIndex(ps, e)].state else old(participants[e].state)
      ensures forall e | e in endpoints && e !in old(participants) :: fresh(participants[e])
      ensures forall e | e in endpoints && e !in old(participants) :: participants[e].state == ps[FirstIndex(ps, e)].state
      ensures forall e | e in endpoints && e !in old(participants) :: participants[e].disconnectCause == None && !participants[e].destroyed
      ensures connections == old(connections) + ConnectionsOutside(participants, old(participants).Keys)
      ensures PublishedAfter(published, old(published), newParticipants, participants)
      ensures Endpoints(newParticipants) == endpoints - old(participants).Keys
      ensures (newParticipants == []) == (endpoints <= old(participants).Keys)
    {
      ghost var before := participants;
      newParticipants, endpoints := AddAndUpdateParticipants(ps);
      NewParticipantsAreFirstOccurrences(before.Keys, ps);
      SetNewParticipantStates(newParticipants != [], newParticipants);
      forall e | e in endpoints && e !in before
        ensures e in Endpoints(newParticipants) && newParticipants[LastIndex(newParticipants, e)] == ps[FirstIndex(ps, e)]
      {
        NewParticipantIsFirstEntry(before.Keys, ps, e);
      }
      if newParticipants != [] {
        assert newParticipants[0].endpoint in Endpoints(newParticipants);
      }
    }

    /**
     * Reconciles the roster with a participant list that describes the whole
     * conference: afterwards the roster holds exactly the listed endpoints.
     * Known endpoints keep their connection and take the state of their last
     * entry; new ones get one fresh connection each, published and added to
     * the conference and left in the state of their first entry; the rest are
     * unsubscribed and let go without being disconnected. The
     * manage-conference capability is recomputed only when something was
     * created or dropped.
     */
    method HandleConferenceParticipantsUpdate(ps: seq<ConferenceParticipant>)
      requires Valid()
      modifies this`participants, this`connections, this`published, this`capabilities
      modifies participants.Values`state, participants.Values`subscribed
      ensures Valid()
      ensures participants.Keys == Endpoints(ps)
      ensures forall e | e in old(participants) && e in Endpoints(ps) :: participants[e] == old(participants)[e]
      ensures forall e | e in old(participants) && e in Endpoints(ps) :: participants[e].state == ps[LastIndex(ps, e)].state
      ensures forall e | e in Endpoints(ps) && e !in old(participants) :: fresh(participants[e])
      ensures forall e | e in Endpoints(ps) && e !in old(participants) :: participants[e].state == ps[FirstIndex(ps, e)].state
      ensures forall e | e in Endpoints(ps) && e !in old(participants) :: participants[e].disconnectCause == None && !participants[e].destroyed
      ensures forall e | e in old(participants) && e !in Endpoints(ps) ::
                !old(participants)[e].subscribed && old(participants)[e].state == old(participants[e].state)
      ensures connections == (old(connections) + ConnectionsOutside(participants, old(participants).Keys))
                             - ConnectionsOutside(old(participants), Endpoints(ps))
      ensures PublishedAfter(published, old(published), NewParticipants(old(participants).Keys, ps), participants)
      ensures capabilities ==
                if Endpoints(ps) != old(participants).Keys then WithManageConference(old(capabilities), participants != map[])
                else old(capabilities)
      ensures Endpoints(ps) != old(participants).Keys ==> ManageConferenceTracksRoster()
      ensures old(ManageConferenceTracksRoster()) ==> ManageConferenceTracksRoster()
    {
      var newParticipants, participantEndpoints := AddParticipants(ps);
      var newParticipantsAdded := newParticipants != [];
      ghost var added, connectionsAdded := participants, connections;
      RemoveAbsentAndUpdateManageConference(old(participants).Keys, participantEndpoints, newParticipantsAdded);
      PublishedAfterRestrict(published, old(published), newParticipants, added, participantEndpoints);
      UpdatedConnections(old(connections), connectionsAdded, connections, old(participants), added, participants,
                         participantEndpoints);
    }

    /**
     * Takes a participant off the roster: the conference's listener comes off
     * the connection, and its endpoint's entry is dropped.
     */
    method RemoveConferenceParticipant(participant: ConferenceParticipantConnection)
      requires Valid()
      modifies this`participants, participant`subscribed
      ensures Valid()
      ensures !participant.subscribed
      ensures participants == old(participants) - {participant.endpoint}
    {
      participant.RemoveConnectionListener();
      participants := participants - {participant.endpoint};
    }

    /**
     * The conference's listener hears that a participant connection was
     * destroyed: the participant leaves the roster and the manage-conference
     * capability follows the roster.
     */
    method OnParticipantDestroyed(participant: ConferenceParticipantConnection)
      requires Valid()
      modifies this`participants, this`capabilities, participant`subscribed
      ensures Valid()
      ensures !participant.subscribed
      ensures participants == old(participants) - {participant.endpoint}
      ensures capabilities == WithManageConference(old(capabilities), participants != map[])
      ensures ManageConferenceTracksRoster()
    {
      RemoveConferenceParticipant(participant);
      UpdateManageConference();
    }

    /**
     * One step of the teardown: the participant is taken off the roster,
     * disconnected with cause CANCELED and destroyed.
     */
    method DisconnectParticipant(connection: ConferenceParticipantConnection)
      requires Valid()
      modifies this`participants, connection`subscribed, connection`state, connection`disconnectCause, connection`destroyed
      ensures Valid()
      ensures participants == old(participants) - {connection.endpoint}
      ensures TornDown(connection)
    {
      RemoveConferenceParticipant(connection);
      connection.SetDisconnected(DisconnectCause(CANCELED));
      connection.Destroy();
    }

    /**
     * Tears the roster down once the host is gone: every participant is taken
     * off the roster, disconnected with cause CANCELED so that it stays out
     * of the call log, and destroyed. The capabilities are left as they are.
     */
    method DisconnectConferenceParticipants()
      requires Valid()
      modifies this`participants, participants.Values
      ensures Valid()
      ensures participants == map[]
      ensures forall c | c in old(participants).Values :: TornDown(c)
    {
      ghost var before := participants;
      var remaining := participants.Values;
      while remaining != {}
        invariant remaining <= before.Values
        invariant Valid()
        invariant forall e | e in participants :: e in before && participants[e] == before[e]
        invariant forall e | e in before && before[e] in remaining :: e in participants
        invariant forall e | e in before :: before[e].endpoint == e
        invariant forall c | c in before.Values && c !in remaining :: TornDown(c)
        decreases remaining
      {
        var connection :| connection in remaining;
        DisconnectParticipant(connection);
        remaining := remaining - {connection};
      }
      participants := map[];
    }

    /**
     * Mirrors a state change of the host connection: ACTIVE makes the
     * conference active, HOLDING puts it on hold, DISCONNECTED disconnects it
     * with the host's cause and destroys it; any other state changes nothing.
     */
    method SetState(newState: int, hostCause: DisconnectCause)
      modifies this`state, this`disconnectCause, this`destroyed
      ensures newState == STATE_ACTIVE ==>
                state == STATE_ACTIVE && disconnectCause == old(disconnectCause) && destroyed == old(destroyed)
      ensures newState == STATE_HOLDING ==>
                state == STATE_HOLDING && disconnectCause == old(disconnectCause) && destroyed == old(destroyed)
      ensures newState == STATE_DISCONNECTED ==>
                state == STATE_DISCONNECTED && disconnectCause == Some(hostCause) && destroyed
      ensures newState != STATE_ACTIVE && newState != STATE_HOLDING && newState != STATE_DISCONNECTED ==>
                state == old(state) && disconnectCause == old(disconnectCause) && destroyed == old(destroyed)
    {
      if newState == STATE_DISCONNECTED {
        SetDisconnected(hostCause);
        destroyed := true;
      } else if newState == STATE_ACTIVE {
        state := STATE_ACTIVE;
      } else if newState == STATE_HOLDING {
        state := STATE_HOLDING;
      }
    }

    /** Conference.setDisconnected: records the cause and moves to DISCONNECTED. */
    method SetDisconnected(cause: DisconnectCause)
      modifies this`state, this`disconnectCause
      ensures state == STATE_DISCONNECTED && disconnectCause == Some(cause)
    {
      disconnectCause := Some(cause);
      state := STATE_DISCONNECTED;
    }

    /** The host connection disconnected: so does the conference, with the host's cause. */
    method OnDisconnected(cause: DisconnectCause)
      modifies this`state, this`disconnectCause
      ensures state == STATE_DISCONNECTED && disconnectCause == Some(cause)
    {
      SetDisconnected(cause);
    }

    /**
     * The host reports a new participant list. A report that comes with no
     * host connection is ignored; otherwise the roster is reconciled with the list.
     */
    method OnConferenceParticipantsChanged(hostPresent: bool, ps: seq<ConferenceParticipant>)
      requires Valid()
      modifies this`participants, this`connections, this`published, this`capabilities
      modifies participants.Values`state, participants.Values`subscribed
      ensures Valid()
      ensures hostPresent ==> participants.Keys == Endpoints(ps)
      ensures !hostPresent ==>
                && participants == old(participants) && connections == old(connections)
                && published == old(published) && capabilities == old(capabilities)
      ensures !hostPresent ==>
                forall c | c in old(connections) :: c.state == old(c.state) && c.subscribed == old(c.subscribed)
    {
      if hostPresent {
        HandleConferenceParticipantsUpdate(ps);
      }
    }

    /** Separating a participant is not supported: nothing changes. */
    method OnSeparate()
      ensures participants == old(participants) && capabilities == old(capabilities) && state == old(state)
    {
    }

    /** The conference controller never adds connections itself: nothing changes. */
    method OnConnectionAdded()
      ensures participants == old(participants) && capabilities == old(capabilities) && state == old(state)
    {
    }

    /** Hangs up the host's call, if it has one. */
    method OnDisconnect(hostHasCall: bool)
      modifies this`hostRequests
      ensures hostRequests == old(hostRequests) + (if hostHasCall then [Hangup] else [])
    {
      if hostHasCall {
        hostRequests := hostRequests + [Hangup];
      }
    }

    /** Asks the phone of the given connection, if it has one, to merge its calls into a conference. */
    method OnMerge(connectionHasPhone: bool)
      modifies this`hostRequests
      ensures hostRequests == old(hostRequests) + (if connectionHasPhone then [Merge] else [])
    {
      if connectionHasPhone {
        hostRequests := hostRequests + [Merge];
      }
    }

    method OnHold()
      modifies this`hostRequests
      ensures hostRequests == old(hostRequests) + [Hold]
    {
      hostRequests := hostRequests + [Hold];
    }

    method OnUnhold()
      modifies this`hostRequests
      ensures hostRequests == old(hostRequests) + [Unhold]
    {
      hostRequests := hostRequests + [Unhold];
    }

    method OnPlayDtmfTone(c: char)
      modifies this`hostRequests
      ensures hostRequests == old(hostRequests) + [PlayDtmfTone(c)]
    {
      hostRequests := hostRequests + [PlayDtmfTone(c)];
    }

    method OnStopDtmfTone()
      modifies this`hostRequests
      ensures hostRequests == old(hostRequests) + [StopDtmfTone]
    {
      hostRequests := hostRequests + [StopDtmfTone];
    }
  }
}
