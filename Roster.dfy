/**
 * The participant lists a conference event package delivers, and what a
 * roster update makes of them. A list is a complete snapshot of the
 * conference, in the order the host reported it; an endpoint may occur in
 * it more than once.
 */
module Roster {

  /** The unique identifier (a URI) of a conference participant. */
  type Endpoint = string

  /** One entry of a participant list: who, and in which connection state. */
  datatype ConferenceParticipant = ConferenceParticipant(endpoint: Endpoint, state: int)

  /** The endpoints a participant list names. */
  function Endpoints(ps: seq<ConferenceParticipant>): set<Endpoint>
  {
    set i | 0 <= i < |ps| :: ps[i].endpoint
  }

  lemma EndpointsSnoc(ps: seq<ConferenceParticipant>, n: nat)
    requires n < |ps|
    ensures Endpoints(ps[..n + 1]) == Endpoints(ps[..n]) + {ps[n].endpoint}
  {
    var longer, shorter := ps[..n + 1], ps[..n];
    forall e | e in Endpoints(longer) ensures e in Endpoints(shorter) + {ps[n].endpoint} {
      var i :| 0 <= i < |longer| && longer[i].endpoint == e;
      if i < n { assert shorter[i] == longer[i]; }
    }
    forall e | e in Endpoints(shorter) ensures e in Endpoints(longer) {
      var i :| 0 <= i < |shorter| && shorter[i].endpoint == e;
      assert longer[i] == shorter[i];
    }
    assert longer[n] == ps[n];
  }

  /** The position of the first entry for endpoint e. */
  function FirstIndex(ps: seq<ConferenceParticipant>, e: Endpoint): (i: nat)
    requires e in Endpoints(ps)
    ensures i < |ps| && ps[i].endpoint == e
    ensures forall j | 0 <= j < i :: ps[j].endpoint != e
    decreases |ps|
  {
    var n := |ps| - 1;
    EndpointsSnoc(ps, n);
    assert ps[..n + 1] == ps;
    if e in Endpoints(ps[..n]) then
      var i := FirstIndex(ps[..n], e);
      assert ps[i] == ps[..n][i];
      assert forall j | 0 <= j < i :: ps[j] == ps[..n][j];
      i
    else
      assert forall j | 0 <= j < n :: ps[j] == ps[..n][j];
      n
  }

  /** The position of the last entry for endpoint e. */
  function LastIndex(ps: seq<ConferenceParticipant>, e: Endpoint): (i: nat)
    requires e in Endpoints(ps)
    ensures i < |ps| && ps[i].endpoint == e
    ensures forall j | i < j < |ps| :: ps[j].endpoint != e
    decreases |ps|
  {
    var n := |ps| - 1;
    EndpointsSnoc(ps, n);
    assert ps[..n + 1] == ps;
    if ps[n].endpoint == e then
      n
    else
      var i := LastIndex(ps[..n], e);
      assert forall j | 0 <= j < n :: ps[j] == ps[..n][j];
      i
  }

  /**
   * The state table the entries of ps leave behind when applied in order to
   * the endpoints the table already has: each such entry overwrites its
   * endpoint's state, and the other entries leave the table alone.
   */
  function UpdatedStates(states: map<Endpoint, int>, ps: seq<ConferenceParticipant>): (r: map<Endpoint, int>)
    ensures r.Keys == states.Keys
    decreases |ps|
  {
    if ps == [] then states
    else
      var n := |ps| - 1;
      var earlier := UpdatedStates(states, ps[..n]);
      if ps[n].endpoint in states then earlier[ps[n].endpoint := ps[n].state] else earlier
  }

  /** Applying the entries in order leaves each endpoint with the state of its last entry, if it has one. */
  lemma {:induction false} UpdatedStatesAreLastStates(states: map<Endpoint, int>, ps: seq<ConferenceParticipant>)
    ensures forall e | e in states ::
              UpdatedStates(states, ps)[e] == if e in Endpoints(ps) then ps[LastIndex(ps, e)].state else states[e]
    decreases |ps|
  {
    if ps != [] {
      var n := |ps| - 1;
      UpdatedStatesAreLastStates(states, ps[..n]);
      EndpointsSnoc(ps, n);
      assert ps[..n + 1] == ps;
      forall e | e in states && e != ps[n].endpoint && e in Endpoints(ps)
        ensures ps[LastIndex(ps, e)] == ps[..n][LastIndex(ps[..n], e)]
      {
        var i, j := LastIndex(ps, e), LastIndex(ps[..n], e);
        assert ps[j] == ps[..n][j];
        assert !(i < j) && !(j < i);
      }
    }
  }

  /** One more entry changes the table at that entry's endpoint only. */
  lemma UpdatedStatesSnoc(states: map<Endpoint, int>, ps: seq<ConferenceParticipant>, n: nat)
    requires n < |ps|
    ensures UpdatedStates(states, ps[..n + 1]) ==
            if ps[n].endpoint in states then UpdatedStates(states, ps[..n])[ps[n].endpoint := ps[n].state]
            else UpdatedStates(states, ps[..n])
  {
    assert ps[..n + 1][..n] == ps[..n];
  }

  /**
   * The entries for which an update creates a connection: working through
   * the list in order, each entry whose endpoint is neither already known
   * nor named by an earlier entry.
   */
  function NewParticipants(known: set<Endpoint>, ps: seq<ConferenceParticipant>): (r: seq<ConferenceParticipant>)
    ensures |r| <= |ps|
    decreases |ps|
  {
    if ps == [] then []
    else
      var n := |ps| - 1;
      var earlier := NewParticipants(known, ps[..n]);
      if ps[n].endpoint in known || ps[n].endpoint in Endpoints(ps[..n]) then earlier
      else earlier + [ps[n]]
  }

  /** An endpoint named within a prefix has its first entry there. */
  lemma FirstIndexOfPrefix(ps: seq<ConferenceParticipant>, n: nat, e: Endpoint)
    requires n <= |ps| && e in Endpoints(ps[..n])
    ensures e in Endpoints(ps) && FirstIndex(ps, e) == FirstIndex(ps[..n], e)
  {
    var prefix := ps[..n];
    var i := FirstIndex(prefix, e);
    assert prefix[i] == ps[i];
    assert forall j | 0 <= j < i :: prefix[j] == ps[j];
    var f := FirstIndex(ps, e);
    assert !(f < i) && !(i < f);
  }

  /** An entry whose endpoint no earlier entry names is that endpoint's first entry. */
  lemma FirstIndexAtEnd(ps: seq<ConferenceParticipant>, n: nat)
    requires n < |ps| && ps[n].endpoint !in Endpoints(ps[..n])
    ensures ps[n].endpoint in Endpoints(ps) && FirstIndex(ps, ps[n].endpoint) == n
  {
    var e := ps[n].endpoint;
    forall j | 0 <= j < n ensures ps[j].endpoint != e {
      assert ps[..n][j] == ps[j];
    }
  }

  /**
   * The new participants are exactly the unknown endpoints of the list, each
   * once, each given by its first entry in the list.
   */
  lemma {:induction false} NewParticipantsAreFirstOccurrences(known: set<Endpoint>, ps: seq<ConferenceParticipant>)
    ensures Endpoints(NewParticipants(known, ps)) == Endpoints(ps) - known
    ensures forall j, k | 0 <= j < k < |NewParticipants(known, ps)| ::
              NewParticipants(known, ps)[j].endpoint != NewParticipants(known, ps)[k].endpoint
    ensures forall k | 0 <= k < |NewParticipants(known, ps)| ::
              NewParticipants(known, ps)[k].endpoint in Endpoints(ps) &&
              NewParticipants(known, ps)[k] == ps[FirstIndex(ps, NewParticipants(known, ps)[k].endpoint)]
    decreases |ps|
  {
    if ps != [] {
      var n := |ps| - 1;
      var prefix := ps[..n];
      NewParticipantsAreFirstOccurrences(known, prefix);
      EndpointsSnoc(ps, n);
      assert ps[..n + 1] == ps;
      var earlier := NewParticipants(known, prefix);
      var np := NewParticipants(known, ps);
      forall k | 0 <= k < |earlier|
        ensures earlier[k].endpoint in Endpoints(ps) && earlier[k] == ps[FirstIndex(ps, earlier[k].endpoint)]
      {
        FirstIndexOfPrefix(ps, n, earlier[k].endpoint);
      }
      if ps[n].endpoint in known || ps[n].endpoint in Endpoints(prefix) {
        assert np == earlier;
      } else {
        assert np == earlier + [ps[n]];
        var e := ps[n].endpoint;
        FirstIndexAtEnd(ps, n);
        forall k | 0 <= k < |np| ensures np[k].endpoint in Endpoints(ps) && np[k] == ps[FirstIndex(ps, np[k].endpoint)] {
          if k < |earlier| { assert np[k] == earlier[k]; }
        }
        forall j | 0 <= j < |earlier| ensures earlier[j].endpoint != e {
          assert earlier[j].endpoint in Endpoints(earlier);
        }
        assert Endpoints(np) == Endpoints(earlier) + {e} by {
          assert np[..|earlier|] == earlier && np == np[..|earlier| + 1];
          EndpointsSnoc(np, |earlier|);
        }
      }
    }
  }

  /**
   * An endpoint new to the roster has exactly one entry among the new
   * participants, and it is the endpoint's first entry in the list.
   */
  lemma NewParticipantIsFirstEntry(known: set<Endpoint>, ps: seq<ConferenceParticipant>, e: Endpoint)
    requires e in Endpoints(ps) && e !in known
    ensures e in Endpoints(NewParticipants(known, ps))
    ensures NewParticipants(known, ps)[LastIndex(NewParticipants(known, ps), e)] == ps[FirstIndex(ps, e)]
  {
    NewParticipantsAreFirstOccurrences(known, ps);
    var np := NewParticipants(known, ps);
    var k := LastIndex(np, e);
    assert np[k].endpoint == e;
  }

  /**
   * An update whose endpoints are all known creates nothing; in particular
   * a second delivery of the same list after the first has been applied.
   */
  lemma {:induction false} KnownEndpointsCreateNothing(known: set<Endpoint>, ps: seq<ConferenceParticipant>)
    requires Endpoints(ps) <= known
    ensures NewParticipants(known, ps) == []
    decreases |ps|
  {
    if ps != [] {
      var n := |ps| - 1;
      EndpointsSnoc(ps, n);
      assert ps[..n + 1] == ps;
      KnownEndpointsCreateNothing(known, ps[..n]);
    }
  }
}
