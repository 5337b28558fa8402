/**
 * The server's session registry: a process-wide map from pairing code to the
 * set of socket ids that joined that code. It changes only on `join-session`
 * and on `disconnect`.
 */
module Sessions {

  type Code = string
  type SocketId = string

  /** Pairing code to the ids of the sockets that joined it. */
  type Registry = map<Code, set<SocketId>>

  /** The registry at server start. */
  const Empty: Registry := map[]

  /** The registry's invariant: no code is kept with an empty set of sockets. */
  ghost predicate NoEmptySessions(r: Registry)
  {
    forall c :: c in r ==> r[c] != {}
  }

  /**
   * The `join-session` handler's bookkeeping: the code gets a set if it has
   * none, and the socket id is added to it.
   */
  function Join(r: Registry, code: Code, id: SocketId): (r': Registry)
    ensures r'.Keys == r.Keys + {code}
    ensures r'[code] == (if code in r then r[code] else {}) + {id}
    ensures forall c :: c in r && c != code ==> r'[c] == r[c]
  {
    var clients := if code in r then r[code] else {};
    r[code := clients + {id}]
  }

  /**
   * The `disconnect` handler: every set holding the id loses it, and a code
   * whose set that leaves empty is deleted. Sets that never held the id are
   * not looked at, so they stay as they are.
   */
  function Disconnect(r: Registry, id: SocketId): (r': Registry)
    ensures forall c :: c in r' ==> c in r && id !in r'[c]
    ensures forall c :: c in r ==> (c !in r' <==> r[c] == {id})
    ensures forall c, x :: c in r && x in r[c] && x != id ==> c in r' && x in r'[c]
    ensures forall c :: c in r' ==> r'[c] == r[c] - {id}
  {
    map c | c in r && (id !in r[c] || r[c] - {id} != {}) :: r[c] - {id}
  }

  /**
   * The `sessions.forEach` loop of the `disconnect` handler, one entry at a
   * time. It visits the codes in any order and ends with `Disconnect`'s result.
   */
  method DisconnectEach(r: Registry, id: SocketId) returns (r': Registry)
    ensures r' == Disconnect(r, id)
  {
    r' := r;
    var todo := r.Keys;
    while todo != {}
      invariant todo <= r.Keys
      invariant forall c :: c in r' ==> c in r
      invariant forall c :: c in todo ==> c in r' && r'[c] == r[c]
      invariant forall c :: c in r && c !in todo ==>
                  (c in r' <==> c in Disconnect(r, id)) &&
                  (c in r' ==> r'[c] == Disconnect(r, id)[c])
      decreases todo
    {
      var code :| code in todo;
      var clients := r'[code];
      if id in clients {
        clients := clients - {id};
        if clients == {} {
          r' := r' - {code};
        } else {
          r' := r'[code := clients];
        }
      }
      todo := todo - {code};
    }
    assert r'.Keys == Disconnect(r, id).Keys;
  }

  /** Joining keeps every code's set non-empty. */
  lemma JoinKeepsNoEmptySessions(r: Registry, code: Code, id: SocketId)
    requires NoEmptySessions(r)
    ensures NoEmptySessions(Join(r, code, id))
  {
  }

  /** Disconnecting keeps every code's set non-empty. */
  lemma DisconnectKeepsNoEmptySessions(r: Registry, id: SocketId)
    requires NoEmptySessions(r)
    ensures NoEmptySessions(Disconnect(r, id))
  {
  }

  /** Joining the same socket to the same code again changes nothing. */
  lemma JoinIdempotent(r: Registry, code: Code, id: SocketId)
    ensures Join(Join(r, code, id), code, id) == Join(r, code, id)
  {
  }

  /** A second disconnect of the same socket changes nothing. */
  lemma DisconnectIdempotent(r: Registry, id: SocketId)
    ensures Disconnect(Disconnect(r, id), id) == Disconnect(r, id)
  {
    DisconnectUnknown(Disconnect(r, id), id);
  }

  /** Disconnecting a socket that joined nothing leaves the registry as it is. */
  lemma DisconnectUnknown(r: Registry, id: SocketId)
    requires forall c :: c in r ==> id !in r[c]
    ensures Disconnect(r, id) == r
  {
    var r' := Disconnect(r, id);
    forall c | c in r
      ensures c in r' && r'[c] == r[c]
    {
      assert r[c] - {id} == r[c];
    }
    assert r'.Keys == r.Keys;
  }

  /** A fresh socket that joins and then disconnects leaves no trace. */
  lemma JoinThenDisconnect(r: Registry, code: Code, id: SocketId)
    requires NoEmptySessions(r)
    requires forall c :: c in r ==> id !in r[c]
    ensures Disconnect(Join(r, code, id), id) == r
  {
    var r' := Disconnect(Join(r, code, id), id);
    forall c | c in r
      ensures c in r' && r'[c] == r[c]
    {
      assert r[c] - {id} == r[c];
    }
    assert r'.Keys == r.Keys;
  }

  /** The socket events that touch the registry. */
  datatype Event = JoinSession(code: Code, id: SocketId) | Disconnected(id: SocketId)

  function Step(r: Registry, e: Event): Registry
  {
    match e
    case JoinSession(code, id) => Join(r, code, id)
    case Disconnected(id) => Disconnect(r, id)
  }

  /** The registry after handling the events in order. */
  function Replay(r: Registry, events: seq<Event>): Registry
    decreases |events|
  {
    if |events| == 0 then r else Replay(Step(r, events[0]), events[1..])
  }

  /** Any run of events from the start keeps every code's set non-empty. */
  lemma {:induction false} ReplayKeepsNoEmptySessions(r: Registry, events: seq<Event>)
    requires NoEmptySessions(r)
    ensures NoEmptySessions(Replay(r, events))
    decreases |events|
  {
    if |events| > 0 {
      match events[0] {
        case JoinSession(code, id) => JoinKeepsNoEmptySessions(r, code, id);
        case Disconnected(id) => DisconnectKeepsNoEmptySessions(r, id);
      }
      ReplayKeepsNoEmptySessions(Step(r, events[0]), events[1..]);
    }
  }

  /** Disconnects of the given sockets, in order. */
  function DisconnectAll(r: Registry, ids: seq<SocketId>): Registry
    decreases |ids|
  {
    if |ids| == 0 then r else DisconnectAll(Disconnect(r, ids[0]), ids[1..])
  }

  /** Once every socket of a code has disconnected, the code is gone. */
  lemma {:induction false} DisconnectAllRemovesCode(r: Registry, ids: seq<SocketId>, code: Code)
    requires NoEmptySessions(r)
    requires code in r ==> forall x :: x in r[code] ==> x in ids
    ensures code !in DisconnectAll(r, ids)
    decreases |ids|
  {
    if |ids| > 0 {
      var r1 := Disconnect(r, ids[0]);
      DisconnectKeepsNoEmptySessions(r, ids[0]);
      assert code in r1 ==> forall x :: x in r1[code] ==> x in ids[1..] by {
        if code in r1 {
          forall x | x in r1[code]
            ensures x in ids[1..]
          {
            assert x in ids && x != ids[0];
          }
        }
      }
      DisconnectAllRemovesCode(r1, ids[1..], code);
    }
  }
}
