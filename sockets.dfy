/**
 * A connected stream as the handshakes see it: the bytes the peer has sent
 * and not yet read, what has happened on the connection so far, and how many
 * more messages the peer accepts before a write fails (and with which error).
 * A message is written whole or not at all.
 */
module Sockets {
  import opened Wrappers
  import opened Text
  import opened IoKinds

  /** The stream the handshake runs over, or the egress stream it opened. */
  datatype Side = Peer | Egress

  /** What the handshake did, in order. */
  datatype Event = Wrote(bytes: Bytes) | Dialed | Relayed | ShutDown(side: Side)

  datatype Wire = Wire(unread: Bytes, events: seq<Event>, writable: nat, failure: IoErrorKind)

  /** The wire of a fresh connection. */
  function Fresh(input: Bytes, writable: nat, failure: IoErrorKind): Wire
  {
    Wire(input, [], writable, failure)
  }

  /** Write one message: it is sent if the peer still accepts writes, and fails with the wire's error otherwise. */
  function Send(w: Wire, b: Bytes): (Result<(), IoErrorKind>, Wire)
  {
    if w.writable > 0 then (Ok(()), w.(events := w.events + [Wrote(b)], writable := w.writable - 1))
    else (Err(w.failure), w)
  }

  /** Read one message with a decoder, which takes what it consumes off the unread bytes. */
  function Recv<T, E>(w: Wire, decode: Bytes -> Result<(T, Bytes), E>): (Result<T, E>, Wire)
  {
    match decode(w.unread)
    case Ok((v, rest)) => (Ok(v), w.(unread := rest))
    case Err(e) => (Err(e), w)
  }

  /** Record a step that is not a write. */
  function Note(w: Wire, e: Event): Wire
  {
    w.(events := w.events + [e])
  }

  /** `w1` follows `w` by reads and writes alone. */
  predicate OnlyWrites(w: Wire, w1: Wire)
  {
    |w1.events| >= |w.events| && w1.events[..|w.events|] == w.events
    && forall i :: |w.events| <= i < |w1.events| ==> w1.events[i].Wrote?
  }

  lemma OnlyWritesTrans(a: Wire, b: Wire, c: Wire)
    requires OnlyWrites(a, b) && OnlyWrites(b, c)
    ensures OnlyWrites(a, c)
  {
    assert c.events[..|a.events|] == c.events[..|b.events|][..|a.events|];
  }

  lemma SendOnlyWrites(w: Wire, b: Bytes)
    ensures OnlyWrites(w, Send(w, b).1)
  {
  }

  /** The stream itself: reads and writes change it in place. */
  class Socket {
    var unread: Bytes
    var events: seq<Event>
    var writable: nat
    const failure: IoErrorKind

    function State(): Wire
      reads this
    {
      Wire(unread, events, writable, failure)
    }

    constructor (input: Bytes, writable: nat, failure: IoErrorKind)
      ensures State() == Fresh(input, writable, failure)
    {
      unread := input;
      events := [];
      this.writable := writable;
      this.failure := failure;
    }

    method Write(b: Bytes) returns (r: Result<(), IoErrorKind>)
      modifies this
      ensures (r, State()) == Send(old(State()), b)
    {
      if writable > 0 {
        events := events + [Wrote(b)];
        writable := writable - 1;
        r := Ok(());
      } else {
        r := Err(failure);
      }
    }

    method Read<T, E>(decode: Bytes -> Result<(T, Bytes), E>) returns (r: Result<T, E>)
      modifies this
      ensures (r, State()) == Recv(old(State()), decode)
    {
      var d := decode(unread);
      if d.Ok? {
        unread := d.value.1;
        r := Ok(d.value.0);
      } else {
        r := Err(d.error);
      }
    }

    method Mark(e: Event)
      modifies this
      ensures State() == Note(old(State()), e)
    {
      events := events + [e];
    }
  }
}
