/** The TCP Socket and Acceptor of mart/experimental/network/tcp.h. Every
    call into the operating system is a parameter holding its result: the
    handle socket() creates, the return codes of connect, bind and listen,
    the endpoint getsockname reports, the byte count send reports, and the
    handle and peer accept reports. */
module Tcp {

  /** nw::socks::Socket as far as this file relies on it: a native handle or
      none. A default-constructed or moved-from handle is invalid. */
  datatype Handle = InvalidHandle | Native(fd: nat)
  {
    predicate IsValid() { Native? }
  }

  /** An IPv4 endpoint with its validity flag; endpoint{} is invalid. */
  datatype Endpoint = Endpoint(address: nat, port: nat, valid: bool)

  const DefaultEndpoint := Endpoint(0, 0, false)

  /** The outcome of an operation: the fields afterwards and its return value. */
  datatype Step<F> = Step(after: F, ok: bool)

  // ================================================================= Socket

  datatype SocketFields = SocketFields(handle: Handle, epLocal: Endpoint, epRemote: Endpoint)

  /** Socket{}: no handle and default endpoints. */
  const DefaultSocket := SocketFields(InvalidHandle, DefaultEndpoint, DefaultEndpoint)

  /** open_if_necessary(): creates a handle only when there is no valid one. */
  function OpenedIfNecessary(f: SocketFields, created: Handle): (g: SocketFields)
    ensures f.handle.IsValid() ==> g == f
    ensures !f.handle.IsValid() ==> g == f.(handle := created)
  {
    if f.handle.IsValid() then f else f.(handle := created)
  }

  /** connect(ep): opens if necessary, always records ep as the remote
      endpoint, takes the local endpoint from getsockname only when that is
      valid, and succeeds exactly when the connect call returned 0. */
  function ConnectStep(f: SocketFields, ep: Endpoint, created: Handle, connectResult: int, lookup: Endpoint)
    : (s: Step<SocketFields>)
    ensures s.after.handle == OpenedIfNecessary(f, created).handle
    ensures s.after.epRemote == ep
    ensures s.after.epLocal == if lookup.valid then lookup else f.epLocal
    ensures s.ok <==> connectResult == 0
  {
    var g := OpenedIfNecessary(f, created).(epRemote := ep);
    Step(if lookup.valid then g.(epLocal := lookup) else g, connectResult == 0)
  }

  /** Socket::bind(ep): opens if necessary and records ep as the local
      endpoint whether or not the bind call succeeds. */
  function SocketBindStep(f: SocketFields, ep: Endpoint, created: Handle, bindResult: int)
    : (s: Step<SocketFields>)
    ensures s.after.handle == OpenedIfNecessary(f, created).handle
    ensures s.after.epLocal == ep && s.after.epRemote == f.epRemote
    ensures s.ok <==> bindResult == 0
  {
    Step(OpenedIfNecessary(f, created).(epLocal := ep), bindResult == 0)
  }

  /** send(data): what is left to send after the call sent ret bytes; nothing
      when it failed. Sending never reports more bytes than it was given. */
  function Unsent(data: seq<bv8>, ret: int): (rest: seq<bv8>)
    requires ret <= |data|
    ensures ret >= 0 ==> |rest| == |data| - ret && data[..ret] + rest == data
    ensures ret < 0 ==> rest == []
  {
    if ret >= 0 then data[ret..] else []
  }

  /** Sending what is left again and again hands every byte over exactly once:
      the bytes sent by two calls followed by what is still unsent make up
      the original data. */
  lemma UnsentTwice(data: seq<bv8>, ret1: int, ret2: int)
    requires 0 <= ret1 <= |data| && 0 <= ret2 <= |data| - ret1
    ensures Unsent(Unsent(data, ret1), ret2) == Unsent(data, ret1 + ret2)
    ensures data[..ret1] + Unsent(data, ret1)[..ret2] + Unsent(Unsent(data, ret1), ret2) == data
  {
    assert data[ret1..][ret2..] == data[ret1 + ret2..];
    assert data[..ret1] + data[ret1..][..ret2] == data[..ret1 + ret2];
  }

  /** Opening if necessary leaves a socket with a valid handle whenever it
      had one or the newly created one is valid; connect and bind both start
      with it. */
  lemma OpenIfNecessaryValid(f: SocketFields, created: Handle, ep: Endpoint, r: int, lookup: Endpoint)
    ensures OpenedIfNecessary(f, created).handle.IsValid() <==> f.handle.IsValid() || created.IsValid()
    ensures ConnectStep(f, ep, created, r, lookup).after.handle.IsValid() <==> f.handle.IsValid() || created.IsValid()
    ensures SocketBindStep(f, ep, created, r).after.handle.IsValid() <==> f.handle.IsValid() || created.IsValid()
    ensures f.handle.IsValid() ==> OpenedIfNecessary(OpenedIfNecessary(f, created), created) == f
  {
  }

  class Socket {
    var handle: Handle
    var epLocal: Endpoint
    var epRemote: Endpoint

    function Fields(): SocketFields
      reads this
    {
      SocketFields(handle, epLocal, epRemote)
    }

    /** Socket() = default. */
    constructor ()
      ensures Fields() == DefaultSocket
    {
      handle, epLocal, epRemote := InvalidHandle, DefaultEndpoint, DefaultEndpoint;
    }

    /** Socket(ep): a default socket that then binds to ep; the result of the
        bind is dropped. */
    constructor FromEndpoint(ep: Endpoint, created: Handle, bindResult: int)
      ensures Fields() == SocketBindStep(DefaultSocket, ep, created, bindResult).after
    {
      handle := created;
      epLocal, epRemote := ep, DefaultEndpoint;
    }

    /** The move constructor takes the three fields and resets the source to
        Socket{}. */
    constructor MoveFrom(other: Socket)
      modifies other
      ensures Fields() == old(other.Fields())
      ensures other.Fields() == DefaultSocket
    {
      handle, epLocal, epRemote := other.handle, other.epLocal, other.epRemote;
      new;
      other.handle, other.epLocal, other.epRemote := InvalidHandle, DefaultEndpoint, DefaultEndpoint;
    }

    /** The move assignment takes the three fields and leaves the source with a
        moved-from handle and default endpoints. */
    method MoveAssign(other: Socket)
      requires other != this
      modifies this, other
      ensures Fields() == old(other.Fields())
      ensures other.Fields() == DefaultSocket
    {
      handle := other.handle;
      other.handle := InvalidHandle;
      epLocal := other.epLocal;
      other.epLocal := DefaultEndpoint;
      epRemote := other.epRemote;
      other.epRemote := DefaultEndpoint;
    }

    predicate IsValid()
      reads this
    {
      handle.IsValid()
    }

    method OpenIfNecessary(created: Handle)
      modifies this
      ensures Fields() == OpenedIfNecessary(old(Fields()), created)
    {
      if !IsValid() {
        handle := created;
      }
    }

    method Connect(ep: Endpoint, created: Handle, connectResult: int, lookup: Endpoint) returns (ok: bool)
      modifies this
      ensures Step(Fields(), ok) == ConnectStep(old(Fields()), ep, created, connectResult, lookup)
    {
      OpenIfNecessary(created);
      epRemote := ep;
      var t := connectResult;
      var tEp := lookup;
      if tEp.valid {
        epLocal := tEp;
      }
      return t == 0;
    }

    method Bind(ep: Endpoint, created: Handle, bindResult: int) returns (ok: bool)
      modifies this
      ensures Step(Fields(), ok) == SocketBindStep(old(Fields()), ep, created, bindResult)
    {
      OpenIfNecessary(created);
      epLocal := ep;
      return bindResult == 0;
    }

    /** send(data), where the send call reported ret. */
    method Send(data: seq<bv8>, ret: int) returns (rest: seq<bv8>)
      requires ret <= |data|
      ensures rest == Unsent(data, ret)
    {
      if ret >= 0 {
        rest := data[ret..];
      } else {
        rest := [];
      }
    }
  }

  // =============================================================== Acceptor

  datatype State = Closed | Open | Bound | Listening

  datatype AcceptorFields = AcceptorFields(handle: Handle, epLocal: Endpoint, state: State)

  /** Acceptor{}, and what listen_on resets a listening acceptor to. */
  const ClosedAcceptor := AcceptorFields(InvalidHandle, DefaultEndpoint, Closed)

  /** Only a closed acceptor may lack a valid handle. */
  predicate Consistent(f: AcceptorFields)
  {
    f.state != Closed ==> f.handle.IsValid()
  }

  /** open(): whatever the state, replaces the handle with a new one; open
      when that is valid, closed otherwise. */
  function OpenStep(f: AcceptorFields, created: Handle): (s: Step<AcceptorFields>)
    ensures s.after.handle == created && s.after.epLocal == f.epLocal
    ensures s.ok <==> created.IsValid()
    ensures s.after.state == if s.ok then Open else Closed
  {
    if created.IsValid() then Step(AcceptorFields(created, f.epLocal, Open), true)
    else Step(AcceptorFields(created, f.epLocal, Closed), false)
  }

  /** bind(ep): refused without any change unless open; from open, records ep
      and becomes bound when the bind call returns 0, and changes nothing
      otherwise. */
  function BindStep(f: AcceptorFields, ep: Endpoint, bindResult: int): (s: Step<AcceptorFields>)
    ensures f.state != Open ==> s == Step(f, false)
    ensures f.state == Open ==> (s.ok <==> bindResult == 0)
    ensures f.state == Open && s.ok ==> s.after == f.(epLocal := ep, state := Bound)
    ensures f.state == Open && !s.ok ==> s.after == f
  {
    if f.state != Open then Step(f, false)
    else if bindResult == 0 then Step(f.(epLocal := ep, state := Bound), true)
    else Step(f, false)
  }

  /** listen(backlog): refused without any change unless bound; from bound,
      listening when the listen call returns 0, still bound otherwise. */
  function ListenStep(f: AcceptorFields, listenResult: int): (s: Step<AcceptorFields>)
    ensures f.state != Bound ==> s == Step(f, false)
    ensures f.state == Bound ==> (s.ok <==> listenResult == 0)
    ensures f.state == Bound ==> s.after == if s.ok then f.(state := Listening) else f
  {
    if f.state != Bound then Step(f, false)
    else if listenResult == 0 then Step(f.(state := Listening), true)
    else Step(f, false)
  }

  /** The tail of listen_on entered at case bound. */
  function ListenFromBound(f: AcceptorFields, listenResult: int): (s: Step<AcceptorFields>)
    ensures s.ok <==> f.state == Bound && listenResult == 0
    ensures s.after == if s.ok then f.(state := Listening) else f
  {
    ListenStep(f, listenResult)
  }

  /** The tail of listen_on entered at case open. */
  function ListenFromOpen(f: AcceptorFields, ep: Endpoint, bindResult: int, listenResult: int): (s: Step<AcceptorFields>)
    ensures s.ok <==> f.state == Open && bindResult == 0 && listenResult == 0
    ensures f.state != Open || bindResult != 0 ==> s.after == f
    ensures f.state == Open && bindResult == 0 ==>
              s.after == f.(epLocal := ep, state := if s.ok then Listening else Bound)
  {
    var b := BindStep(f, ep, bindResult);
    if !b.ok then b else ListenFromBound(b.after, listenResult)
  }

  /** The tail of listen_on entered at case closed. */
  function ListenFromClosed(f: AcceptorFields, ep: Endpoint, created: Handle, bindResult: int, listenResult: int)
    : (s: Step<AcceptorFields>)
    ensures s.ok <==> created.IsValid() && bindResult == 0 && listenResult == 0
    ensures s.after.handle == created
    ensures s.after.state == if !created.IsValid() then Closed
                             else if bindResult != 0 then Open
                             else if listenResult != 0 then Bound
                             else Listening
    ensures s.after.epLocal == if created.IsValid() && bindResult == 0 then ep else f.epLocal
  {
    var o := OpenStep(f, created);
    if !o.ok then o else ListenFromOpen(o.after, ep, bindResult, listenResult)
  }

  /** listen_on(ep): a switch on the state whose cases fall through; a
      listening acceptor is first reset to closed. */
  function ListenOnStep(f: AcceptorFields, ep: Endpoint, created: Handle, bindResult: int, listenResult: int)
    : (s: Step<AcceptorFields>)
    ensures s.ok <==> s.after.state == Listening
  {
    match f.state
    case Listening => ListenFromClosed(ClosedAcceptor, ep, created, bindResult, listenResult)
    case Closed => ListenFromClosed(f, ep, created, bindResult, listenResult)
    case Open => ListenFromOpen(f, ep, bindResult, listenResult)
    case Bound => ListenFromBound(f, listenResult)
  }

  /** From listening, listen_on drops the handle, the endpoint and the state
      and replays open, bind and listen; the result does not depend on the
      old fields at all. */
  lemma ListenOnFromListeningReplays(f: AcceptorFields, g: AcceptorFields, ep: Endpoint, created: Handle,
                                     bindResult: int, listenResult: int)
    requires f.state == Listening
    requires g.state == Listening || g == ClosedAcceptor
    ensures ListenOnStep(f, ep, created, bindResult, listenResult)
            == ListenOnStep(g, ep, created, bindResult, listenResult)
    ensures ListenOnStep(f, ep, created, bindResult, listenResult).ok
            <==> created.IsValid() && bindResult == 0 && listenResult == 0
  {
  }

  /** From bound, listen_on does not bind again: ep is ignored, the local
      endpoint and handle stay, and only the listen call decides. */
  lemma ListenOnFromBoundKeepsEndpoint(f: AcceptorFields, ep: Endpoint, created: Handle,
                                       bindResult: int, listenResult: int)
    requires f.state == Bound
    ensures var s := ListenOnStep(f, ep, created, bindResult, listenResult);
            s.after.epLocal == f.epLocal && s.after.handle == f.handle
            && (s.ok <==> listenResult == 0)
  {
  }

  /** When every system call succeeds, listen_on from any state ends
      listening, and bound to ep unless it was bound already. */
  lemma ListenOnSucceeds(f: AcceptorFields, ep: Endpoint, created: Handle)
    requires Consistent(f) && created.IsValid()
    ensures var s := ListenOnStep(f, ep, created, 0, 0);
            s.ok && s.after.state == Listening && s.after.handle.IsValid()
            && (f.state != Bound ==> s.after.epLocal == ep)
  {
  }

  /** Every operation keeps an acceptor consistent. */
  lemma OperationsKeepConsistent(f: AcceptorFields, ep: Endpoint, created: Handle, bindResult: int, listenResult: int)
    requires Consistent(f)
    ensures Consistent(OpenStep(f, created).after)
    ensures Consistent(BindStep(f, ep, bindResult).after)
    ensures Consistent(ListenStep(f, listenResult).after)
    ensures Consistent(ListenOnStep(f, ep, created, bindResult, listenResult).after)
  {
  }

  /** try_accept_impl(): a default socket unless the acceptor's handle and the
      accepted handle are both valid; then a socket with the accepted handle,
      the acceptor's local endpoint and the peer as remote endpoint. */
  function AcceptStep(f: AcceptorFields, accepted: Handle, peer: Endpoint): (s: SocketFields)
    ensures s.handle.IsValid() <==> f.handle.IsValid() && accepted.IsValid()
    ensures s.handle.IsValid() ==> s == SocketFields(accepted, f.epLocal, peer)
    ensures !s.handle.IsValid() ==> s == DefaultSocket
  {
    if !f.handle.IsValid() then DefaultSocket
    else if !accepted.IsValid() then DefaultSocket
    else SocketFields(accepted, f.epLocal, peer)
  }

  /** The move assignment as written: it takes the handle and the local
      endpoint, resets the source's endpoint, and leaves both states alone. */
  function MoveAssignAsWritten(dst: AcceptorFields, src: AcceptorFields): (r: (AcceptorFields, AcceptorFields))
    ensures r.0.handle == src.handle && r.0.epLocal == src.epLocal && r.0.state == dst.state
    ensures r.1 == src.(handle := InvalidHandle, epLocal := DefaultEndpoint)
  {
    (AcceptorFields(src.handle, src.epLocal, dst.state), src.(handle := InvalidHandle, epLocal := DefaultEndpoint))
  }

  /** Moving a listening acceptor onto a closed one leaves the target closed
      although it holds the listening handle, and the source listening with no
      handle at all, which breaks Consistent. */
  lemma MoveAssignAsWrittenLosesState()
    ensures var src := AcceptorFields(Native(3), Endpoint(0x7f00_0001, 8080, true), Listening);
            var r := MoveAssignAsWritten(ClosedAcceptor, src);
            Consistent(ClosedAcceptor) && Consistent(src)
            && r.0.state == Closed && r.0.handle == src.handle
            && !Consistent(r.1)
  {
  }

  /** The move constructor as written: it takes all three fields, leaving the
      source with a moved-from handle, and then resets the source with
      `other = Acceptor{}`, which is the move assignment above and so leaves
      the source's state alone. */
  function MoveConstructAsWritten(src: AcceptorFields): (r: (AcceptorFields, AcceptorFields))
    ensures r.0 == src
    ensures r.1.handle == InvalidHandle && r.1.epLocal == DefaultEndpoint && r.1.state == src.state
  {
    var movedFrom := src.(handle := InvalidHandle);
    (src, MoveAssignAsWritten(movedFrom, ClosedAcceptor).0)
  }

  /** Move-constructing from a listening acceptor leaves the source listening
      with no handle, which breaks Consistent; resetting the source to
      Acceptor{} in full, as MoveAssignStep does, keeps it. */
  lemma MoveConstructAsWrittenLosesState()
    ensures var src := AcceptorFields(Native(3), Endpoint(0x7f00_0001, 8080, true), Listening);
            var r := MoveConstructAsWritten(src);
            Consistent(src) && r.1.state == Listening && !Consistent(r.1)
            && Consistent(MoveAssignStep(r.1, ClosedAcceptor).0)
  {
  }

  /** The move assignment with the state moved as the move constructor moves
      it: the target becomes the source, the source becomes Acceptor{}. */
  function MoveAssignStep(dst: AcceptorFields, src: AcceptorFields): (r: (AcceptorFields, AcceptorFields))
    ensures r.0 == src && r.1 == ClosedAcceptor
    ensures Consistent(src) ==> Consistent(r.0) && Consistent(r.1)
  {
    (src, ClosedAcceptor)
  }

  class Acceptor {
    var handle: Handle
    var epLocal: Endpoint
    var state: State

    function Fields(): AcceptorFields
      reads this
    {
      AcceptorFields(handle, epLocal, state)
    }

    predicate Valid()
      reads this
    {
      Consistent(Fields())
    }

    /** Acceptor() = default: closed, no handle. */
    constructor ()
      ensures Fields() == ClosedAcceptor && Valid()
    {
      handle, epLocal, state := InvalidHandle, DefaultEndpoint, Closed;
    }

    /** Acceptor(ep): records ep, then listen_on(ep); the result is dropped. */
    constructor FromEndpoint(ep: Endpoint, created: Handle, bindResult: int, listenResult: int)
      ensures Fields() == ListenOnStep(AcceptorFields(InvalidHandle, ep, Closed), ep, created, bindResult, listenResult).after
      ensures Valid()
    {
      handle, epLocal, state := InvalidHandle, ep, Closed;
      new;
      var _ := ListenOn(ep, created, bindResult, listenResult);
    }

    /** The move constructor takes all three fields, then resets the source
        by move-assigning Acceptor{} to it. */
    constructor MoveFrom(other: Acceptor)
      modifies other
      ensures Fields() == old(other.Fields())
      ensures other.Fields() == ClosedAcceptor
    {
      handle, epLocal, state := other.handle, other.epLocal, other.state;
      new;
      other.handle, other.epLocal, other.state := InvalidHandle, DefaultEndpoint, Closed;
    }

    /** The move assignment, moving the state as well (see MoveAssignStep). */
    method MoveAssign(other: Acceptor)
      requires other != this
      modifies this, other
      ensures (Fields(), other.Fields()) == MoveAssignStep(old(Fields()), old(other.Fields()))
      ensures old(other.Valid()) ==> Valid() && other.Valid()
    {
      handle := other.handle;
      other.handle := InvalidHandle;
      epLocal := other.epLocal;
      other.epLocal := DefaultEndpoint;
      state := other.state;
      other.state := Closed;
    }

    method Open(created: Handle) returns (ok: bool)
      modifies this
      ensures Step(Fields(), ok) == OpenStep(old(Fields()), created)
      ensures Valid()
    {
      handle := created;
      if handle.IsValid() {
        state := State.Open;
        return true;
      } else {
        state := Closed;
        return false;
      }
    }

    method Bind(ep: Endpoint, bindResult: int) returns (ok: bool)
      modifies this
      ensures Step(Fields(), ok) == BindStep(old(Fields()), ep, bindResult)
      ensures old(Valid()) ==> Valid()
    {
      if state != State.Open {
        return false;
      }
      if bindResult == 0 {
        epLocal := ep;
        state := Bound;
        return true;
      } else {
        return false;
      }
    }

    method Listen(listenResult: int) returns (ok: bool)
      modifies this
      ensures Step(Fields(), ok) == ListenStep(old(Fields()), listenResult)
      ensures old(Valid()) ==> Valid()
    {
      if state != Bound {
        return false;
      }
      if listenResult == 0 {
        state := Listening;
        return true;
      } else {
        return false;
      }
    }

    method ListenOn(ep: Endpoint, created: Handle, bindResult: int, listenResult: int) returns (ok: bool)
      modifies this
      ensures Step(Fields(), ok) == ListenOnStep(old(Fields()), ep, created, bindResult, listenResult)
      ensures ok <==> state == Listening
      ensures old(Valid()) ==> Valid()
    {
      if Valid() {
        OperationsKeepConsistent(Fields(), ep, created, bindResult, listenResult);
      }
      var entry := state;
      if entry == Listening {
        handle, epLocal, state := InvalidHandle, DefaultEndpoint, Closed;
        entry := Closed;
      }
      if entry == Closed {
        ok := Open(created);
        if !ok {
          return;
        }
        entry := State.Open;
      }
      if entry == State.Open {
        ok := Bind(ep, bindResult);
        if !ok {
          return;
        }
      }
      ok := Listen(listenResult);
    }

    predicate IsValid()
      reads this
    {
      handle.IsValid()
    }

    /** try_accept_impl(): the accept call reports the accepted handle and
        the peer; the handle the new socket opens first is immediately
        replaced by the accepted one. */
    method TryAcceptImpl(accepted: Handle, peer: Endpoint, spare: Handle) returns (s: Socket)
      ensures fresh(s) && s.Fields() == AcceptStep(Fields(), accepted, peer)
    {
      if !handle.IsValid() {
        s := new Socket();
        return;
      }
      if !accepted.IsValid() {
        s := new Socket();
        return;
      }
      s := new Socket();
      s.OpenIfNecessary(spare);
      s.handle := accepted;
      s.epLocal := epLocal;
      s.epRemote := peer;
    }

    /** accept(timeout): sets blocking mode and the receive timeout, which
        are not modelled, then try_accept_impl(). */
    method Accept(accepted: Handle, peer: Endpoint, spare: Handle) returns (s: Socket)
      ensures fresh(s) && s.Fields() == AcceptStep(Fields(), accepted, peer)
    {
      s := TryAcceptImpl(accepted, peer, spare);
    }

    /** try_accept(): sets non-blocking mode, which is not modelled, then
        try_accept_impl(). */
    method TryAccept(accepted: Handle, peer: Endpoint, spare: Handle) returns (s: Socket)
      ensures fresh(s) && s.Fields() == AcceptStep(Fields(), accepted, peer)
    {
      s := TryAcceptImpl(accepted, peer, spare);
    }
  }
}
