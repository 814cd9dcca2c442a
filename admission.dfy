/** Which accepted connections are served: the optional uid allow-list
    (`check_allowed_socket`) and what `get_uid` learns from each kind of
    stream. */
module Admission {
  import opened Bytes
  import opened Stream
  import opened Proxy

  /** An accepted stream as far as admission can tell: a Unix stream whose
      peer credentials could (`Some`) or could not (`None`) be read, or a TCP
      stream. */
  datatype PeerStream = UnixPeer(credentials: Option<Uid>) | TcpPeer

  /** `GenericStream::get_uid`: the peer uid of a Unix stream; always an error
      on TCP. */
  function GetUid(peer: PeerStream): (uid: Option<Uid>)
    ensures peer.TcpPeer? ==> uid == None
    ensures peer.UnixPeer? ==> uid == peer.credentials
  {
    match peer
    case UnixPeer(credentials) => credentials
    case TcpPeer => None
  }

  /** `ProxyService::check_allowed_socket`. */
  predicate CheckAllowedSocket(service: ProxyService, peer: PeerStream)
  {
    match service.allowedUids
    case None => true
    case Some(allowed) =>
      match GetUid(peer)
      case None => false
      case Some(uid) => uid in allowed
  }

  /** Without an allow-list every connection is served; with one, exactly the
      connections whose uid could be read and is listed; so no TCP connection
      is served under an allow-list. */
  lemma AdmissionRule(service: ProxyService, peer: PeerStream)
    ensures service.allowedUids.None? ==> CheckAllowedSocket(service, peer)
    ensures service.allowedUids.Some? ==>
              (CheckAllowedSocket(service, peer) <==>
                 peer.UnixPeer? && peer.credentials.Some? && peer.credentials.value in service.allowedUids.value)
    ensures service.allowedUids.Some? && peer.TcpPeer? ==> !CheckAllowedSocket(service, peer)
  {
  }

  /** One accepted connection in an accept loop: dropped when the check fails,
      otherwise served by `serve_socks`, whose error `handle_socks_connection`
      only logs. A dropped connection is neither read nor written. */
  method HandleAccepted(service: ProxyService, peer: PeerStream, socket: ClientSocket, listening: set<seq<Byte>>)
    returns (admitted: bool, connectAttempt: Option<seq<Byte>>, relayed: bool)
    modifies socket
    ensures admitted == CheckAllowedSocket(service, peer)
    ensures !admitted ==>
              && socket.written == old(socket.written) && socket.pending == old(socket.pending)
              && connectAttempt == None && !relayed
    ensures admitted ==>
              var s := Session(service.directory, old(socket.pending), listening);
              && socket.written == old(socket.written) + s.written && socket.pending == s.unread
              && connectAttempt == s.connectAttempt && relayed == s.relayed
  {
    admitted := CheckAllowedSocket(service, peer);
    if !admitted {
      return admitted, None, false;
    }
    var outcome;
    outcome, connectAttempt, relayed := ServeSocks(service, socket, listening);
  }
}
