/** Listening sockets inherited through systemd socket activation
    (`handle_socket_activation`, `from_raw_fd`): which descriptors are taken,
    and whether each becomes a TCP or a Unix listener. The environment, the
    process id, the address family `getsockopt` reports and whether a
    descriptor can be adopted are inputs. */
module Activation {
  import opened Bytes
  import opened Decimal

  /** Address families of `libc` on Linux. */
  const AF_INET: int := 2
  const AF_INET6: int := 10

  /** The first inherited descriptor (`SD_LISTEN_FDS_START`). */
  const LISTEN_FDS_START: nat := 3

  const U32_MODULUS: nat := 0x1_0000_0000
  const I32_MAX: nat := 0x7FFF_FFFF

  datatype ListenerKind = TcpListener | UnixListener

  /** The family test of `from_raw_fd`: `getsockopt(SO_DOMAIN)` leaves the
      family 0 when it fails, which is not a TCP family. */
  function Classify(family: int): (kind: ListenerKind)
  {
    if family == AF_INET || family == AF_INET6 then TcpListener else UnixListener
  }

  /** Exactly the IPv4 and IPv6 families give TCP listeners; everything else,
      including a failed query, gives a Unix listener. */
  lemma ClassifyFamilies(family: int)
    ensures Classify(family) == TcpListener <==> family in {AF_INET, AF_INET6}
    ensures Classify(0) == UnixListener
  {
  }

  /** `from_raw_fd`: the listener for `fd`, or `None` when `set_nonblocking` or
      `from_std` fails (`adoptable` false). */
  function FromRawFd(family: int, adoptable: bool): (listener: Option<ListenerKind>)
    ensures listener.Some? <==> adoptable
    ensures listener.Some? ==> listener.value == Classify(family)
  {
    if adoptable then Some(Classify(family)) else None
  }

  /** Socket activation applies when `LISTEN_PID` is set, parses as a `u32`
      and equals the own process id. */
  predicate ActivationEnabled(listenPid: Option<seq<Byte>>, ownPid: nat)
  {
    listenPid.Some? && ParseU32(listenPid.value) == Some(ownPid)
  }

  /** `LISTEN_FDS` parsed as a `u32`, or 0 when unset or unparseable. */
  function FdCount(listenFds: Option<seq<Byte>>): (n: nat)
    ensures n <= U32_MAX
    ensures listenFds.None? ==> n == 0
    ensures listenFds.Some? && ParseU32(listenFds.value).None? ==> n == 0
    ensures listenFds.Some? && ParseU32(listenFds.value).Some? ==> n == ParseU32(listenFds.value).value
  {
    if listenFds.None? then 0
    else match ParseU32(listenFds.value)
      case None => 0
      case Some(count) => count
  }

  /** The range end `3 + fd_count` in `u32`, wrapping modulo 2^32 as a release
      build does. */
  function RangeEnd(count: nat): nat
    requires count <= U32_MAX
  {
    var sum := LISTEN_FDS_START + count;
    if sum < U32_MODULUS then sum else sum - U32_MODULUS
  }

  /** `raw as u32`: an `i32` read back as a `u32`. */
  function AsU32(raw: int): int
  {
    if raw < 0 then raw + U32_MODULUS else raw
  }

  /** `fd as RawFd`: the `u32` read as an `i32`; reading it back as a `u32`
      gives `fd` again. */
  function ToRawFd(fd: nat): (raw: int)
    requires fd <= U32_MAX
    ensures -0x8000_0000 <= raw <= I32_MAX
    ensures AsU32(raw) == fd
  {
    if fd <= I32_MAX then fd else fd - U32_MODULUS
  }

  /** The `RawFd`s of the range `3..end`, in order. */
  function ListenRange(end: nat): seq<int>
    requires end <= U32_MAX
    decreases end
  {
    if end <= LISTEN_FDS_START then [] else ListenRange(end - 1) + [ToRawFd(end - 1)]
  }

  /** The range `3..end` holds `end - 3` descriptors (none when `end <= 3`),
      the `i`-th being `3 + i` as an `i32`. */
  lemma {:induction false} ListenRangeValues(end: nat)
    requires end <= U32_MAX
    ensures var fds := ListenRange(end);
            && |fds| == (if end <= LISTEN_FDS_START then 0 else end - LISTEN_FDS_START)
            && (forall i :: 0 <= i < |fds| ==> fds[i] == ToRawFd(LISTEN_FDS_START + i))
            && (forall i :: 0 <= i < |fds| ==> AsU32(fds[i]) == LISTEN_FDS_START + i)
            && (forall i :: 0 <= i < |fds| && LISTEN_FDS_START + i <= I32_MAX ==> fds[i] == LISTEN_FDS_START + i)
    decreases end
  {
    if end > LISTEN_FDS_START {
      ListenRangeValues(end - 1);
      var fds := ListenRange(end);
      assert fds == ListenRange(end - 1) + [ToRawFd(end - 1)];
      forall i | 0 <= i < |fds|
        ensures fds[i] == ToRawFd(LISTEN_FDS_START + i)
      {
        if i < |fds| - 1 {
          assert fds[i] == ListenRange(end - 1)[i];
        }
      }
    }
  }

  /** The descriptors the loop visits, as `RawFd`s. */
  function Descriptors(listenPid: Option<seq<Byte>>, listenFds: Option<seq<Byte>>, ownPid: nat): seq<int>
  {
    if !ActivationEnabled(listenPid, ownPid) then [] else ListenRange(RangeEnd(FdCount(listenFds)))
  }

  /** Without a matching `LISTEN_PID` no descriptor is taken. */
  lemma NoActivationWithoutPid(listenPid: Option<seq<Byte>>, listenFds: Option<seq<Byte>>, ownPid: nat)
    requires !ActivationEnabled(listenPid, ownPid)
    ensures Descriptors(listenPid, listenFds, ownPid) == []
  {
  }

  /** With a matching `LISTEN_PID` and `n` descriptors, `n` at most
      `u32::MAX - 3`, the descriptors are `3, 4, ..., 2 + n`, each read as an
      `i32` (so those above `i32::MAX` come out negative). */
  lemma DescriptorsFromThree(listenPid: Option<seq<Byte>>, listenFds: Option<seq<Byte>>, ownPid: nat)
    requires ActivationEnabled(listenPid, ownPid)
    requires FdCount(listenFds) <= U32_MAX - LISTEN_FDS_START
    ensures var fds := Descriptors(listenPid, listenFds, ownPid);
            && |fds| == FdCount(listenFds)
            && (forall i :: 0 <= i < |fds| ==> AsU32(fds[i]) == LISTEN_FDS_START + i)
            && (forall i :: 0 <= i < |fds| && LISTEN_FDS_START + i <= I32_MAX ==> fds[i] == LISTEN_FDS_START + i)
  {
    var end := RangeEnd(FdCount(listenFds));
    assert end == LISTEN_FDS_START + FdCount(listenFds);
    ListenRangeValues(end);
  }

  /** A `LISTEN_FDS` of `u32::MAX - 2` or more wraps the range end below 3,
      so no descriptor is taken. */
  lemma WrappedCountTakesNothing(listenPid: Option<seq<Byte>>, listenFds: Option<seq<Byte>>, ownPid: nat)
    requires FdCount(listenFds) > U32_MAX - LISTEN_FDS_START
    ensures Descriptors(listenPid, listenFds, ownPid) == []
  {
    var n := FdCount(listenFds);
    assert RangeEnd(n) == LISTEN_FDS_START + n - U32_MODULUS;
  }

  /** The listeners taken from `fds` in order, and whether an adoption failed,
      which stops the loop (`listeners?`). */
  datatype Adopted = Adopted(listeners: seq<(int, ListenerKind)>, failed: bool)

  function AdoptAll(fds: seq<int>, family: int -> int, adoptable: int -> bool): Adopted
    decreases |fds|
  {
    if fds == [] then Adopted([], false)
    else
      match FromRawFd(family(fds[0]), adoptable(fds[0]))
      case None => Adopted([], true)
      case Some(kind) =>
        var tail := AdoptAll(fds[1..], family, adoptable);
        Adopted([(fds[0], kind)] + tail.listeners, tail.failed)
  }

  /** The listeners are the descriptors before the first one that cannot be
      adopted, in order, each classified by its family; the loop fails exactly
      when such a descriptor exists, and it is the next one. */
  lemma {:induction false} AdoptAllStopsAtFailure(fds: seq<int>, family: int -> int, adoptable: int -> bool)
    ensures var r := AdoptAll(fds, family, adoptable);
            && |r.listeners| <= |fds|
            && (forall i :: 0 <= i < |r.listeners| ==>
                  adoptable(fds[i]) && r.listeners[i] == (fds[i], Classify(family(fds[i]))))
            && (r.failed <==> |r.listeners| < |fds|)
            && (r.failed ==> !adoptable(fds[|r.listeners|]))
    decreases |fds|
  {
    if fds != [] && adoptable(fds[0]) {
      AdoptAllStopsAtFailure(fds[1..], family, adoptable);
    }
  }

  /** One descriptor more: if the listeners adopted before position `k` are
      `listeners`, then descriptor `k` either ends the adoption with a failure
      or its listener is the next one. */
  lemma AdoptAllStep(fds: seq<int>, k: nat, listeners: seq<(int, ListenerKind)>,
                     family: int -> int, adoptable: int -> bool)
    requires k < |fds|
    requires var rest := AdoptAll(fds[k..], family, adoptable);
             AdoptAll(fds, family, adoptable) == Adopted(listeners + rest.listeners, rest.failed)
    ensures var listener := FromRawFd(family(fds[k]), adoptable(fds[k]));
            var rest := AdoptAll(fds[k + 1..], family, adoptable);
            && (listener.None? ==> AdoptAll(fds, family, adoptable) == Adopted(listeners, true))
            && (listener.Some? ==>
                  AdoptAll(fds, family, adoptable)
                    == Adopted(listeners + [(fds[k], listener.value)] + rest.listeners, rest.failed))
  {
    assert fds[k..][1..] == fds[k + 1..];
    assert listeners + [] == listeners;
    var listener := FromRawFd(family(fds[k]), adoptable(fds[k]));
    if listener.Some? {
      var rest := AdoptAll(fds[k + 1..], family, adoptable);
      assert listeners + ([(fds[k], listener.value)] + rest.listeners)
          == listeners + [(fds[k], listener.value)] + rest.listeners;
    }
  }

  /** `handle_socket_activation`: the listeners taken (each would get its own
      accept loop), and whether it returned an error. */
  method HandleSocketActivation(listenPid: Option<seq<Byte>>, listenFds: Option<seq<Byte>>, ownPid: nat,
                                family: int -> int, adoptable: int -> bool)
    returns (listeners: seq<(int, ListenerKind)>, failed: bool)
    ensures Adopted(listeners, failed) == AdoptAll(Descriptors(listenPid, listenFds, ownPid), family, adoptable)
  {
    if !ActivationEnabled(listenPid, ownPid) {
      return [], false;
    }
    listeners, failed := AdoptRange(RangeEnd(FdCount(listenFds)), family, adoptable);
  }

  /** The loop `for fd in 3..end` of `handle_socket_activation`. */
  method AdoptRange(end: nat, family: int -> int, adoptable: int -> bool)
    returns (listeners: seq<(int, ListenerKind)>, failed: bool)
    requires end <= U32_MAX
    ensures Adopted(listeners, failed) == AdoptAll(ListenRange(end), family, adoptable)
  {
    listeners, failed := [], false;
    ghost var fds := ListenRange(end);
    ListenRangeValues(end);
    if end <= LISTEN_FDS_START {
      assert fds == [];
      return;
    }
    var fd := LISTEN_FDS_START;
    while fd < end
      invariant LISTEN_FDS_START <= fd <= end && |fds| == end - LISTEN_FDS_START
      invariant var rest := AdoptAll(fds[fd - LISTEN_FDS_START..], family, adoptable);
                AdoptAll(fds, family, adoptable) == Adopted(listeners + rest.listeners, rest.failed)
      decreases end - fd
    {
      var raw := ToRawFd(fd);
      var listener := FromRawFd(family(raw), adoptable(raw));
      ghost var k := fd - LISTEN_FDS_START;
      assert fds[k] == raw;
      AdoptAllStep(fds, k, listeners, family, adoptable);
      if listener.None? {
        failed := true;
        return;
      }
      listeners := listeners + [(raw, listener.value)];
      fd := fd + 1;
    }
    assert fds[end - LISTEN_FDS_START..] == [];
  }
}
