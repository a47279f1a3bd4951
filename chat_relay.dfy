/**
 * The chat relay's event loop with the system calls taken out: a registry of
 * handles (`master`), its high-water mark (`max_socket`), the listener and a
 * 10-slot table of peer addresses; one pass over the handles `select`
 * reported ready accepts, closes, or relays `payload ++ senderAddress` to
 * every other registered peer, in ascending handle order.
 *
 * `select`, `accept`, `recv` and `send` are inputs and outputs: a pass takes
 * the ready set and what `accept`/`recv` returned for each ready handle, and
 * yields the sequence of `send` calls it makes.
 */
module ChatRelay {
  import opened Bytes

  /** `char *client_addresses[10]`, each slot `malloc(100)`. */
  const ADDRESS_SLOTS: nat := 10
  const ADDRESS_LEN: nat := 100
  /** `char read[1024]` and `char mensaje[2048]`. */
  const READ_LEN: nat := 1024
  const MESSAGE_LEN: nat := 2048

  type Socket = nat

  /** The exit status of `main`, once the loop ends. */
  datatype Status = Running | Exit(code: int)

  /** One `send(to, bytes, |bytes|, 0)` call. */
  datatype Send = Send(to: Socket, bytes: seq<byte>)

  /** What `select` reported: a failure, or the ready subset of the snapshot `reads`. */
  datatype SelectResult = SelectFailed | Ready(handles: set<Socket>)

  /** What `accept` or `recv` returned for one ready handle. */
  datatype Input =
    | Accepted(client: Socket, address: seq<byte>)
    | AcceptFailed
    | Received(count: int, data: seq<byte>)

  /** The relay's state, as values. */
  datatype Registry = Registry(master: set<Socket>, maxSocket: Socket, addresses: seq<seq<byte>>)

  function Max(a: int, b: int): int { if a < b then b else a }

  /** A numeric host string as `getnameinfo` leaves it in a 100-byte buffer, without its NUL. */
  predicate IsAddress(a: seq<byte>)
  {
    |a| < ADDRESS_LEN && NoNul(a)
  }

  /**
   * What the loop keeps true: the listener stays registered, `max_socket`
   * bounds every handle, every other handle was accepted into an address slot,
   * and every slot holds an address.
   */
  predicate WellFormed(r: Registry, listener: Socket)
  {
    && |r.addresses| == ADDRESS_SLOTS
    && listener in r.master
    && (forall h :: h in r.master ==> h <= r.maxSocket)
    && (forall h :: h in r.master && h != listener ==> h < ADDRESS_SLOTS)
    && r.maxSocket < Max(listener + 1, ADDRESS_SLOTS)
    && (forall k :: 0 <= k < ADDRESS_SLOTS ==> IsAddress(r.addresses[k]))
  }

  // ---------------------------------------------------------------------
  // The registry events

  /** Before the loop: only the listener, `max_socket` is the listener, ten empty slots. */
  function Initial(listener: Socket): (r: Registry)
  {
    Registry({listener}, listener, seq(ADDRESS_SLOTS, _ => []))
  }

  lemma InitialWellFormed(listener: Socket)
    ensures WellFormed(Initial(listener), listener)
    ensures Initial(listener).master == {listener} && Initial(listener).maxSocket == listener
  {
  }

  /** A new connection: `FD_SET`, raise `max_socket`, `strcpy` the address into its slot. */
  function AcceptRegistry(r: Registry, client: Socket, address: seq<byte>): Registry
    requires client < |r.addresses|
  {
    Registry(r.master + {client}, Max(r.maxSocket, client), r.addresses[client := address])
  }

  /** `recv` returned less than one byte: `FD_CLR`. */
  function CloseRegistry(r: Registry, h: Socket): Registry
  {
    r.(master := r.master - {h})
  }

  /**
   * Accept registers exactly the new handle, keeps every other handle and
   * slot, raises `max_socket` to at least the new handle and never lowers it.
   */
  lemma AcceptEffect(r: Registry, listener: Socket, client: Socket, address: seq<byte>)
    requires WellFormed(r, listener) && client < ADDRESS_SLOTS && IsAddress(address)
    ensures var r' := AcceptRegistry(r, client, address);
      && WellFormed(r', listener)
      && (forall h :: h in r'.master <==> h in r.master || h == client)
      && r'.maxSocket >= r.maxSocket && r'.maxSocket >= client
      && (r'.maxSocket == r.maxSocket || r'.maxSocket == client)
      && r'.addresses[client] == address
      && (forall k :: 0 <= k < ADDRESS_SLOTS && k != client ==> r'.addresses[k] == r.addresses[k])
  {
  }

  /**
   * Close removes exactly that handle; `max_socket` and the address table do
   * not change; closing twice is closing once.
   */
  lemma CloseEffect(r: Registry, listener: Socket, h: Socket)
    requires WellFormed(r, listener) && h != listener
    ensures var r' := CloseRegistry(r, h);
      && WellFormed(r', listener)
      && (forall x :: x in r'.master <==> x in r.master && x != h)
      && r'.maxSocket == r.maxSocket && r'.addresses == r.addresses
      && CloseRegistry(r', h) == r'
  {
  }

  // ---------------------------------------------------------------------
  // The outbound message

  /** `strlen`: the index of the first NUL, or the length when there is none. */
  function CLength(s: seq<byte>): (n: nat)
    ensures n <= |s|
    ensures forall k :: 0 <= k < n ==> s[k] != 0
    ensures n < |s| ==> s[n] == 0
    decreases |s|
  {
    if |s| == 0 || s[0] == 0 then 0 else 1 + CLength(s[1..])
  }

  /** `mensaje` once built: received bytes, the sender's address, then zeros to 2048 bytes. */
  function MessageBuffer(data: seq<byte>, address: seq<byte>): seq<byte>
    requires |data| + |address| < MESSAGE_LEN
  {
    data + address + Zeros(MESSAGE_LEN - |data| - |address|)
  }

  /** The bytes actually sent: `mensaje` up to its first NUL. */
  function Wire(data: seq<byte>, address: seq<byte>): seq<byte>
    requires |data| + |address| < MESSAGE_LEN
  {
    var m := MessageBuffer(data, address);
    m[..CLength(m)]
  }

  /**
   * Without a NUL in the payload, every recipient gets `payload ++ address`
   * with no delimiter; with one, the message stops at the payload's first NUL
   * and the address is lost.
   */
  lemma {:induction false} WireContents(data: seq<byte>, address: seq<byte>)
    requires |data| + |address| < MESSAGE_LEN && NoNul(address)
    ensures NoNul(data) ==> Wire(data, address) == data + address
    ensures !NoNul(data) ==> Wire(data, address) == data[..CLength(data)] && CLength(data) < |data|
  {
    var m := MessageBuffer(data, address);
    if NoNul(data) {
      assert forall k :: 0 <= k < |data| + |address| ==> m[k] != 0;
      assert m[|data| + |address|] == 0;
      assert m[..|data| + |address|] == data + address;
    } else {
      var n := CLength(data);
      assert n < |data|;
      assert m[n] == 0 && forall k :: 0 <= k < n ==> m[k] != 0;
      assert CLength(m) == n;
      assert m[..n] == data[..n];
    }
  }

  // ---------------------------------------------------------------------
  // Fan-out

  /** Whether the fan-out loop writes to `j`: registered, not the listener, not the sender. */
  predicate Receives(master: set<Socket>, listener: Socket, sender: Socket, j: Socket)
  {
    j in master && j != listener && j != sender
  }

  /** The handles the loop `for (j = 1; j < n; ++j)` writes to, in visiting order. */
  function RecipientsBelow(master: set<Socket>, listener: Socket, sender: Socket, n: nat): seq<Socket>
    decreases n
  {
    if n <= 1 then [] else
      var below := RecipientsBelow(master, listener, sender, n - 1);
      if Receives(master, listener, sender, n - 1) then below + [n - 1] else below
  }

  /**
   * The recipients below `n` are exactly the handles in `[1, n)` that are
   * registered and are neither the listener nor the sender, in strictly
   * ascending order.
   */
  lemma {:induction false} RecipientsBelowExactly(master: set<Socket>, listener: Socket, sender: Socket, n: nat)
    ensures var rs := RecipientsBelow(master, listener, sender, n);
      && (forall h :: h in rs <==> 1 <= h < n && Receives(master, listener, sender, h))
      && (forall a, b :: 0 <= a < b < |rs| ==> rs[a] < rs[b])
    decreases n
  {
    if n > 1 {
      RecipientsBelowExactly(master, listener, sender, n - 1);
      var below := RecipientsBelow(master, listener, sender, n - 1);
      var rs := RecipientsBelow(master, listener, sender, n);
      if Receives(master, listener, sender, n - 1) {
        assert rs == below + [n - 1];
        forall a, b | 0 <= a < b < |rs| ensures rs[a] < rs[b] {
          if b == |below| {
            assert rs[a] == below[a] && below[a] in below;
          }
        }
      }
    }
  }

  /** The `send` calls one relay makes, given the live registry. */
  function RelaySends(r: Registry, listener: Socket, sender: Socket, data: seq<byte>): seq<Send>
    requires sender < |r.addresses| && |data| + |r.addresses[sender]| < MESSAGE_LEN
  {
    var rs := RecipientsBelow(r.master, listener, sender, r.maxSocket + 1);
    seq(|rs|, k requires 0 <= k < |rs| => Send(rs[k], Wire(data, r.addresses[sender])))
  }

  /**
   * A message from `sender` reaches every registered peer other than the
   * listener and the sender, and no one else, each exactly once and in
   * ascending handle order, and each copy is the wire form of
   * `payload ++ senderAddress`.
   */
  lemma RelayDelivery(r: Registry, listener: Socket, sender: Socket, data: seq<byte>)
    requires WellFormed(r, listener) && sender in r.master && sender != listener
    requires 1 <= |data| <= READ_LEN
    ensures var sends := RelaySends(r, listener, sender, data);
      && (forall k :: 0 <= k < |sends| ==>
            1 <= sends[k].to && sends[k].to in r.master && sends[k].to != listener && sends[k].to != sender)
      && (forall h :: 1 <= h && h in r.master && h != listener && h != sender ==>
            exists k :: 0 <= k < |sends| && sends[k].to == h)
      && (forall a, b :: 0 <= a < b < |sends| ==> sends[a].to < sends[b].to)
      && (forall k :: 0 <= k < |sends| ==> sends[k].bytes == Wire(data, r.addresses[sender]))
  {
    var sends := RelaySends(r, listener, sender, data);
    var rs := RecipientsBelow(r.master, listener, sender, r.maxSocket + 1);
    RecipientsBelowExactly(r.master, listener, sender, r.maxSocket + 1);
    assert |sends| == |rs| && forall k :: 0 <= k < |sends| ==> sends[k].to == rs[k];
    forall k | 0 <= k < |sends|
      ensures 1 <= sends[k].to && sends[k].to in r.master && sends[k].to != listener && sends[k].to != sender
    {
      assert rs[k] in rs;
    }
    forall h | 1 <= h && h in r.master && h != listener && h != sender
      ensures exists k :: 0 <= k < |sends| && sends[k].to == h
    {
      assert h <= r.maxSocket;
      assert h in rs;
      var k :| 0 <= k < |rs| && rs[k] == h;
      assert sends[k].to == h;
    }
  }

  // ---------------------------------------------------------------------
  // One pass of the event loop

  /** What `accept`/`recv` can return for handle `h`. */
  predicate InputFits(listener: Socket, h: Socket, input: Input)
  {
    if h == listener then
      input.AcceptFailed? || (input.Accepted? && input.client < ADDRESS_SLOTS && IsAddress(input.address))
    else
      input.Received? && input.count <= READ_LEN && (input.count >= 1 ==> |input.data| == input.count)
  }

  predicate InputsFit(listener: Socket, ready: set<Socket>, inputs: map<Socket, Input>)
  {
    forall h :: h in ready ==> h in inputs && InputFits(listener, h, inputs[h])
  }

  /** The measure of the handle loop: `max_socket` stays below `Max(listener + 1, 10)`. */
  function Bound(listener: Socket): nat
  {
    Max(listener + 1, ADDRESS_SLOTS)
  }

  /** The handle loop from `i` on, with `sends` already made; the ready set is the `reads` snapshot's answer. */
  function PassFrom(r: Registry, listener: Socket, ready: set<Socket>, inputs: map<Socket, Input>,
                    i: nat, sends: seq<Send>): (out: (Registry, seq<Send>, Status))
    requires WellFormed(r, listener) && InputsFit(listener, ready, inputs) && 1 <= i
    requires forall h :: h in ready && h >= i ==> h in r.master
    decreases Bound(listener) + 1 - i
  {
    if i > r.maxSocket then (r, sends, Running)
    else if i !in ready then PassFrom(r, listener, ready, inputs, i + 1, sends)
    else if i == listener then
      match inputs[i]
      case AcceptFailed => (r, sends, Exit(1))
      case Accepted(client, address) =>
        AcceptEffect(r, listener, client, address);
        PassFrom(AcceptRegistry(r, client, address), listener, ready, inputs, i + 1, sends)
    else if inputs[i].count < 1 then
      CloseEffect(r, listener, i);
      PassFrom(CloseRegistry(r, i), listener, ready, inputs, i + 1, sends)
    else
      PassFrom(r, listener, ready, inputs, i + 1, sends + RelaySends(r, listener, i, inputs[i].data))
  }

  /** One iteration of `while(1)`: `select` on the snapshot, then the handle loop from 1. */
  function Pass(r: Registry, listener: Socket, selected: SelectResult, inputs: map<Socket, Input>)
    : (out: (Registry, seq<Send>, Status))
    requires WellFormed(r, listener)
    requires selected.Ready? ==> selected.handles <= r.master && InputsFit(listener, selected.handles, inputs)
  {
    match selected
    case SelectFailed => (r, [], Exit(1))
    case Ready(ready) => PassFrom(r, listener, ready, inputs, 1, [])
  }

  /** The handle loop keeps the registry well formed, keeps the listener and never lowers `max_socket`. */
  lemma {:induction false} PassFromRegistry(r: Registry, listener: Socket, ready: set<Socket>,
                                            inputs: map<Socket, Input>, i: nat, sends: seq<Send>)
    requires WellFormed(r, listener) && InputsFit(listener, ready, inputs) && 1 <= i
    requires forall h :: h in ready && h >= i ==> h in r.master
    ensures var out := PassFrom(r, listener, ready, inputs, i, sends);
      WellFormed(out.0, listener) && out.0.maxSocket >= r.maxSocket
    decreases Bound(listener) + 1 - i
  {
    if i > r.maxSocket {
    } else if i !in ready {
      PassFromRegistry(r, listener, ready, inputs, i + 1, sends);
    } else if i == listener {
      match inputs[i]
      case AcceptFailed =>
      case Accepted(client, address) =>
        AcceptEffect(r, listener, client, address);
        PassFromRegistry(AcceptRegistry(r, client, address), listener, ready, inputs, i + 1, sends);
    } else if inputs[i].count < 1 {
      CloseEffect(r, listener, i);
      PassFromRegistry(CloseRegistry(r, i), listener, ready, inputs, i + 1, sends);
    } else {
      PassFromRegistry(r, listener, ready, inputs, i + 1, sends + RelaySends(r, listener, i, inputs[i].data));
    }
  }

  /**
   * The handle loop only appends `send` calls, and none of them goes to the
   * listener or to handle 0.
   */
  lemma {:induction false} PassFromSends(r: Registry, listener: Socket, ready: set<Socket>,
                                         inputs: map<Socket, Input>, i: nat, sends: seq<Send>)
    requires WellFormed(r, listener) && InputsFit(listener, ready, inputs) && 1 <= i
    requires forall h :: h in ready && h >= i ==> h in r.master
    requires forall k :: 0 <= k < |sends| ==> sends[k].to != listener && sends[k].to >= 1
    ensures var out := PassFrom(r, listener, ready, inputs, i, sends);
      && |out.1| >= |sends| && out.1[..|sends|] == sends
      && (forall k :: 0 <= k < |out.1| ==> out.1[k].to != listener && out.1[k].to >= 1)
    decreases Bound(listener) + 1 - i
  {
    if i > r.maxSocket {
    } else if i !in ready {
      PassFromSends(r, listener, ready, inputs, i + 1, sends);
    } else if i == listener {
      match inputs[i]
      case AcceptFailed =>
      case Accepted(client, address) =>
        AcceptEffect(r, listener, client, address);
        PassFromSends(AcceptRegistry(r, client, address), listener, ready, inputs, i + 1, sends);
    } else if inputs[i].count < 1 {
      CloseEffect(r, listener, i);
      PassFromSends(CloseRegistry(r, i), listener, ready, inputs, i + 1, sends);
    } else {
      var more := RelaySends(r, listener, i, inputs[i].data);
      RelayDelivery(r, listener, i, inputs[i].data);
      PassFromSends(r, listener, ready, inputs, i + 1, sends + more);
      var out := PassFrom(r, listener, ready, inputs, i + 1, sends + more);
      assert out.1[..|sends|] == (sends + more)[..|sends|];
    }
  }

  /**
   * The handle loop ends the program (status 1) exactly when the listener is
   * visited, was ready, and `accept` failed; otherwise it keeps running.
   */
  lemma {:induction false} PassFromStatus(r: Registry, listener: Socket, ready: set<Socket>,
                                          inputs: map<Socket, Input>, i: nat, sends: seq<Send>)
    requires WellFormed(r, listener) && InputsFit(listener, ready, inputs) && 1 <= i
    requires forall h :: h in ready && h >= i ==> h in r.master
    ensures var out := PassFrom(r, listener, ready, inputs, i, sends);
      && (out.2 == Exit(1) <==> i <= listener && listener in ready && inputs[listener].AcceptFailed?)
      && (out.2 == Running || out.2 == Exit(1))
    decreases Bound(listener) + 1 - i
  {
    if i > r.maxSocket {
      assert listener <= r.maxSocket;
    } else if i !in ready {
      PassFromStatus(r, listener, ready, inputs, i + 1, sends);
    } else if i == listener {
      match inputs[i]
      case AcceptFailed =>
      case Accepted(client, address) =>
        AcceptEffect(r, listener, client, address);
        PassFromStatus(AcceptRegistry(r, client, address), listener, ready, inputs, i + 1, sends);
    } else if inputs[i].count < 1 {
      CloseEffect(r, listener, i);
      PassFromStatus(CloseRegistry(r, i), listener, ready, inputs, i + 1, sends);
    } else {
      PassFromStatus(r, listener, ready, inputs, i + 1, sends + RelaySends(r, listener, i, inputs[i].data));
    }
  }

  /**
   * A handle other than the one `accept` returned in this pass stays
   * registered exactly when it was registered at the start and was not found
   * closed (`recv` < 1) at or after `i`.
   */
  lemma {:induction false} PassFromMembership(r: Registry, listener: Socket, ready: set<Socket>,
                                              inputs: map<Socket, Input>, i: nat, sends: seq<Send>, h: Socket)
    requires WellFormed(r, listener) && InputsFit(listener, ready, inputs) && 1 <= i
    requires forall x :: x in ready && x >= i ==> x in r.master
    requires listener in ready && listener >= i && inputs[listener].Accepted? ==> h != inputs[listener].client
    ensures var out := PassFrom(r, listener, ready, inputs, i, sends);
      out.2 == Running ==>
        (h in out.0.master <==> h in r.master && !(h in ready && h >= i && h != listener && inputs[h].count < 1))
    decreases Bound(listener) + 1 - i
  {
    if i > r.maxSocket {
    } else if i !in ready {
      PassFromMembership(r, listener, ready, inputs, i + 1, sends, h);
    } else if i == listener {
      match inputs[i]
      case AcceptFailed =>
      case Accepted(client, address) =>
        AcceptEffect(r, listener, client, address);
        PassFromMembership(AcceptRegistry(r, client, address), listener, ready, inputs, i + 1, sends, h);
    } else if inputs[i].count < 1 {
      CloseEffect(r, listener, i);
      PassFromMembership(CloseRegistry(r, i), listener, ready, inputs, i + 1, sends, h);
    } else {
      PassFromMembership(r, listener, ready, inputs, i + 1, sends + RelaySends(r, listener, i, inputs[i].data), h);
    }
  }

  /**
   * The handle loop kept going past the listener, the loop's own data
   * written forwards: the registry and the sends made after visiting handles
   * `1 .. k-1` in ascending order. A ready listener registers the accepted
   * handle (a failed `accept` changes nothing here; `PassFromUpto` says where
   * the loop stops), a closed peer is dropped, and a peer with data appends
   * the relay of that data as the registry stands at that handle.
   */
  function Upto(r: Registry, listener: Socket, ready: set<Socket>, inputs: map<Socket, Input>, k: nat)
    : (out: (Registry, seq<Send>))
    requires WellFormed(r, listener) && InputsFit(listener, ready, inputs) && 1 <= k
    requires forall h :: h in ready && h >= 1 ==> h in r.master
    ensures WellFormed(out.0, listener)
    ensures forall h :: h in ready && h >= k ==> h in out.0.master
    decreases k
  {
    if k == 1 then (r, [])
    else
      var i := k - 1;
      var prev := Upto(r, listener, ready, inputs, i);
      if i !in ready then prev
      else if i == listener then
        match inputs[i]
        case AcceptFailed => prev
        case Accepted(client, address) =>
          AcceptEffect(prev.0, listener, client, address);
          (AcceptRegistry(prev.0, client, address), prev.1)
      else if inputs[i].count < 1 then
        CloseEffect(prev.0, listener, i);
        (CloseRegistry(prev.0, i), prev.1)
      else
        (prev.0, prev.1 + RelaySends(prev.0, listener, i, inputs[i].data))
  }

  /** Handles that are not ready change nothing. */
  lemma {:induction false} UptoIdle(r: Registry, listener: Socket, ready: set<Socket>, inputs: map<Socket, Input>,
                                    i: nat, n: nat)
    requires WellFormed(r, listener) && InputsFit(listener, ready, inputs) && 1 <= i <= n
    requires forall h :: h in ready && h >= 1 ==> h in r.master
    requires forall h :: h in ready && i <= h < n ==> false
    ensures Upto(r, listener, ready, inputs, n) == Upto(r, listener, ready, inputs, i)
    decreases n
  {
    if n > i {
      UptoIdle(r, listener, ready, inputs, i, n - 1);
      assert n - 1 !in ready;
    }
  }

  /**
   * The handle loop run from any point of `Upto` ends in `Upto` at the
   * listener's successor when `accept` fails and at `Bound(listener)`
   * otherwise: its sends are the relays of the ready peers with data, in
   * ascending handle order, each against the registry as it stands when that
   * handle is visited.
   */
  lemma {:induction false} PassFromUpto(r0: Registry, listener: Socket, ready: set<Socket>, inputs: map<Socket, Input>,
                                        i: nat, r: Registry, sends: seq<Send>)
    requires WellFormed(r0, listener) && InputsFit(listener, ready, inputs) && 1 <= i <= Bound(listener)
    requires forall h :: h in ready && h >= 1 ==> h in r0.master
    requires r == Upto(r0, listener, ready, inputs, i).0 && sends == Upto(r0, listener, ready, inputs, i).1
    ensures var out := PassFrom(r, listener, ready, inputs, i, sends);
      var stop := if out.2 == Exit(1) then listener + 1 else Bound(listener);
      (out.0, out.1) == Upto(r0, listener, ready, inputs, stop)
    decreases Bound(listener) + 1 - i
  {
    if i > r.maxSocket {
      UptoIdle(r0, listener, ready, inputs, i, Bound(listener));
    } else if i !in ready {
      assert Upto(r0, listener, ready, inputs, i + 1) == (r, sends);
      assert PassFrom(r, listener, ready, inputs, i, sends) == PassFrom(r, listener, ready, inputs, i + 1, sends);
      PassFromUpto(r0, listener, ready, inputs, i + 1, r, sends);
    } else if i == listener {
      match inputs[i]
      case AcceptFailed =>
        assert Upto(r0, listener, ready, inputs, i + 1) == (r, sends);
      case Accepted(client, address) =>
        AcceptEffect(r, listener, client, address);
        assert Upto(r0, listener, ready, inputs, i + 1) == (AcceptRegistry(r, client, address), sends);
        assert PassFrom(r, listener, ready, inputs, i, sends)
            == PassFrom(AcceptRegistry(r, client, address), listener, ready, inputs, i + 1, sends);
        PassFromUpto(r0, listener, ready, inputs, i + 1, AcceptRegistry(r, client, address), sends);
    } else if inputs[i].count < 1 {
      CloseEffect(r, listener, i);
      assert Upto(r0, listener, ready, inputs, i + 1) == (CloseRegistry(r, i), sends);
      assert PassFrom(r, listener, ready, inputs, i, sends)
          == PassFrom(CloseRegistry(r, i), listener, ready, inputs, i + 1, sends);
      PassFromUpto(r0, listener, ready, inputs, i + 1, CloseRegistry(r, i), sends);
    } else {
      var more := RelaySends(r, listener, i, inputs[i].data);
      assert Upto(r0, listener, ready, inputs, i + 1) == (r, sends + more);
      assert PassFrom(r, listener, ready, inputs, i, sends) == PassFrom(r, listener, ready, inputs, i + 1, sends + more);
      PassFromUpto(r0, listener, ready, inputs, i + 1, r, sends + more);
    }
  }

  /**
   * A peer found closed at handle `c` (and not handed out again by this
   * pass's `accept`) stays out of the registry from then on.
   */
  lemma {:induction false} ClosedStaysOut(r: Registry, listener: Socket, ready: set<Socket>,
                                          inputs: map<Socket, Input>, c: Socket, k: nat)
    requires WellFormed(r, listener) && InputsFit(listener, ready, inputs)
    requires forall h :: h in ready && h >= 1 ==> h in r.master
    requires 1 <= c < k && c in ready && c != listener && inputs[c].count < 1
    requires listener in ready && inputs[listener].Accepted? ==> inputs[listener].client != c
    ensures c !in Upto(r, listener, ready, inputs, k).0.master
    decreases k
  {
    if k > c + 1 {
      ClosedStaysOut(r, listener, ready, inputs, c, k - 1);
    }
  }

  /**
   * None of the sends made after a closed peer `c` was visited goes to it;
   * the sends made before it are kept as they were.
   */
  lemma {:induction false} ClosedGetsNothing(r: Registry, listener: Socket, ready: set<Socket>,
                                             inputs: map<Socket, Input>, c: Socket, k: nat)
    requires WellFormed(r, listener) && InputsFit(listener, ready, inputs)
    requires forall h :: h in ready && h >= 1 ==> h in r.master
    requires 1 <= c < k && c in ready && c != listener && inputs[c].count < 1
    requires listener in ready && inputs[listener].Accepted? ==> inputs[listener].client != c
    ensures var before := Upto(r, listener, ready, inputs, c + 1).1;
      var after := Upto(r, listener, ready, inputs, k).1;
      && |before| <= |after| && after[..|before|] == before
      && (forall j :: |before| <= j < |after| ==> after[j].to != c)
    decreases k
  {
    if k > c + 1 {
      ClosedGetsNothing(r, listener, ready, inputs, c, k - 1);
      var i := k - 1;
      var prev := Upto(r, listener, ready, inputs, i);
      var before := Upto(r, listener, ready, inputs, c + 1).1;
      if i in ready && i != listener && inputs[i].count >= 1 {
        ClosedStaysOut(r, listener, ready, inputs, c, i);
        var more := RelaySends(prev.0, listener, i, inputs[i].data);
        RelayDelivery(prev.0, listener, i, inputs[i].data);
        var after := Upto(r, listener, ready, inputs, k).1;
        assert after == prev.1 + more;
        assert after[..|before|] == prev.1[..|before|];
      }
    }
  }

  /**
   * The registry's `max_socket` and address table after the handle loop:
   * only an `accept` at the listener changes them, storing the address in the
   * accepted handle's slot and raising `max_socket` to that handle.
   */
  lemma {:induction false} PassFromTable(r: Registry, listener: Socket, ready: set<Socket>,
                                         inputs: map<Socket, Input>, i: nat, sends: seq<Send>)
    requires WellFormed(r, listener) && InputsFit(listener, ready, inputs) && 1 <= i
    requires forall h :: h in ready && h >= i ==> h in r.master
    ensures var out := PassFrom(r, listener, ready, inputs, i, sends);
      if i <= listener && listener in ready && inputs[listener].Accepted? then
        && out.0.addresses == r.addresses[inputs[listener].client := inputs[listener].address]
        && out.0.maxSocket == Max(r.maxSocket, inputs[listener].client)
      else
        out.0.addresses == r.addresses && out.0.maxSocket == r.maxSocket
    decreases Bound(listener) + 1 - i
  {
    if i > r.maxSocket {
      assert listener <= r.maxSocket;
    } else if i !in ready {
      PassFromTable(r, listener, ready, inputs, i + 1, sends);
    } else if i == listener {
      match inputs[i]
      case AcceptFailed =>
      case Accepted(client, address) =>
        AcceptEffect(r, listener, client, address);
        PassFromTable(AcceptRegistry(r, client, address), listener, ready, inputs, i + 1, sends);
    } else if inputs[i].count < 1 {
      CloseEffect(r, listener, i);
      PassFromTable(CloseRegistry(r, i), listener, ready, inputs, i + 1, sends);
    } else {
      PassFromTable(r, listener, ready, inputs, i + 1, sends + RelaySends(r, listener, i, inputs[i].data));
    }
  }

  /**
   * A whole iteration: a `select` failure ends the program with status 1
   * and changes nothing; otherwise the pass keeps the registry well formed,
   * never writes to the listener or to handle 0, closes exactly the ready
   * peers from handle 1 up whose `recv` returned less than one byte, and ends
   * the program with status 1 exactly when the listener (if not handle 0,
   * which the loop never visits) was ready and `accept` failed.
   */
  lemma PassProperties(r: Registry, listener: Socket, selected: SelectResult, inputs: map<Socket, Input>)
    requires WellFormed(r, listener)
    requires selected.Ready? ==> selected.handles <= r.master && InputsFit(listener, selected.handles, inputs)
    ensures var out := Pass(r, listener, selected, inputs);
      && WellFormed(out.0, listener)
      && out.0.maxSocket >= r.maxSocket
      && (forall k :: 0 <= k < |out.1| ==> out.1[k].to != listener && out.1[k].to >= 1)
      && (selected.SelectFailed? ==> out.0 == r && out.1 == [] && out.2 == Exit(1))
      && (selected.Ready? ==>
            (out.2 == Exit(1) <==> 1 <= listener && listener in selected.handles && inputs[listener].AcceptFailed?))
      && (selected.Ready? && out.2 == Running ==>
            forall h :: (listener in selected.handles && inputs[listener].Accepted? ==> h != inputs[listener].client) ==>
              (h in out.0.master <==>
                 h in r.master && !(1 <= h && h in selected.handles && h != listener && inputs[h].count < 1)))
      && (selected.Ready? ==>
            if 1 <= listener && listener in selected.handles && inputs[listener].Accepted? then
              && out.0.addresses == r.addresses[inputs[listener].client := inputs[listener].address]
              && out.0.maxSocket == Max(r.maxSocket, inputs[listener].client)
            else
              out.0.addresses == r.addresses && out.0.maxSocket == r.maxSocket)
      && (selected.Ready? ==>
            var stop := if out.2 == Exit(1) then listener + 1 else Bound(listener);
            (out.0, out.1) == Upto(r, listener, selected.handles, inputs, stop))
  {
    if selected.Ready? {
      var ready := selected.handles;
      PassFromRegistry(r, listener, ready, inputs, 1, []);
      PassFromSends(r, listener, ready, inputs, 1, []);
      PassFromStatus(r, listener, ready, inputs, 1, []);
      PassFromTable(r, listener, ready, inputs, 1, []);
      PassFromUpto(r, listener, ready, inputs, 1, r, []);
      forall h | listener in ready && inputs[listener].Accepted? ==> h != inputs[listener].client
        ensures var out := PassFrom(r, listener, ready, inputs, 1, []);
          out.2 == Running ==>
            (h in out.0.master <==> h in r.master && !(1 <= h && h in ready && h != listener && inputs[h].count < 1))
      {
        PassFromMembership(r, listener, ready, inputs, 1, [], h);
      }
    }
  }

  /**
   * Over a whole pass that keeps running, a peer found closed at handle `c`
   * (and not handed out again by this pass's `accept`) ends up unregistered,
   * and none of the sends made after `c` was visited goes to it.
   */
  lemma PassSkipsClosed(r: Registry, listener: Socket, ready: set<Socket>, inputs: map<Socket, Input>, c: Socket)
    requires WellFormed(r, listener) && ready <= r.master && InputsFit(listener, ready, inputs)
    requires 1 <= c && c in ready && c != listener && inputs[c].count < 1
    requires listener in ready && inputs[listener].Accepted? ==> inputs[listener].client != c
    ensures var out := Pass(r, listener, Ready(ready), inputs);
      var before := Upto(r, listener, ready, inputs, c + 1).1;
      out.2 == Running ==>
        && c !in out.0.master
        && |before| <= |out.1| && out.1[..|before|] == before
        && (forall j :: |before| <= j < |out.1| ==> out.1[j].to != c)
  {
    PassFromUpto(r, listener, ready, inputs, 1, r, []);
    PassFromStatus(r, listener, ready, inputs, 1, []);
    assert c <= r.maxSocket < Bound(listener);
    ClosedStaysOut(r, listener, ready, inputs, c, Bound(listener));
    ClosedGetsNothing(r, listener, ready, inputs, c, Bound(listener));
  }

  // ---------------------------------------------------------------------
  // The relay as the source runs it

  /** `strlen(buf)` for a buffer that holds a NUL. */
  method StrLen(buf: array<byte>) returns (n: nat)
    requires exists k :: 0 <= k < buf.Length && buf[k] == 0
    ensures n < buf.Length && n == CLength(buf[..])
  {
    n := 0;
    while buf[n] != 0
      invariant n < buf.Length
      invariant forall t :: 0 <= t < n ==> buf[t] != 0
      decreases buf.Length - n
    {
      n := n + 1;
    }
    var m := CLength(buf[..]);
    assert !(m < n) && !(n < m);
  }

  /**
   * `mensaje`: 2048 bytes zeroed one by one, the received bytes copied in,
   * then the sender's address with its NUL (`strcpy(mensaje + n, address)`).
   */
  method BuildMessage(data: seq<byte>, address: seq<byte>) returns (mensaje: array<byte>)
    requires |data| + |address| < MESSAGE_LEN
    ensures fresh(mensaje) && mensaje[..] == MessageBuffer(data, address)
  {
    mensaje := new byte[MESSAGE_LEN];
    for r := 0 to MESSAGE_LEN
      invariant forall t :: 0 <= t < r ==> mensaje[t] == 0
    {
      mensaje[r] := 0;
    }
    for k := 0 to |data|
      invariant forall t :: 0 <= t < k ==> mensaje[t] == data[t]
      invariant forall t :: k <= t < MESSAGE_LEN ==> mensaje[t] == 0
    {
      mensaje[k] := data[k];
    }
    for k := 0 to |address|
      invariant forall t :: 0 <= t < |data| ==> mensaje[t] == data[t]
      invariant forall t :: 0 <= t < k ==> mensaje[|data| + t] == address[t]
      invariant forall t :: |data| + k <= t < MESSAGE_LEN ==> mensaje[t] == 0
    {
      mensaje[|data| + k] := address[k];
    }
    mensaje[|data| + |address|] := 0;
    assert forall t :: 0 <= t < MESSAGE_LEN ==> mensaje[t] == MessageBuffer(data, address)[t];
  }

  /**
   * `mensaje[strlen(mensaje) + 1] = '\0'` followed by the `strlen(mensaje)`
   * each `send` passes: the extra NUL lands after the first one, so the
   * length and the bytes before it are those of the built message.
   */
  method TerminateMessage(mensaje: array<byte>) returns (wireLen: nat)
    requires exists k :: 0 <= k < mensaje.Length - 1 && mensaje[k] == 0
    modifies mensaje
    ensures wireLen == CLength(old(mensaje[..]))
    ensures mensaje[..] == old(mensaje[..])[CLength(old(mensaje[..])) + 1 := 0]
    ensures mensaje[..wireLen] == old(mensaje[..])[..wireLen]
  {
    ghost var before := mensaje[..];
    var len := StrLen(mensaje);
    assert len < mensaje.Length - 1;
    mensaje[len + 1] := 0;
    assert mensaje[len] == 0;
    wireLen := StrLen(mensaje);
    assert mensaje[..len] == before[..len];
  }

  class ChatServer {
    /** `socket_listen`. */
    const listener: Socket
    /** `fd_set master`. */
    var master: set<Socket>
    /** `SOCKET max_socket`. */
    var maxSocket: Socket
    /** `char *client_addresses[10]`. */
    const clientAddresses: array<seq<byte>>

    function Model(): Registry
      reads this, clientAddresses
    {
      Registry(master, maxSocket, clientAddresses[..])
    }

    ghost predicate Valid()
      reads this, clientAddresses
    {
      WellFormed(Model(), listener)
    }

    /** The state before the loop: `FD_ZERO`, `FD_SET(socket_listen)`, ten `malloc(100)` slots. */
    constructor (listener: Socket)
      ensures Valid() && this.listener == listener && fresh(clientAddresses)
      ensures Model() == Initial(listener)
    {
      this.listener := listener;
      master := {listener};
      maxSocket := listener;
      clientAddresses := new seq<byte>[ADDRESS_SLOTS](_ => []);
    }

    /** The listener was ready and `accept` returned `client`, whose numeric host is `address`. */
    method Accept(client: Socket, address: seq<byte>)
      requires Valid() && client < ADDRESS_SLOTS && IsAddress(address)
      modifies this, clientAddresses
      ensures Valid() && Model() == AcceptRegistry(old(Model()), client, address)
    {
      master := master + {client};
      if client > maxSocket {
        maxSocket := client;
      }
      clientAddresses[client] := address;
      assert clientAddresses[..] == old(clientAddresses[..])[client := address];
      AcceptEffect(old(Model()), listener, client, address);
    }

    /** `recv` on `h` returned less than one byte: `FD_CLR` (and `CLOSESOCKET`, an I/O call). */
    method Close(h: Socket)
      requires Valid() && h != listener
      modifies this
      ensures Valid() && Model() == CloseRegistry(old(Model()), h)
    {
      master := master - {h};
      CloseEffect(old(Model()), listener, h);
    }

    /**
     * `recv` on `sender` returned `data`: build `mensaje` and send it to
     * every registered handle from 1 to `max_socket` but the listener and
     * the sender.
     */
    method Relay(sender: Socket, data: seq<byte>) returns (sends: seq<Send>)
      requires Valid() && sender in master && sender != listener
      requires 1 <= |data| <= READ_LEN
      ensures sends == RelaySends(Model(), listener, sender, data)
    {
      var address := clientAddresses[sender];
      var mensaje := BuildMessage(data, address);
      assert mensaje[|data| + |address|] == MessageBuffer(data, address)[|data| + |address|] == 0;
      var wireLen := TerminateMessage(mensaje);
      ghost var wire := Wire(data, address);
      assert mensaje[..wireLen] == wire;

      sends := [];
      for j := 1 to maxSocket + 1
        invariant var below := RecipientsBelow(master, listener, sender, j);
          |sends| == |below| && forall k :: 0 <= k < |sends| ==> sends[k] == Send(below[k], wire)
        invariant mensaje[..wireLen] == wire
      {
        if j in master && j != listener && j != sender {
          sends := sends + [Send(j, mensaje[..wireLen])];
        }
      }
    }

    /**
     * One iteration of `while(1)` given what `select`, `accept` and `recv`
     * returned; returns the `send` calls made and whether `main` returns.
     */
    method Iterate(selected: SelectResult, inputs: map<Socket, Input>) returns (sends: seq<Send>, status: Status)
      requires Valid()
      requires selected.Ready? ==> selected.handles <= master && InputsFit(listener, selected.handles, inputs)
      modifies this, clientAddresses
      ensures Valid()
      ensures (Model(), sends, status) == Pass(old(Model()), listener, selected, inputs)
    {
      if selected.SelectFailed? {
        return [], Exit(1);
      }
      var snapshot := selected.handles;
      sends := [];
      var i := 1;
      while i <= maxSocket
        invariant Valid() && 1 <= i
        invariant forall h :: h in snapshot && h >= i ==> h in master
        invariant PassFrom(Model(), listener, snapshot, inputs, i, sends) == Pass(old(Model()), listener, selected, inputs)
        decreases Bound(listener) + 1 - i
      {
        if i in snapshot {
          if i == listener {
            match inputs[i]
            case AcceptFailed =>
              return sends, Exit(1);
            case Accepted(client, address) =>
              Accept(client, address);
          } else if inputs[i].count < 1 {
            Close(i);
          } else {
            var more := Relay(i, inputs[i].data);
            sends := sends + more;
          }
        }
        i := i + 1;
      }
      status := Running;
    }
  }

  /** ASCII text as bytes. */
  function Ascii(s: string): seq<byte>
  {
    seq(|s|, k requires 0 <= k < |s| => (s[k] as int) % 0x100)
  }

  /** Converting text to bytes commutes with concatenation. */
  lemma AsciiAppend(a: string, b: string)
    ensures Ascii(a + b) == Ascii(a) + Ascii(b)
  {
  }

  /** The registry after clients on handles 4 ("10.0.0.5") and 5 ("10.0.0.9") joined a listener on 3. */
  function TwoClients(): (r: Registry)
    ensures WellFormed(r, 3)
  {
    AcceptEffect(Initial(3), 3, 4, Ascii("10.0.0.5"));
    AcceptEffect(AcceptRegistry(Initial(3), 4, Ascii("10.0.0.5")), 3, 5, Ascii("10.0.0.9"));
    AcceptRegistry(AcceptRegistry(Initial(3), 4, Ascii("10.0.0.5")), 5, Ascii("10.0.0.9"))
  }

  /** Handles 1 to 5 with {3, 4, 5} registered, listener 3, sender 4: only 5 receives. */
  lemma TwoClientRecipients()
    ensures RecipientsBelow({3, 4, 5}, 3, 4, 6) == [5]
  {
    var m: set<Socket> := {3, 4, 5};
    assert RecipientsBelow(m, 3, 4, 4) == [] by {
      assert RecipientsBelow(m, 3, 4, 2) == [];
      assert RecipientsBelow(m, 3, 4, 3) == [];
    }
    assert RecipientsBelow(m, 3, 4, 5) == [];
  }

  /** "hello" from "10.0.0.5" goes out as "hello10.0.0.5". */
  lemma TwoClientWire()
    ensures Wire(Ascii("hello"), Ascii("10.0.0.5")) == Ascii("hello10.0.0.5")
  {
    var data, address := Ascii("hello"), Ascii("10.0.0.5");
    assert NoNul(data) && NoNul(address);
    WireContents(data, address);
    assert "hello" + "10.0.0.5" == "hello10.0.0.5";
    AsciiAppend("hello", "10.0.0.5");
  }

  /** With two clients, "hello" from the first reaches only the second, as "hello10.0.0.5". */
  lemma TwoClientRelay()
    ensures RelaySends(TwoClients(), 3, 4, Ascii("hello")) == [Send(5, Ascii("hello10.0.0.5"))]
  {
    var r := TwoClients();
    assert r.master == {3, 4, 5} && r.maxSocket == 5 && r.addresses[4] == Ascii("10.0.0.5");
    TwoClientRecipients();
    TwoClientWire();
  }

  /**
   * Client A (handle 4, "10.0.0.5") and client B (handle 5, "10.0.0.9")
   * connect to a listener on handle 3; A sends "hello"; B, and only B,
   * receives "hello10.0.0.5".
   */
  method TwoClientScenario() returns (sends: seq<Send>)
    ensures sends == [Send(5, Ascii("hello10.0.0.5"))]
  {
    var server := new ChatServer(3);
    server.Accept(4, Ascii("10.0.0.5"));
    server.Accept(5, Ascii("10.0.0.9"));
    assert server.Model() == TwoClients();
    sends := server.Relay(4, Ascii("hello"));
    TwoClientRelay();
  }
}
