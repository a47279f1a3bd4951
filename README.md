# Raw-socket spoofer and chat relay, modelled in Dafny

This project models the core of two small C networking programs.

- **`raw_socket_gabriel.c`** has two core parts:
  - `checksum`: the RFC 1071 Internet checksum.
  - `create_data_packet`: builds a spoofed TCP/IPv4 datagram. It lays the
    headers, 20 zero option bytes and the payload into a zeroed 4096-byte
    buffer. It then computes the TCP checksum over a pseudo-header plus the
    segment, and the IP checksum over the first `tot_len` bytes.
- **`tcp_server_chat_gabriel.c`** is a `select`-based chat relay. The model
  covers its registry of handles (`master`, `max_socket`, the listener and a
  10-slot table of peer addresses) and the event loop's three events:
  - accept a connection;
  - close a peer whose `recv` returned less than one byte;
  - relay a message to every other registered peer.

The files:

| file | module | contents |
|---|---|---|
| `bytes.dfy` | `Bytes` | bytes, `u16`/`u32`, the memory image of host values, `htons`/`htonl` |
| `checksum.dfy` | `InternetChecksum` | `WordSum`, `Fold`, `ChecksumOf` (the specification), the `Checksum` method (the C loop), and verification of an inserted checksum |
| `packet.dfy` | `Packet` | header records with their encoders and decoders, the `Datagram` specification, the in-place `CreateDataPacket` method, and layout and checksum lemmas |
| `chat_relay.dfy` | `ChatRelay` | the pure `Registry` model with `PassFrom`/`Pass`, the `ChatServer` class with `Accept`, `Close`, `Relay` and `Iterate`, and the lemmas about recipients and passes |

Modelling choices:

- The host is fixed to be little-endian.
  - A 16- or 32-bit struct member is stored least significant byte first.
  - `htons`/`htonl` are explicit byte swaps.
- The 32-bit checksum accumulator's wrap-around is written out as
  `% 2^32`. The complement is truncated to 16 bits, as the `unsigned short`
  return type does.
- `select`, `accept`/`getnameinfo` and `recv` become inputs. `send` becomes
  an output: `Iterate` returns the sequence of `send` calls a pass makes.

Some behaviour of the code is easy to misread, and the model follows the
code:

- An `accept` failure ends the program with status 1. It is not skipped.
- A `select` failure also ends the program with status 1.
- `tot_len` is stored without `htons`, so it sits in host order in the returned buffer.
- `id` is set to `htonl(24606)`, which truncated to 16 bits is 0.
- The IP checksum covers the whole datagram (`tot_len` bytes), not only the
  20-byte header.
- The address table has exactly 10 slots, indexed by the handle number.
- The message loop starts at handle 1, so handle 0 is never visited.
- A message is sent up to its first NUL. A payload containing a NUL
  therefore loses its tail and the sender's address.

## Model

| member | source | states |
|---|---|---|
| Bytes.HostU16RoundTrip | raw_socket_gabriel.c:33 | reading back the two bytes a 16-bit member is stored as gives the value |
| Bytes.HostU32RoundTrip | raw_socket_gabriel.c:78-79 | reading back the four bytes a 32-bit member is stored as gives the value |
| Bytes.HtonsIsNetworkOrder | raw_socket_gabriel.c:94 | a value stored after `htons` lies in memory most significant byte first |
| Bytes.Htons | raw_socket_gabriel.c:94 | `htons` on the little-endian host swaps the two bytes of the value |
| Bytes.Htonl | raw_socket_gabriel.c:84-85 | `htonl` on the little-endian host reverses the four bytes (no contract of its own; `HtonlIsNetworkOrder` states where they land) |
| Bytes.HtonlIsNetworkOrder | raw_socket_gabriel.c:84-85 | a value stored after `htonl` lies in memory most significant byte first |
| InternetChecksum.WordSum | raw_socket_gabriel.c:31-42 | the unwrapped sum of the host-order 16-bit words plus the zero-extended odd last byte (no contract of its own; `WordSumAppend` and `WordSumBound` state its properties) |
| InternetChecksum.Fold | raw_socket_gabriel.c:45 | the end-around-carry fold ends below 2^16, keeps the value modulo 0xFFFF, and gives 0 only for 0 |
| InternetChecksum.FoldStep | raw_socket_gabriel.c:45 | one fold step, taken while `sum >> 16` is non-zero, strictly decreases the sum, keeps it positive and keeps it modulo 0xFFFF |
| InternetChecksum.ChecksumOf | raw_socket_gabriel.c:26-49 | the checksum added to the 32-bit word sum is 0 modulo 0xFFFF (the ones'-complement negative), and it is 0 exactly when that sum is a non-zero multiple of 0xFFFF |
| InternetChecksum.NegatesFold | raw_socket_gabriel.c:45-48 | `0xFFFF - Fold(x)` added to `x` is 0 modulo 0xFFFF, and it is 0 exactly when `x` is a non-zero multiple of 0xFFFF |
| InternetChecksum.FoldOfMultiple | raw_socket_gabriel.c:45 | a positive multiple of 0xFFFF folds to 0xFFFF, the ones'-complement negative zero |
| InternetChecksum.WordSumAppend | raw_socket_gabriel.c:31-35 | splitting the buffer at an even offset splits the word sum |
| InternetChecksum.WordSumBound | raw_socket_gabriel.c:31-35 | each word adds at most 0xFFFF, so `n` bytes sum to at most ceil(n/2) * 0xFFFF |
| InternetChecksum.NoWrap | raw_socket_gabriel.c:28-35 | up to 0x20000 bytes, so for any 4096-byte datagram, the 32-bit accumulator never wraps |
| InternetChecksum.Checksum | raw_socket_gabriel.c:26-49 | the C loop (word accumulation with 32-bit wrap, odd last byte, fold, 16-bit complement) returns `ChecksumOf` of the first `size` bytes |
| InternetChecksum.Accumulate | raw_socket_gabriel.c:28-42 | the accumulation loop and the odd last byte leave the word sum of the first `size` bytes, wrapped to 32 bits |
| InternetChecksum.FoldCarries | raw_socket_gabriel.c:45 | the carry-folding loop returns `Fold` of the accumulator |
| InternetChecksum.Finish | raw_socket_gabriel.c:48 | `~sum` truncated to 16 bits, taken of the folded accumulator, is `ChecksumOf` of the buffer |
| InternetChecksum.AccumulateWords | raw_socket_gabriel.c:28-35 | the word loop stops at `size` or `size - 1` on an even offset, with the accumulator equal to the word sum of the bytes before it wrapped to 32 bits |
| InternetChecksum.AccumulateLast | raw_socket_gabriel.c:38-42 | adding the odd last byte, zero-extended and with the 32-bit wrap, gives the wrapped word sum of the whole buffer |
| InternetChecksum.PrefixStep | raw_socket_gabriel.c:31-35 | each loop step adds the host-order word at the current even offset |
| InternetChecksum.PrefixLast | raw_socket_gabriel.c:38-42 | an odd-sized buffer's last byte is added zero-extended |
| InternetChecksum.Complement | raw_socket_gabriel.c:48 | `~sum` truncated to 16 bits is `0xFFFF - sum` once the sum is folded |
| InternetChecksum.ChecksumFieldVerifies | raw_socket_gabriel.c:109-110 | writing the checksum into a zeroed, word-aligned field makes the checksum of the result 0, so checking the stored sum over the same bytes gives 0 (RFC 1071 section 1) |
| InternetChecksum.SumPlusChecksum | raw_socket_gabriel.c:45-48 | a non-wrapping sum plus its own checksum folds to 0xFFFF |
| Packet.EncodeIp | raw_socket_gabriel.c:67-79 | the memory image of `struct iphdr` is 20 bytes (`IpRoundTrip` states that it decodes back) |
| Packet.EncodeTcp | raw_socket_gabriel.c:81-95 | the memory image of `struct tcphdr` is 20 bytes (`TcpRoundTrip` states that it decodes back) |
| Packet.IpHeaderFor | raw_socket_gabriel.c:67-79 | the IP header members as assigned (no contract of its own; `DatagramHeaders` reads them back from the datagram) |
| Packet.TcpHeaderFor | raw_socket_gabriel.c:81-95 | the TCP header members as assigned (no contract of its own; `DatagramHeaders` reads them back from the datagram) |
| Packet.TcpCheck | raw_socket_gabriel.c:97-109 | the value stored in `tcph->check` makes the checksum of the pseudo-header followed by the segment carrying it 0 |
| Packet.IpCheck | raw_socket_gabriel.c:110 | the value stored in `iph->check` makes the checksum of the IP header carrying it, followed by the finished segment, 0 |
| Packet.TotalLength | raw_socket_gabriel.c:71 | `tot_len`, `20 + 20 + 20 + data_len` (no contract of its own; `DatagramLayout` states it is `60 + data_len` in the buffer) |
| Packet.FlagByte | raw_socket_gabriel.c:86-92 | the TCP flag bits FIN..URG in bits 0-5 of byte 13 (no contract of its own; `FlagsRoundTrip` states it decodes back) |
| Packet.Datagram | raw_socket_gabriel.c:53-115 | the finished buffer is 4096 bytes; `DatagramLayout`, `DatagramHeaders`, `DatagramByteOrder` and the checksum lemmas state its contents |
| Packet.FlagsRoundTrip | raw_socket_gabriel.c:87-92 | the TCP flag byte decodes back to the six flags |
| Packet.IpRoundTrip | raw_socket_gabriel.c:68-79 | the 20-byte memory image of `struct iphdr` decodes back to the header |
| Packet.TcpRoundTrip | raw_socket_gabriel.c:82-95 | the 20-byte memory image of `struct tcphdr` decodes back to the header |
| Packet.PseudoHeader | raw_socket_gabriel.c:98-102 | `struct pseudo_header` is 12 bytes in memory |
| Packet.Segment | raw_socket_gabriel.c:107 | the TCP header, the options and the payload are `40 + data_len` bytes |
| Packet.Image | raw_socket_gabriel.c:56-65 | the 4096-byte buffer holds the IP header at 0, the TCP header at 20, zero options at 40, the payload at 60 and zeros after it |
| Packet.DatagramLayout | raw_socket_gabriel.c:56-71 | the datagram fills the 4096-byte buffer, `tot_len` is `60 + data_len`, the payload sits verbatim at offset 60, and the options and everything after `tot_len` are zero |
| Packet.DatagramHeaders | raw_socket_gabriel.c:68-95 | the headers read back from the datagram carry the assigned values (version 4, ihl 5, ttl 64, protocol TCP, addresses, ports, doff 10, PSH+ACK only, window `htons(5840)`, urg_ptr 0) and the two computed checksums |
| Packet.DatagramByteOrder | raw_socket_gabriel.c:71-73 | in the returned buffer `tot_len` is in host order, `id` is 0, and seq, ack_seq and the window are in network order |
| Packet.DatagramIpByteOrder | raw_socket_gabriel.c:71-73 | in the datagram `tot_len` lies in host order and `id` is 0 |
| Packet.DatagramTcpByteOrder | raw_socket_gabriel.c:84-94 | in the datagram seq, ack_seq and the window lie most significant byte first |
| Packet.IpLengthAndIdBytes | raw_socket_gabriel.c:71-73 | `tot_len` and `id` occupy bytes 2-5 of the IP header's image, each least significant byte first |
| Packet.TcpNumberBytes | raw_socket_gabriel.c:84-94 | seq, ack_seq and the window occupy bytes 4-11 and 14-15 of the TCP header's image |
| Packet.IpIdIsZero | raw_socket_gabriel.c:73 | `htonl(24606)` truncated into the 16-bit `id` member is 0 |
| Packet.PseudoHeaderLength | raw_socket_gabriel.c:100-103 | the pseudo-header carries zero, protocol 6 and `tcp_length = 40 + data_len` in network order, and `psize` is `12 + 40 + data_len` |
| Packet.TcpChecksumVerifies | raw_socket_gabriel.c:97-110 | the checksum of the pseudo-header plus the transmitted segment, with its stored `check`, is 0; the stored `tot_len` reads back as `60 + data_len`, and the pseudo-header rebuilt from the buffer's own addresses, protocol and `tot_len - 20` (with `tot_len` read in the sender's host order) is the sender's, so the TCP check over the buffer passes |
| Packet.ReceivedPseudoHeader | raw_socket_gabriel.c:97-102 | the pseudo-header rebuilt from a buffer's IP header, reading `tot_len` in the sender's host order, is 12 bytes |
| Packet.ReceivedPseudoHeaderMatches | raw_socket_gabriel.c:71-102 | bytes 12-19 of the datagram are the pseudo-header's addresses, byte 9 is protocol 6, `tot_len` reads back as `60 + data_len`, and so the rebuilt pseudo-header equals the sender's |
| Packet.TcpSegmentVerifies | raw_socket_gabriel.c:93-109 | a segment whose check was computed over the zeroed field verifies behind the same pseudo-header |
| Packet.IpChecksumVerifies | raw_socket_gabriel.c:110 | the checksum of the first `tot_len` bytes of the finished datagram is 0 |
| Packet.IpHeaderVerifies | raw_socket_gabriel.c:77-110 | an IP header whose check was computed over the zeroed field verifies together with the bytes after it |
| Packet.DatagramSplit | raw_socket_gabriel.c:59-60 | the datagram cut at offsets 20, 40 and `tot_len` gives the encoded IP header, the encoded TCP header and the segment |
| Packet.ImageParts | raw_socket_gabriel.c:107-110 | the first `tot_len` bytes of the buffer are the IP header followed by the segment |
| Packet.CopyInto | raw_socket_gabriel.c:65 | `memcpy` puts the source bytes at the offset and changes nothing else |
| Packet.LayOut | raw_socket_gabriel.c:56-95 | the zeroed buffer, with the headers and the payload written in, is the specified `Image` |
| Packet.PseudogramChecksum | raw_socket_gabriel.c:103-109 | the checksum of the pseudogram is `ChecksumOf` of the pseudo-header followed by the datagram's segment bytes |
| Packet.StoreTcpCheck | raw_socket_gabriel.c:109 | storing the TCP checksum changes only the TCP header's `check` member |
| Packet.StoreIpCheck | raw_socket_gabriel.c:110 | storing the IP checksum changes only the IP header's `check` member |
| Packet.CreateDataPacket | raw_socket_gabriel.c:53-115 | the returned buffer is a fresh 4096-byte `Datagram` of the inputs and the returned length is `tot_len = 60 + data_len` |
| ChatRelay.WellFormed | tcp_server_chat_gabriel.c:55-105 | the registry invariant: the listener stays registered, `max_socket` bounds every handle, other handles are below 10, every slot holds an address (a predicate; the lemmas below state that each event keeps it) |
| ChatRelay.Initial | tcp_server_chat_gabriel.c:55-66 | the registry before the loop (no contract of its own; `InitialWellFormed` states it) |
| ChatRelay.AcceptRegistry | tcp_server_chat_gabriel.c:93-105 | the registry after an accept (no contract of its own; `AcceptEffect` states its effect) |
| ChatRelay.CloseRegistry | tcp_server_chat_gabriel.c:113-115 | the registry after a peer is found closed (no contract of its own; `CloseEffect` states its effect) |
| ChatRelay.InitialWellFormed | tcp_server_chat_gabriel.c:55-66 | before the loop, only the listener is registered, `max_socket` is the listener, and the registry invariant holds |
| ChatRelay.AcceptEffect | tcp_server_chat_gabriel.c:93-105 | accepting registers exactly the new handle and keeps the invariant; `max_socket` rises to at least the new handle and is never lowered; the address lands in the client's slot and every other slot is kept |
| ChatRelay.CloseEffect | tcp_server_chat_gabriel.c:110-116 | closing removes exactly that handle, keeps the invariant, `max_socket` and the address table, and closing twice equals closing once |
| ChatRelay.CLength | tcp_server_chat_gabriel.c:146 | `strlen(mensaje)`, as called here and at line 134, is the index of the first NUL, or the length when there is none |
| ChatRelay.MessageBuffer | tcp_server_chat_gabriel.c:119-133 | the 2048-byte `mensaje` after zeroing, copying the payload and `strcpy` of the address (no contract of its own; `BuildMessage` produces it) |
| ChatRelay.Wire | tcp_server_chat_gabriel.c:133-146 | the bytes each `send` writes, `strlen(mensaje)` of them (no contract of its own; `WireContents` states them) |
| ChatRelay.WireContents | tcp_server_chat_gabriel.c:129-144 | without a NUL in the payload the bytes sent are `payload ++ address` with no separator; with one they are the payload up to its first NUL |
| ChatRelay.RecipientsBelowExactly | tcp_server_chat_gabriel.c:137-145 | the fan-out loop writes to exactly the handles from 1 up that are registered and are neither the listener nor the sender, in strictly ascending order |
| ChatRelay.Receives | tcp_server_chat_gabriel.c:141-142 | the fan-out test: registered, not the listener, not the sender (a predicate; `RecipientsBelowExactly` states the loop writes to exactly these) |
| ChatRelay.RecipientsBelow | tcp_server_chat_gabriel.c:137-148 | the handles the fan-out loop writes to, in visiting order (no contract of its own; `RecipientsBelowExactly` states them) |
| ChatRelay.RelaySends | tcp_server_chat_gabriel.c:137-148 | the `send` calls of one relay (no contract of its own; `RelayDelivery` states them) |
| ChatRelay.RelayDelivery | tcp_server_chat_gabriel.c:137-148 | a relay reaches every other registered peer and only them (never the listener, the sender or handle 0), each once in ascending order, and every copy has the same wire bytes |
| ChatRelay.PassFrom | tcp_server_chat_gabriel.c:77-151 | the handle loop from handle `i` on (no contract of its own; the `PassFrom` lemmas state it) |
| ChatRelay.Pass | tcp_server_chat_gabriel.c:69-151 | one iteration of `while(1)` (no contract of its own; `PassProperties` states it) |
| ChatRelay.Upto | tcp_server_chat_gabriel.c:77-148 | the registry and the sends after visiting handles 1 up to `k - 1`, written forwards; the registry stays well formed and every ready handle not yet visited stays registered |
| ChatRelay.UptoIdle | tcp_server_chat_gabriel.c:79 | handles that `select` did not report change neither the registry nor the sends |
| ChatRelay.PassFromUpto | tcp_server_chat_gabriel.c:77-151 | the handle loop ends in `Upto` at the listener's successor when `accept` fails and at the end of the handle range otherwise: its sends are the relays of the ready peers with data, in ascending handle order, each against the registry as it stands at that handle |
| ChatRelay.ClosedStaysOut | tcp_server_chat_gabriel.c:93-114 | a peer found closed stays unregistered for the rest of the pass unless this pass's `accept` returns its handle |
| ChatRelay.ClosedGetsNothing | tcp_server_chat_gabriel.c:113-146 | no send made after a closed peer was visited goes to it, and the sends made before are kept |
| ChatRelay.PassFromTable | tcp_server_chat_gabriel.c:93-105 | only an `accept` changes the address table and `max_socket`: the address lands in the accepted handle's slot and `max_socket` becomes the larger of the two |
| ChatRelay.PassFromRegistry | tcp_server_chat_gabriel.c:78-150 | the handle loop keeps the registry invariant and never lowers `max_socket` |
| ChatRelay.PassFromSends | tcp_server_chat_gabriel.c:78-150 | the handle loop only appends `send` calls, and none goes to the listener or to handle 0 |
| ChatRelay.PassFromStatus | tcp_server_chat_gabriel.c:81-91 | the handle loop ends the program with status 1 exactly when it reaches a ready listener whose `accept` failed |
| ChatRelay.PassFromMembership | tcp_server_chat_gabriel.c:78-117 | apart from the handle accepted in the pass, a handle stays registered exactly when it was registered and was not found closed later in the loop |
| ChatRelay.PassProperties | tcp_server_chat_gabriel.c:69-151 | one iteration: a `select` failure changes nothing and exits with status 1; otherwise the invariant holds, nobody writes to the listener, exactly the ready peers (from handle 1) with `recv` < 1 are closed, exit with status 1 happens exactly on a failed `accept`, only an accepted handle's slot and `max_socket` change, and the registry and sends are those of `Upto` (the relays of the ready peers in ascending order, each against the registry at that handle) |
| ChatRelay.PassSkipsClosed | tcp_server_chat_gabriel.c:78-148 | in a pass that keeps running, a peer found closed ends unregistered and receives none of the sends made after it was visited |
| ChatRelay.StrLen | tcp_server_chat_gabriel.c:134 | the scanning loop returns `CLength` of the buffer |
| ChatRelay.BuildMessage | tcp_server_chat_gabriel.c:119-133 | zeroing, copying the received bytes and `strcpy` of the address produce the payload, the address and zeros up to 2048 bytes |
| ChatRelay.TerminateMessage | tcp_server_chat_gabriel.c:134-146 | `mensaje[strlen(mensaje)+1] = 0` writes that one byte and nothing else, so the length `send` uses and the bytes before it stay unchanged |
| ChatRelay.ChatServer.constructor | tcp_server_chat_gabriel.c:55-66 | the server starts in the `Initial` registry with the invariant |
| ChatRelay.ChatServer.Accept | tcp_server_chat_gabriel.c:93-105 | the new state is `AcceptRegistry` of the old one, and the invariant is kept |
| ChatRelay.ChatServer.Close | tcp_server_chat_gabriel.c:113-116 | the new state is `CloseRegistry` of the old one, and the invariant is kept |
| ChatRelay.ChatServer.Relay | tcp_server_chat_gabriel.c:119-148 | the `send` calls made are `RelaySends` of the live registry, whose meaning `RelayDelivery` states |
| ChatRelay.ChatServer.Iterate | tcp_server_chat_gabriel.c:69-151 | the new state, the `send` calls and the exit status are those of `Pass`, whose meaning `PassProperties` and `PassSkipsClosed` state |
| ChatRelay.TwoClientRelay | tcp_server_chat_gabriel.c:93-148 | with clients 4 ("10.0.0.5") and 5 behind listener 3, "hello" from 4 is sent only to 5, as "hello10.0.0.5" |
| ChatRelay.TwoClientScenario | tcp_server_chat_gabriel.c:93-148 | the same exchange driven through the `ChatServer` methods |

## Left out

- `main` of both programs is not modelled. That covers argument parsing, socket creation, `bind`/`listen`, the spoofer's handshake and the sending of the packet. They are system calls and glue.
- `printf`/`fprintf`, `CLOSESOCKET`, `free` and the return value of `send` are I/O or memory management. The source ignores `send`'s result, and partial sends are not modelled.
- The blocking of `select` is not modelled. Its ready set is an input and must be a subset of the registry snapshot taken before the call.
- `while(1)` is modelled one iteration at a time (`Iterate`, `Pass`). There is no statement about unbounded runs beyond the invariant each iteration keeps.
- `FD_SETSIZE` limits of `fd_set` are not modelled.
- InternetChecksum.Checksum: requires `size >= 1`. With `size == 0` the unsigned bound `size - 1` wraps and the C loop reads past the buffer.
- InternetChecksum.Checksum: unaligned 16-bit reads are modelled as reading two bytes.
- Packet.CreateDataPacket: requires `60 + data_len <= 4096`. A larger or negative `data_len` overflows the buffer in C (undefined behaviour).
- Packet.CreateDataPacket: `seq` and `ack_seq` are taken as their 32-bit patterns (`u32`) rather than `int32_t`.
- The host byte order is fixed to little-endian, and the header bitfields to the RFC 791/793 layout of that host. The model also assumes `struct pseudo_header` has no padding (12 bytes).
- The kernel's rewrites of a raw `IP_HDRINCL` datagram are not modelled: on Linux the kernel always fills in `tot_len` and the IP checksum, and fills in `id` when it is zero, as it sends the packet. The model describes the buffer `create_data_packet` returns, not the packet on the network.
- Endpoint addresses and ports are inputs already in network order, as they sit in `sockaddr_in`.
- ChatRelay.ChatServer.Accept: requires the new handle to be below 10. A larger handle indexes `client_addresses` out of bounds in C (undefined behaviour).
- ChatRelay.ChatServer.Accept: requires the address to be under 100 bytes with no NUL, as `getnameinfo` writes it.
- ChatRelay.ChatServer.constructor: the `malloc`'d address slots are indeterminate in C. The model starts them empty, and only slots of accepted handles are ever read.
- ChatRelay.PassSkipsClosed: stated for passes that keep running. In a pass that ends on a failed `accept`, `PassProperties` gives the sends through `Upto` at the listener's successor.
- ChatRelay.PassProperties: says nothing about the membership of the handle `accept` returned in this pass beyond what `AcceptEffect` states. When the operating system reuses a handle closed in the same pass, that handle's final membership depends on visiting order.
- Bytes past `bytes_received` in `read` are never used, so they are not modelled.
