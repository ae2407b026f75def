# dst-ping: the RakNet unconnected ping/pong core

`dst-ping` checks whether a Don't Starve Together server is alive. It sends one
RakNet "unconnected ping" datagram, waits up to 5 seconds for the "unconnected
pong", and prints the server GUID found in the reply.

This project models the byte-level core of that exchange and proves its
properties:

- the two fixed packets: `PING_PACKAGE`, the 33 bytes sent, and `PONG_START`,
  the 9 bytes a reply must begin with;
- receiving the reply into the zero-initialised 17-byte buffer `[0; 17]`;
- the `starts_with` check on that buffer;
- the loop that builds `server_guid` from buffer bytes 9 to 16;
- how the `Ok`/`Err` result of `recv` becomes the outcome and the exit status.

Modules, one per concern:

- `Bytes` (bytes.dfy): the `byte` type (Rust's `u8`) and `StartsWith` (Rust's `<[u8]>::starts_with`).
- `Hex` (hex.dfy): `{:X}` formatting of one byte (`Token`), a hexadecimal parser (`ParseHex`), and the round trip between them.
- `GuidText` (guid_text.dfy): joining tokens with single spaces (`Join`, `Render`), splitting at spaces (`Split`), and reading a GUID string back (`ParseGuid`).
- `Packets` (packets.dfy): the constants `PingPackage` and `PongStart`, written byte for byte as the source has them, with their field layout.
- `Prober` (prober.dfy): the reply handling of `main`.
  - `Recv` fills an array the way `recv` does on POSIX systems.
  - `RenderGuid` is the `server_guid` loop.
  - `Probe` is the whole `match` on the result of `recv`.
  - Each method is proved against the pure specification `Window` and `Classify`. The properties are lemmas about that specification.

The socket is replaced by its result. `Reply` is either `Datagram(payload)`,
the bytes the server sent (of any length), or `RecvError(message)`, a timeout or
another receive error.

The source groups the client alive time as 8 bytes in both packets
(src/main.rs:20 and src/main.rs:28); the model calls this field `AliveTime`.
RakNet's unconnected ping and pong carry an 8-byte time, so the prefix
comparison covers the pong ID and that echoed time.

## Model

| member | source | states |
|---|---|---|
| Bytes.StartsWithAt | src/main.rs:52 | `starts_with` holds exactly when the prefix fits and agrees position by position |
| Hex.Digit | src/main.rs:56-58 | each value below 16 gets an upper-case hex digit, and that digit's value is the value |
| Hex.Token | src/main.rs:56-58 | `{:X}` of a byte is a well-formed token: 1 or 2 upper-case hex digits, one digit exactly when the byte is below 16, starting with '0' exactly when the byte is 0 |
| Hex.TokenRoundTrip | src/main.rs:56-58 | parsing a byte's token as hex gives the byte back |
| Hex.TokenOfParse | src/main.rs:56-58 | every well-formed token is the `{:X}` token of the byte it parses to, so tokens and bytes correspond one to one |
| Hex.TokenInjective | src/main.rs:56-58 | distinct bytes render as distinct tokens |
| GuidText.RenderSnoc | src/main.rs:57-58 | one more loop pass appends a space and the next byte's token to the GUID string |
| GuidText.SplitJoin | src/main.rs:56-59 | splitting a space-joined list of space-free tokens at spaces gives the list back |
| GuidText.JoinSpaces | src/main.rs:56-59 | a join of n space-free tokens holds exactly n - 1 spaces |
| GuidText.ParseTokens | src/main.rs:56-59 | parsing the tokens of a byte run gives the run back |
| GuidText.RenderShape | src/main.rs:56-59 | the GUID string of n bytes splits into the n tokens of those bytes, each well-formed, with n - 1 single spaces, and parses back to the bytes |
| Packets.PingLayout | src/main.rs:18-24 | the ping is 33 bytes: ID 0x01 at 0, the alive time at 1..9, the magic at 9..25, the client ID `00 00 00 77 6F 6C 6B 65` at 25..33 |
| Packets.PongEchoesPing | src/main.rs:18-29 | the pong prefix is 9 bytes, pong ID 0x1C then exactly the ping's bytes 1..9 |
| Packets.PongStartNonZero | src/main.rs:26-29 | the pong prefix is non-zero at offsets 0 and 5 to 8 |
| Prober.Window | src/main.rs:47-50 | the buffer after `recv` holds the datagram's byte at each of the 17 offsets it reaches, and 0 past its end |
| Prober.Recv | src/main.rs:48-50 | `recv` copies min(length, 17) bytes, leaves the rest of the buffer unchanged, and returns the count |
| Prober.RenderGuid | src/main.rs:56-59 | the loop leaves `server_guid` equal to the rendering of buffer bytes 9 to 16 |
| Prober.Probe | src/main.rs:48-73 | zeroed buffer, `recv`, prefix check and GUID give exactly the specified outcome for every reply |
| Prober.AcceptedIff | src/main.rs:50-66 | a datagram is accepted if and only if its own first 9 bytes are `PONG_START`; otherwise the outcome is malformed; the exit status is 0 exactly on acceptance |
| Prober.ShortDatagramRejected | src/main.rs:48-52 | a datagram shorter than 9 bytes is malformed (exit 1), because zero fill can never match the prefix |
| Prober.RecvErrorFails | src/main.rs:69-73 | an `Err` from `recv` ends as a timeout with exit status 1 |
| Prober.TailIgnored | src/main.rs:47-50 | bytes past offset 17 never change the outcome or the GUID |
| Prober.GuidShape | src/main.rs:56-59 | an accepted GUID string is 8 well-formed tokens with 7 single spaces; token i renders buffer byte 9 + i; it parses back to buffer bytes 9 to 16 |
| Prober.ShortReplyZeroFilled | src/main.rs:48-59 | a correctly prefixed reply of 9 to 16 bytes is accepted; GUID bytes it did not carry render as "0" |
| Prober.ExampleReply | src/main.rs:50-59 | a pong with GUID bytes DE AD 00 0A FF 01 23 45 followed by more bytes is accepted, and its GUID string is exactly "DE AD 0 A FF 1 23 45" (those eight tokens, 7 spaces) |

## Left out

- Argument parsing with `clap` (src/main.rs:5-14, 32): a library derive; the address and port do not reach the modelled core.
- Socket bind, connect and read-timeout setup, with their `.expect` panics (src/main.rs:34-40): operating-system I/O; a timeout appears only as `RecvError`.
- `send` of the ping and its `.expect` panic (src/main.rs:43-45): the packet sent is `PingPackage`, and sending is not modelled further.
- `Instant` timing and the latency in milliseconds (src/main.rs:42, 54, 63): wall clock and floating point.
- `println!`/`eprintln!` output and its column formatting (src/main.rs:61-72): the outcome and `ExitStatus` stand for what is printed and for `exit(1)`.
- Prober.Recv: follows POSIX datagram truncation, where a datagram longer than the buffer is cut to the buffer's size and the rest is dropped. On Windows, `recv` of an oversize datagram fails with WSAEMSGSIZE, which Rust reports as `Err`. The model does not capture that platform difference.
- Prober.TailIgnored: holds under the same POSIX truncation. On Windows, a reply longer than 17 bytes would take the `Err` branch (src/main.rs:69-73) instead.
