# wol — MAC parsing and Magic Packet construction, in Dafny

`wol` is a small Wake-on-LAN tool written in Rust. It reads a MAC address
written as text (`AA:FF:B0:12:34:56`), builds the 102-byte "Magic Packet"
of AMD's Magic Packet Technology white paper (six `0xFF` bytes followed by
the MAC address sixteen times), and broadcasts it over UDP on IPv4 or IPv6.

This project models the two data transformations of `src/lib.rs` and proves
what they compute:

- `parse_mac` (module `MacParser`, with `Text` and `Hex` beneath it). The
  text is split on `:` the way Rust's `str::split` does it: n separators give
  n + 1 pieces, and empty pieces are kept (`Text.Split`, with its inverse
  `Text.Join`). Each piece goes through `u8::from_str_radix(piece, 16)`
  (`Hex.FromStrRadix16`). The model follows that function's digit loop:
  one leading `+` is allowed, then at least one hex digit in either case,
  with a checked `acc * 16 + digit` at each step. `Hex.ValidToken` and
  `Hex.HexValue` give the same grammar and value declaratively.
  The outcome is `Parsed = Ok(mac) | Err(message) | Abort(token)`:
  - a piece that does not parse is not a returned error. `.expect` panics,
    so the model aborts on the first such piece. Because the pieces are
    all collected before the count is checked, an abort wins over a wrong
    count;
  - six good pieces give `Ok` with their values in order;
  - any other number of good pieces gives `Err("Illegal MAC address length.")`.
- `create_payload` (module `MagicPacket`). `CreatePayload` is a method over
  a 102-element array. It fills the array with `0xFF`, then runs the
  source's nested loops (`x` in 1..17, `y` in 0..6) that write `mac[y]` at
  `x * 6 + y`. Its postcondition ties the result to the closed form
  `Payload(mac)`, which is the sync block followed by `Repeat(mac[..6], 16)`.
  `IsMagicPacketFor` states the white paper's layout block by block, and
  `PayloadIsMagicPacket` proves that a packet has that layout exactly when
  it equals `Payload`.
- Module `Wake` joins the two: any MAC text that `parse_mac` accepts gives
  six bytes, and the payload built from those bytes is the magic packet
  for exactly those bytes.

A bad hex token is not a returned error: `.expect` at src/lib.rs:20 panics,
so the model aborts on that token with `Abort(token)`. `create_payload` has
no length check and indexes `mac[y]` unchecked, so `CreatePayload` requires
at least six bytes and ignores any bytes after the sixth.

## Model

| member | source | states |
|---|---|---|
| Text.Split | src/lib.rs:19 | splitting on ':' gives one piece more than there are separators, and no piece contains the separator |
| Text.JoinSplit | src/lib.rs:19 | splitting loses nothing: joining the pieces with ':' gives the original text back |
| Text.SplitJoin | src/lib.rs:19 | a non-empty list of pieces free of ':' is recovered exactly by joining and splitting again |
| Hex.AccumulateValue | src/lib.rs:20 | the `from_str_radix` digit loop with checked `acc * 16 + d` succeeds exactly when every character is a hex digit and the shifted positional value fits a byte, and then yields that value |
| Hex.FromStrRadixMeaning | src/lib.rs:20 | `u8::from_str_radix(tok, 16)` accepts exactly an optional '+' followed by a non-empty hex run of value at most 0xFF (leading zeros allowed), and yields the run's positional value |
| Hex.FromStrRadixExamples | src/lib.rs:20 | "", "+", "-", "++1", "-1", "0x1" and "100" are rejected; "+0FF" gives 255 and "000aB" gives 0xAB |
| Hex.FormatByteParses | src/lib.rs:20 | every byte written as two upper-case hex digits is read back as that byte |
| MacParser.FirstRejected | src/lib.rs:19-21 | the position of the first token `from_str_radix` rejects: every token before it is accepted, and it is rejected unless it is the end |
| MacParser.CollectBytes | src/lib.rs:19-21 | the `map`/`collect` over the tokens never gives the length error; it gives bytes exactly when no token is rejected, one per token in order, each the parse of its token; otherwise it aborts on the first rejected token |
| MacParser.CollectParsed | src/lib.rs:19-21 | tokens that each parse to the byte at the same position collect to exactly those bytes |
| MacParser.CollectStops | src/lib.rs:19-21 | collecting aborts on the first token that does not parse, whatever follows it |
| MacParser.ParseMac | src/lib.rs:18-27 | `Ok` exactly when there are six tokens and none is rejected, with six bytes that are the tokens' values in order; the length error "Illegal MAC address length." exactly when no token is rejected but there are not six; an abort, on the first rejected token, exactly when some token is rejected |
| MacParser.ParseMacMeaning | src/lib.rs:18-27 | the same three outcomes in terms of the token grammar: byte i is the hex value of token i, and an abort names a token that breaks the grammar while all tokens before it follow it |
| MacParser.ParseFormat | src/lib.rs:18-27 | bytes written as hex pairs joined by ':' parse back to the same bytes when there are six, and meet the length error (never an abort) for any other non-zero count |
| MacParser.ParseDocExample | src/lib.rs:14-17 | "AA:FF:B0:12:34:56" parses to [0xAA, 0xFF, 0xB0, 0x12, 0x34, 0x56] |
| MacParser.ParseAllOnes | src/lib.rs:83-84 | "FF:FF:FF:FF:FF:FF" parses to six 255s |
| MacParser.ParseAllZeros | src/lib.rs:85-86 | "00:00:00:00:00:00" parses to six 0s |
| MacParser.ParseTooFew | src/lib.rs:22-26 | three well-formed groups give the length error |
| MacParser.ParseNotHex | src/lib.rs:20 | "GG:00:00:00:00:00" aborts on "GG" |
| MacParser.ParseAbortBeforeLength | src/lib.rs:19-22 | "GG:00" aborts on "GG" although the count is wrong too: the abort comes before the length check |
| MacParser.ParseEmpty | src/lib.rs:19-20 | the empty text is one empty token, and it aborts |
| MagicPacket.RepeatAt | src/lib.rs:64-68 | byte i of a six-byte block repeated n times is byte i mod 6 of the block |
| MagicPacket.PayloadAt | src/lib.rs:62-69 | the packet is 102 bytes; bytes 0 to 5 are 0xFF and every byte i from 6 on is `mac[i % 6]` |
| MagicPacket.PayloadIgnoresTail | src/lib.rs:64-68 | two MAC sequences that agree on their first six bytes give the same packet |
| MagicPacket.PayloadTestVector | src/lib.rs:95-118 | for MAC 00 01 02 03 04 05 the packet is six 0xFF bytes, then byte i equals i mod 6 |
| MagicPacket.PayloadIsMagicPacket | src/lib.rs:61-70 | a 102-byte sequence has the white paper's layout for a six-byte address exactly when it is the packet built from that address |
| MagicPacket.CreatePayload | src/lib.rs:62-70 | the nested loops leave a 102-byte buffer whose first six bytes are 0xFF and whose byte i from 6 on is `mac[i % 6]`, which is exactly `Payload(mac)`; needs at least six MAC bytes |
| Wake.ParsedMacPayload | src/lib.rs:36-37 | any MAC text `parse_mac` accepts gives six bytes, enough for `create_payload`, and the payload built from them is the magic packet for exactly those bytes |
| Wake.DocExamplePacket | src/lib.rs:34-37 | the packet for "AA:FF:B0:12:34:56" carries AA FF B0 12 34 56 in each of its sixteen blocks |

## Left out

- `send_magic_packet_v4`, `send_magic_packet_v6` and `create_socket` (src/lib.rs:36-59, 73-77): binding a UDP socket, enabling broadcast, connecting to port 0 of 255.255.255.255 (IPv4) or of `ff::2` (IPv6) and sending one datagram are operating-system network I/O. `Ipv6Addr::new` takes eight 16-bit segments, so `Ipv6Addr::new(0xFF, 0x00, …, 0x02)` at src/lib.rs:55 is `00ff:0:0:0:0:0:0:2`, a unicast address rather than the multicast `ff02::1` or `ff00::2` it looks meant to be; every failure there goes through `.expect` or `.unwrap`. Only their first step, building the payload from the parsed MAC, is modelled (`Wake`).
- `test_create_socket` (src/lib.rs:90-93): it depends on the host's network stack.
- src/main.rs: `getopts` option handling, usage text and dispatch to the send functions are console I/O.
- The panic messages ("Not a hex number: …" and the `ParseIntError` kind that `expect` appends): an abort records only the token it happened on, not the message text nor whether the digit loop stopped on an empty text, a bad digit or an overflow.
- `Hex.FromStrRadix16`: follows current releases of the standard library, which accept one leading '+' and reject a lone '+' or '-'. The earliest 1.x releases did not accept the leading '+'; which release the crate is built with is not fixed by the repository.
- `Text.Split` works on `seq<char>` (Unicode scalar values) where Rust splits UTF-8 bytes. Splitting on the one-byte ':' gives the same pieces either way.
- `MagicPacket.CreatePayload`: returns the filled buffer as a sequence. Rust's `[u8; 102]` is a value that is copied out, so there is no aliasing to model; ownership of the input `Vec` is not modelled either.
- `MagicPacket.CreatePayload`: a MAC shorter than six bytes makes the source panic on an index out of range; the model excludes it by a precondition instead of modelling that panic.
