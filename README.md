# Packet capture simulator: verified model of its core

The application is a browser-side simulator of a packet sniffer. A timer generates
synthetic packets while capture is on. The list keeps the most recent 1000 of them, and a
hex viewer decodes the payload of the selected packet into rows of offset, hexadecimal
digits, ASCII and binary. This project models three parts of it in Dafny and proves what
each promises.

- `radix.dfy` (module `Radix`) models the JavaScript primitives the core relies on:
  - `toString(radix)` on non-negative integers as `ToRadix`;
  - `parseInt(s, radix)` on digit strings as `ValueOf`;
  - `padStart` as `PadStart`.
- `types.dfy` (module `Types`) holds the `Protocol` enumeration and the `Packet` record.
- `packet_generator.dfy` (module `PacketGenerator`) models the synthetic traffic source:
  - every `Math.random()` call is a pre-drawn real roll in [0, 1), and `Date.now()` is a
    parameter;
  - `PacketFor` is the packet one call produces;
  - the module-level counter is the class `Generator`, whose method `Generate` advances it.
- `hex_viewer.dfy` (module `HexViewer`) models the `rows` decoder:
  - the method `ComputeRows` has the source's loop, stepping 32 digits per pass;
  - it is proved equal to the function `Rows`;
  - the lemmas state the row count, the offsets, the chunking, and the ASCII and binary
    columns.
- `app.dfy` (module `App`) models the capture session:
  - the setter-updater run on each timer firing is `AppendBounded`;
  - the component state is the class `CaptureSession`;
  - each handler is a method, and each effect runs right after the state change that
    triggers it;
  - the invariant `Valid()` ties the visible list to the window of all packets appended
    since the last clear.

## Model

| member | source | states |
|---|---|---|
| Radix.ToRadixDigits | components/HexViewer.tsx:14 | `toString(radix)` writes only lower-case digits of that radix, and writes a leading '0' only for the number 0 |
| Radix.ValueOfToRadix | components/HexViewer.tsx:14 | reading back what `toString(radix)` wrote gives the number again |
| Radix.ToRadixInjective | components/HexViewer.tsx:14 | two numbers with the same `toString(radix)` text are equal |
| Radix.ToRadixLength | components/HexViewer.tsx:21 | a number below radix^k has at most k digits |
| Radix.ValueOfBound | components/HexViewer.tsx:17 | a digit string of length k reads as a number below radix^k |
| Radix.ValueOfLeadingZeros | components/HexViewer.tsx:14 | leading zeros such as `padStart(w, '0')` adds do not change the value read |
| Radix.PaddedValue | components/HexViewer.tsx:14 | `n.toString(radix).padStart(w, '0')` reads back as n for every width |
| Radix.PaddedDigitChars | components/HexViewer.tsx:14 | the padded text uses lower-case digits only |
| Radix.PaddedLength | components/HexViewer.tsx:21 | the padded text has exactly w characters when n is below radix^w |
| Radix.PadStart | components/HexViewer.tsx:14 | padding never shortens; it keeps the text as a suffix and fills only on the left, up to the width |
| PacketGenerator.RandomInt | utils/packetGenerator.ts:5 | `getRandomInt(min, max)` is always in [min, max] |
| PacketGenerator.RandomIntCoversRange | utils/packetGenerator.ts:5 | every integer of [min, max] is produced by some roll |
| PacketGenerator.GenerateIpShape | utils/packetGenerator.ts:7-11 | the private address is 192.168.1.h when the roll is above 0.5, else 10.x.0.h, with x in [0, 255] and h in [1, 254] |
| PacketGenerator.GeneratePublicIpShape | utils/packetGenerator.ts:13-15 | the public address is a.b.c.d with a in [1, 200], b and c in [0, 255], d in [1, 254] |
| PacketGenerator.PayloadOfDigits | utils/packetGenerator.ts:17-24 | the payload for n bytes has 2n characters, each an upper-case hexadecimal digit |
| PacketGenerator.GeneratePayload | utils/packetGenerator.ts:17-24 | the appending loop builds exactly the payload `PayloadOf` describes |
| PacketGenerator.ProtocolBands | utils/packetGenerator.ts:30-47 | each protocol is chosen exactly by its band of the roll: HTTP below 0.3, TLS to 0.5, UDP to 0.7, ICMP to 0.8, TCP above; the port set with it is the protocol's own port |
| PacketGenerator.PacketForWellFormed | utils/packetGenerator.ts:26-69 | a generated packet has both ports in [0, 65535] and length in [40, 1500]; its payload has exactly 2·min(length, 256) hexadecimal digits, so it is even and at most 512 |
| PacketGenerator.PacketForAddresses | utils/packetGenerator.ts:58-68 | both addresses are dotted quads of octets; the private-pool address is the destination for incoming traffic and the source otherwise, and the public-pool address is on the other side |
| PacketGenerator.PacketForDirection | utils/packetGenerator.ts:28-54 | incoming traffic, with the roll above 0.4, swaps the ports and puts the public address at the source; otherwise the server port and the public address are on the destination side; the client port is the drawn value in [1024, 65535], on the side opposite the server port |
| PacketGenerator.Generator.constructor | utils/packetGenerator.ts:3 | the counter starts at 0, so the first packet gets id 1 |
| PacketGenerator.Generator.Generate | utils/packetGenerator.ts:26-69 | the counter is incremented first and the packet built with the new value as its id |
| HexViewer.Pairs | components/HexViewer.tsx:16 | the matches of `/.{1,2}/g`: ceil(n/2) pieces of one or two characters |
| HexViewer.PairsAt | components/HexViewer.tsx:16 | byte j of a chunk is its digits 2j and 2j+1, or only 2j for a final odd digit |
| HexViewer.ConcatPairs | components/HexViewer.tsx:16 | joining the bytes back gives the chunk |
| HexViewer.ComputeRows | components/HexViewer.tsx:9-26 | the loop pushes exactly the rows `Rows` describes |
| HexViewer.RowsLength | components/HexViewer.tsx:11 | a payload of n digits has ceil(n/32) rows |
| HexViewer.RowCountIsCeiling | components/HexViewer.tsx:11 | ceil(n/32) rows hold every digit, and one fewer would not |
| HexViewer.RowFields | components/HexViewer.tsx:12-23 | row k holds the digits from 32k up to 32k+32, clamped to the payload; it has 1 to 32 of them; its offset and columns are those of that chunk |
| HexViewer.RowsCoverPayload | components/HexViewer.tsx:11-15 | the rows' digit chunks, concatenated in order, give back the payload; every chunk except the last has 32 digits, and the last has 1 to 32 |
| HexViewer.ChunkingCovers | components/HexViewer.tsx:11-15 | any list of consecutive 32-digit slices as long as the row count concatenates to the payload |
| HexViewer.RowByte | components/HexViewer.tsx:12-16 | byte j of row k is digits 32k+2j and 32k+2j+1 of the payload |
| HexViewer.RowOffset | components/HexViewer.tsx:14 | row k's offset is lower-case hexadecimal and reads back as the byte offset 16k; it has 8 characters while 16k fits |
| HexViewer.OffsetTextFacts | components/HexViewer.tsx:14 | the offset text of digit i reads back as i/2 |
| HexViewer.FirstOffsets | components/HexViewer.tsx:14 | the first two rows have offsets "00000000" and "00000010" |
| HexViewer.SeventeenBytes | components/HexViewer.tsx:11-15 | a 17-byte payload gives two rows; the second holds the last byte at offset "00000010" |
| HexViewer.AsciiColumnAt | components/HexViewer.tsx:16-19 | one ASCII character per byte: the character itself for byte values 32 to 126, '.' otherwise |
| HexViewer.AsciiOfAt | components/HexViewer.tsx:16-19 | the mapped character of byte j is computed from byte j alone |
| HexViewer.ZeroByteExample | components/HexViewer.tsx:16-22 | byte "00" shows as '.' and "00000000" |
| HexViewer.LetterByteExample | components/HexViewer.tsx:16-22 | byte "41" shows as 'A' and "01000001" |
| HexViewer.BinaryByteRoundTrip | components/HexViewer.tsx:21 | a byte's binary group is eight '0'/'1' characters whose binary value is the byte's value |
| HexViewer.BinaryColumnAt | components/HexViewer.tsx:20-22 | the binary column for n bytes has 9n−1 characters: group j at 9j has byte j's value, and a single space follows every group but the last |
| HexViewer.GroupsLayout | components/HexViewer.tsx:22 | eight-character groups joined by single spaces put group j at 9j and a space at 9j+8 |
| HexViewer.JoinLayout | components/HexViewer.tsx:22 | `join(sep)` of equal-length parts puts part j at j·(L+1) with the separator right after |
| HexViewer.SpacedHexRoundTrip | components/HexViewer.tsx:39 | removing the spaces from the displayed digits gives the row's digits back |
| HexViewer.SpacedHexLayout | components/HexViewer.tsx:39 | an even-length chunk of 2n digits displays as n pairs in order with single spaces, 3n−1 characters |
| HexViewer.RemoveSpacesJoin | components/HexViewer.tsx:39 | removing the separators of a space-joined list of digit strings gives their concatenation |
| HexViewer.NoPayloadIffNoRows | components/HexViewer.tsx:46-48 | the "no payload" notice shows exactly when there are no rows |
| App.AppendBounded | App.tsx:45-51 | after a tick the list is the last min(len+1, 1000) packets of the old list plus the new one, so there are at most 1000, in order, with the new packet last |
| App.AppendBoundedCases | App.tsx:45-51 | below 1000 nothing is dropped; at 1000 exactly the oldest packet is dropped |
| App.WindowStep | App.tsx:45-51 | one updater step on the window of all packets appended gives the window of all packets appended including the new one |
| App.ReplayIsWindow | App.tsx:45-51 | after any run of ticks from an empty list, the list holds exactly the most recent min(total, 1000) packets appended, in order |
| App.ConsecutiveSnoc | utils/packetGenerator.ts:27 | appending the next generated packet keeps ids consecutive |
| App.LastKeepsIds | App.tsx:45-51 | the window of consecutive ids is consecutive and ends at the same id |
| App.AppendKeepsWindow | App.tsx:43-51 | a timer firing keeps the session invariant: window, consecutive ids up to the counter, well-formed packets |
| App.ListedPayloadsDecode | App.tsx:45-51 | every listed packet carries an even-length hexadecimal payload, which is the input the hex viewer decodes |
| App.CaptureSession.constructor | App.tsx:20-25 | the session starts empty: not capturing, no selection, empty analysis, auto-scroll on, no timer |
| App.CaptureSession.ListAutoScroll | App.tsx:171 | the list follows new packets only while capture runs and auto-scroll is on: never while paused, never after the user turned auto-scroll off, always otherwise |
| App.CaptureSession.Tick | App.tsx:39-56 | without a running timer nothing happens and no packet is generated; with one, a packet is generated and appended through the updater; the selection and all other state stay unchanged, even when the selected packet is evicted |
| App.CaptureSession.Toggle | App.tsx:39-74 | capture flips; the previous timer is cleared and a new one started only when capture is now on, so at most one runs; nothing else changes |
| App.CaptureSession.Clear | App.tsx:70-78 | the list and the selection become empty; the analysis is reset when there was a selection; capture and auto-scroll are unchanged |
| App.CaptureSession.Select | App.tsx:167-171 | the packet becomes selected and auto-scroll goes off, so the list no longer auto-scrolls; a changed selection resets the analysis, through the effect at App.tsx:70-72; nothing else changes |
| App.CaptureSession.ResumeAutoScroll | App.tsx:171-175 | auto-scroll is on, so the list auto-scrolls exactly while capturing; nothing else changes |
| App.CaptureSession.StartAnalysis | App.tsx:59-62 | with no selection nothing happens; otherwise the analysis is pending and shows the pending text |
| App.CaptureSession.FinishAnalysis | App.tsx:64-66 | the service's answer is shown and the pending flag cleared, whatever is selected by then |

## Left out

- The JSX layout, the PWA install prompt, the JSON export, the service worker and the
  packet list's rendering, scrolling and colour classes. These are DOM and browser work
  with no logic.
- The generative-AI analysis service. `FinishAnalysis` takes its answer as an opaque
  string, and the network call itself is not modelled.
- `Math.random()` and `Date.now()` are inputs: the `Draws` record of rolls, and `now`.
  - The record names each roll by its use, not by the order the source draws them.
  - The floating-point arithmetic of `Math.random() * w` is modelled on exact reals.
- The 300 ms period of the timer is left out: one firing is one `Tick`.
- The buffer-usage percentage is left out. It is display-only floating-point rounding.
- The decoder's precondition is that the payload is hexadecimal digits, of any length. On
  other text `parseInt` reads only a leading run of digits, after any leading whitespace, or
  yields NaN when no digit leads; that reading is not modelled. The generator never produces
  such text (`PacketForWellFormed`, `ListedPayloadsDecode`).
- App.CaptureSession.Select: the selection-change effect compares by value. React compares
  object identity, which differs only if the same packet value is selected as a different
  object; the generator never produces two equal packets, since ids differ.
- The selection holds a packet value, not an id, and evicting a packet from the window does
  not clear the selection.
- HexViewer.SpacedHexLayout: it states the display layout only for even-length chunks.
  `SpacedHexRoundTrip` covers every chunk.
- The timer does not stop at the window bound: capture can run indefinitely, and the
  window keeps moving.
