# Two-tier switched network: frames, switches and nodes

This project is a Dafny model of the sequential logic in CSE3053Project3. That project emulates a two-tier switched network over TCP sockets. It has four parts:

- **Nodes** (`Node.java`). A node has id `networkId * 16 + localId`. It sends each line of its message script (`net_local: text`) as a data frame. It uses stop-and-wait with at most three attempts. It answers inbound data frames with a `CRC_ERR` or `OK` acknowledgment and logs the good ones. It also injects link noise into what it transmits: it drops an ack, or flips the low bit of one byte of a data frame.
- **Local switches** (`CASSwitch.java`). A local switch learns which connection each node id arrives on. It forwards frames for its own network directly or by flooding. It relays frames for other networks up to the core switch, or drops them when there is no uplink.
- **The core switch** (`CCSSwitch.java`). It learns network ids (`id / 16`) per uplink and forwards the same way. It screens data frames through a 16x16 block matrix read from rule lines. A blocked frame is replaced by a `FIREWALL` acknowledgment sent back to its source.
- **The frame format** (`Frame.java`). A frame is a 5-byte header `[src, dst, crc, sizeOrAck, ackType]` followed by 0..255 payload bytes. `sizeOrAck == 0` marks an acknowledgment. The "CRC" is the low byte of the sum of all bytes, with byte 2 taken as 0.

Modules:

- `Wrappers`: `Option` and `Result`.
- `Text`: the `java.lang.String` operations the two line formats use:
  - `trim`;
  - `split` at the first separator;
  - `split("\\s+")`;
  - `Integer.parseInt`, and `Integer.toString` to read it back;
  - ASCII `toLowerCase`;
  - UTF-8 encoding;
  - Java `int` wrap-around.
- `Frames`: the codec. `toBytes`, `computeCrc` and `isCrcValid` are methods over `array<byte>`, proved against the functions `Encode`, `Checksum` and `CrcValid`.
- `SwitchTables`: the learn / route / flood pattern that both switch tiers share. It is stated once, as functions, and the lemmas about it live here too.
- `LocalSwitch`: class `CasSwitch`.
- `CoreSwitch`: class `CcsSwitch`. The block matrix is an `array2<bool>` tied by its invariant to the rule lines it was built from.
- `Endpoint`: class `Node`, the message-line parser and the retry specification.
- `EndToEnd`: one hop through a local switch, from the node's noisy link to the bytes the switch writes on.

Sockets, threads and randomness are replaced by explicit inputs:

- A connection (a `ClientHandler` object) is an abstract `ConnId`.
- Each forwarding operation returns the deliveries it writes.
- Each transmission by a node takes a `Noise` value: whether the 5% event fires, and the draw that picks the corrupted index.
- Each attempt of a send takes the frame, if any, that the receive thread hands over during that attempt's wait. `None` is a timeout.

The model stores every frame field as an unsigned byte in 0..255. In `Frame.java`, the getters for src, dst, size and data length mask with `0xFF`. `getAckType` and `getCrc` return Java's signed byte. The code only compares those two for equality (Node.java:272-280, Frame.java:122), so the unsigned reading changes no decision. `isAck` is `IsAck`: `sizeOrAck == 0`.

## Model

| member | source | states |
|---|---|---|
| Frames.DataFrame | CSE3053Project3/src/p1/Frame.java:17-30 | Succeeds exactly for a non-null payload of 1..255 bytes and fails with `NullPayload` for null. The frame is a well-formed data frame (not an ack) with `ackType` 0, `sizeOrAck` = payload length, the payload as data, src/dst reduced to their low byte, and checksum 0 until `toBytes` stamps it |
| Frames.AckFrame | CSE3053Project3/src/p1/Frame.java:33-39 | An ack frame always has `sizeOrAck == 0` and an empty payload, so `isAck` holds. It carries the given ack type and the low bytes of both ids, with checksum 0 |
| Frames.FromBytes | CSE3053Project3/src/p1/Frame.java:126-149 | Accepts a buffer exactly when it has at least 5 bytes and length `5 + buf[3]`; a shorter one fails with `TooShort`. The decoded frame is well-formed, keeps the received checksum byte, and its fields are the buffer with byte 2 zeroed |
| Frames.Checksum | CSE3053Project3/src/p1/Frame.java:101-107 | Equals a byte-wide running sum: the checksum of a buffer is the previous bytes' checksum plus the last byte, mod 256. `ChecksumNoticesChange` gives its purpose: one changed byte always changes it |
| Frames.ComputeCrc | CSE3053Project3/src/p1/Frame.java:101-107 | The accumulator loop returns the low byte of the sum of all bytes of the buffer |
| Frames.Serialize | CSE3053Project3/src/p1/Frame.java:84-92 | A fresh buffer holds `[src, dst, 0, sizeOrAck, ackType] ++ data` |
| Frames.Encode | CSE3053Project3/src/p1/Frame.java:83-98 | The bytes of `toBytes` are `5 + data.length` long. `EncodeLayout` gives each byte, `RoundTrip` and `EncodeFromBytes` tie it to `fromBytes` |
| Frames.CrcValid | CSE3053Project3/src/p1/Frame.java:110-123 | A frame's checksum is valid exactly when it equals the byte `toBytes` stamps into position 2. `SingleByteChangeDetected` shows that corruption breaks it |
| Frames.ToBytes | CSE3053Project3/src/p1/Frame.java:83-98 | A fresh buffer holds the serialised frame with the checksum stamped into byte 2 |
| Frames.IsCrcValid | CSE3053Project3/src/p1/Frame.java:110-123 | True exactly when the stored checksum equals the checksum recomputed over the fields |
| Frames.EncodeLayout | CSE3053Project3/src/p1/Frame.java:83-98 | `toBytes` yields exactly `5 + data.length` bytes laid out as src, dst, crc, sizeOrAck, ackType, data. Byte 2 is the sum mod 256 of the buffer with byte 2 taken as 0 |
| Frames.RoundTrip | CSE3053Project3/src/p1/Frame.java:126-149 | Decoding the encoding of a well-formed frame succeeds and gives back src, dst, sizeOrAck, ackType and data, and the decoded frame's checksum checks |
| Frames.EncodeFromBytes | CSE3053Project3/src/p1/Frame.java:126-149 | Conversely, a buffer that decodes to a frame whose checksum checks is exactly that frame's encoding |
| Frames.DecodedFields | CSE3053Project3/src/p1/Frame.java:126-149 | `fromBytes` reads src, dst, sizeOrAck, ackType and data from their places in the buffer |
| Frames.DecodeIgnoresChecksum | CSE3053Project3/src/p1/Frame.java:126-149 | `fromBytes` accepts any checksum byte in a buffer of the right length. The checksum is valid exactly when byte 2 matches the sum of the other bytes |
| Frames.SumUpdate | CSE3053Project3/src/p1/Frame.java:101-107 | Replacing one byte changes the sum by exactly the difference |
| Frames.ChecksumNoticesChange | CSE3053Project3/src/p1/Frame.java:101-107 | Replacing one byte by a different value always changes the checksum |
| Frames.SingleByteChangeDetected | CSE3053Project3/src/p1/Frame.java:110-123 | Any single-byte change to an encoded well-formed frame makes `fromBytes` fail or makes `isCrcValid` false |
| Text.Wrap32 | CSE3053Project3/src/p1/Node.java:36 | Java int arithmetic: the result is in int range, congruent to the exact value modulo 2^32, and equal to it when it fits |
| Text.TrimStart | CSE3053Project3/src/p1/Node.java:156 | The result is empty or starts with a character above U+0020 (TrimStartSplit: only such characters were dropped, so the dropped prefix is the longest) |
| Text.TrimEnd | CSE3053Project3/src/p1/Node.java:156 | The result is a prefix of the input, empty or ending with a character above U+0020 (TrimEndSplit: only characters up to U+0020 were dropped) |
| Text.Trim | CSE3053Project3/src/p1/Node.java:156 | The trimmed string neither starts nor ends with a character up to U+0020 (TrimRemovesOnlyEnds: nothing else is removed) |
| Text.TrimStartSplit | CSE3053Project3/src/p1/Node.java:156 | The input is a run of characters up to U+0020 followed by what TrimStart keeps |
| Text.TrimEndSplit | CSE3053Project3/src/p1/Node.java:156 | The input is what TrimEnd keeps followed by a run of characters up to U+0020 |
| Text.TrimRemovesOnlyEnds | CSE3053Project3/src/p1/Node.java:156 | `trim` keeps a middle part of the string: only characters up to U+0020 come before and after it. With Trim's contract, every such character at either end is removed and nothing else |
| Text.IndexOf | CSE3053Project3/src/p1/Node.java:162 | None exactly when the character is absent; otherwise the index of its first occurrence |
| Text.SplitOnce | CSE3053Project3/src/p1/Node.java:162 | `split(sep, 2)` has one part exactly when the separator is absent. Otherwise the two parts rebuild the string around the first occurrence, and the first part holds no separator |
| Text.SplitOnceOf | CSE3053Project3/src/p1/Node.java:162 | Conversely, for `a + sep + b` with no separator in `a`, `split(sep, 2)` gives exactly `a` and `b` |
| Text.Tokens | CSE3053Project3/src/p1/CCSSwitch.java:87 | `split("\\s+")` on a trimmed line: at most one token per character. `TokensAreWords` and `TokensKeepNonSpace` give the meaning: non-empty space-free runs that together are exactly the non-space characters |
| Text.Word | CSE3053Project3/src/p1/CCSSwitch.java:87 | The maximal run of non-space characters at the front: a space-free prefix followed by whitespace or the end |
| Text.TokensAreWords | CSE3053Project3/src/p1/CCSSwitch.java:87 | `split("\\s+")`: every token is a non-empty run of non-space characters |
| Text.TokensKeepNonSpace | CSE3053Project3/src/p1/CCSSwitch.java:87 | The tokens run together are exactly the non-space characters of the line, in order. There are no tokens exactly when the line is all whitespace |
| Text.TokensSplit | CSE3053Project3/src/p1/CCSSwitch.java:87 | Whatever whitespace leads up to it, the first maximal non-space run is the first token, and the other tokens are those of what follows it |
| Text.TokensCons | CSE3053Project3/src/p1/CCSSwitch.java:87 | A word followed by whitespace or the end of the line is the first token, and the rest are the tokens of what follows |
| Text.TokensSpace | CSE3053Project3/src/p1/CCSSwitch.java:87 | A leading space produces no token |
| Text.TokensOfWord | CSE3053Project3/src/p1/CCSSwitch.java:87 | A single word is its own only token |
| Text.SpacesHaveNoTokens | CSE3053Project3/src/p1/CCSSwitch.java:87 | A line of whitespace has no tokens |
| Text.WordOf | CSE3053Project3/src/p1/CCSSwitch.java:87 | A space-free run followed by whitespace or the end is exactly the run `Word` takes |
| Text.NonSpaceOfWord | CSE3053Project3/src/p1/CCSSwitch.java:87 | The non-space characters of a space-free word followed by more text are the word, then those of the rest |
| Text.ParseInt | CSE3053Project3/src/p1/Node.java:184-185 | `Integer.parseInt` in radix 10: a result exactly for an optional sign followed by one or more ASCII digits and nothing else, whose value fits an int. The value is the digits' decimal value, negated after a minus sign |
| Text.ParseIntRoundTrip | CSE3053Project3/src/p1/CCSSwitch.java:96-97 | `parseInt` reads back every int written in decimal, with a minus sign for negatives |
| Text.Lower | CSE3053Project3/src/p1/CCSSwitch.java:103 | `toLowerCase` keeps the length and lowers each ASCII letter |
| Text.Utf8Char | CSE3053Project3/src/p1/Node.java:193 | The shortest UTF-8 form. ASCII is the one byte of its code. Two, three or four bytes exactly for U+0080..U+07FF, U+0800..U+FFFF and above; the lead byte announces the length, the others are continuation bytes, and the payload bits spell the scalar value |
| Text.Utf8Two | CSE3053Project3/src/p1/Node.java:193 | For U+0080..U+07FF: a lead byte 110xxxxx and one continuation byte whose payload bits spell the value |
| Text.Utf8Three | CSE3053Project3/src/p1/Node.java:193 | For U+0800..U+FFFF: a lead byte 1110xxxx and two continuation bytes whose payload bits spell the value |
| Text.Utf8Four | CSE3053Project3/src/p1/Node.java:193 | For U+10000..U+10FFFF: a lead byte 11110xxx and three continuation bytes whose payload bits spell the value |
| Text.Utf8 | CSE3053Project3/src/p1/Node.java:193 | `getBytes(UTF_8)` yields one to four bytes per character (Utf8Append and Utf8OfAscii give the bytes) |
| Text.Utf8Append | CSE3053Project3/src/p1/Node.java:193 | The encoding of a concatenation is the concatenation of the encodings, so a string encodes to its characters' `Utf8Char` forms in order |
| Text.Utf8OfAscii | CSE3053Project3/src/p1/Node.java:193 | ASCII text encodes to its own character codes, one byte each |
| SwitchTables.Flood | CSE3053Project3/src/p1/CASSwitch.java:217-228 | No more deliveries than entries in the client list; every delivery carries the frame and goes to a listed client that is not the sender (FloodReachesEachOtherClientOnce: each other client exactly once when the list has no repeats) |
| SwitchTables.Route | CSE3053Project3/src/p1/CASSwitch.java:203-229 | Every delivery carries the frame and none goes back to the sender. A learned destination on another connection gets the frame alone |
| SwitchTables.Written | CSE3053Project3/src/p1/CASSwitch.java:298-303 | What a switch writes for a delivery (`toBytes` re-stamps the checksum): whatever checksum the frame arrived with, the next hop decodes the same src, dst, sizeOrAck, ackType and data, with a checksum that checks |
| SwitchTables.Relayed | CSE3053Project3/src/p1/CASSwitch.java:298-303 | Corrected write: the next hop decodes exactly the frame the switch decoded, the received checksum included |
| SwitchTables.Learn | CSE3053Project3/src/p1/CASSwitch.java:289 | `put` maps the key to the connection, overwriting any earlier owner, and leaves every other key as it was |
| SwitchTables.Forget | CSE3053Project3/src/p1/CASSwitch.java:313-319 | Removes the connection's own key only when the table still maps it to that connection. Every other entry is kept unchanged |
| SwitchTables.RemoveFirst | CSE3053Project3/src/p1/CASSwitch.java:321-323 | `clients.remove(c)` drops exactly one occurrence when present, keeps every other client, and on a repeat-free list leaves no `c` behind |
| SwitchTables.FloodReachesEachOtherClientOnce | CSE3053Project3/src/p1/CASSwitch.java:217-228 | Flooding reaches exactly the clients other than the sender, each of them once |
| SwitchTables.UnknownDestinationFloods | CSE3053Project3/src/p1/CASSwitch.java:203-229 | A frame for an unlearned destination reaches every client but the sender, once each |
| SwitchTables.DestinationOnSenderFloods | CSE3053Project3/src/p1/CASSwitch.java:206-228 | A destination learned on the sender's own connection is flooded: every other client gets it, the sender does not |
| SwitchTables.MigrationSurvivesOldTeardown | CSE3053Project3/src/p1/CASSwitch.java:306-324 | After an id moves from C1 to C2, C1's teardown leaves the entry on C2, and frames for the id from any other connection go to C2 alone |
| SwitchTables.TeardownKeepsOtherKeysOfConnection | CSE3053Project3/src/p1/CASSwitch.java:288-295 | Only the first id learned on a connection is its own. Teardown removes that one, and a second id learned on the same connection keeps pointing at it |
| LocalSwitch.CasSwitch.constructor | CSE3053Project3/src/p1/CASSwitch.java:40-45 | Empty table, client list and buffer; the uplink listener runs exactly when the uplink came up |
| LocalSwitch.CasSwitch.Accept | CSE3053Project3/src/p1/CASSwitch.java:79-82 | A fresh connection, unknown to the table, joins the end of `clients` |
| LocalSwitch.CasSwitch.LearnNodeId | CSE3053Project3/src/p1/CASSwitch.java:288-295 | `table[src]` becomes this connection. The connection's own node id is set by its first frame and never changes; no other connection's id changes |
| LocalSwitch.CasSwitch.ForwardLocalFrame | CSE3053Project3/src/p1/CASSwitch.java:203-229 | The deliveries are `Route(table, clients, dst, from, frame)`: direct to a learned destination that is not the sender, else the flood loop's sequence |
| LocalSwitch.CasSwitch.SendToCore | CSE3053Project3/src/p1/CASSwitch.java:184-200 | The frame goes up the uplink when there is one and is dropped otherwise, with no other state change |
| LocalSwitch.CasSwitch.HandleFrameFromNode | CSE3053Project3/src/p1/CASSwitch.java:231-242 | Frames for this network, or any frame when no core switch is configured, are forwarded locally and never sent up. Other frames go only to the uplink |
| LocalSwitch.CasSwitch.Cleanup | CSE3053Project3/src/p1/CASSwitch.java:306-324 | The table forgets the connection's own id only if it still owns it; the connection always leaves `clients` |
| LocalSwitch.CasSwitch.ReceiveFromNode | CSE3053Project3/src/p1/CASSwitch.java:259-285 | A decodable frame is learned in the table under its source, and the connection's own id becomes `src` on its first frame and never changes; other connections' ids are untouched. The frame is buffered once and handled. A malformed one tears the connection down and changes nothing else |
| LocalSwitch.CasSwitch.ReceiveFromCore | CSE3053Project3/src/p1/CASSwitch.java:150-181 | A frame from the uplink is buffered once and routed with no excluded sender. A malformed one stops the uplink reader |
| CoreSwitch.RuleEffect | CSE3053Project3/src/p1/CCSSwitch.java:83-111 | For the trimmed line and its tokens: blank or `#` is skipped; fewer than 3 tokens is too short; a net `parseInt` rejects is bad. Otherwise both nets in 0..15 set that entry, blocked exactly when the action starts with "block" or "deny" or is "0" ignoring case, and any other pair is out of range |
| CoreSwitch.ThreeTokens | CSE3053Project3/src/p1/CCSSwitch.java:87 | Three words separated by single spaces split into exactly those three tokens |
| CoreSwitch.RuleLineSetsEntry | CSE3053Project3/src/p1/CCSSwitch.java:83-108 | Conversely, a line `<s> <d> <action>` with both nets in 0..15 written in decimal sets entry (s, d), blocked exactly when the action is a block word |
| CoreSwitch.TrimKeeps | CSE3053Project3/src/p1/CCSSwitch.java:83 | A line that neither starts nor ends with a character up to U+0020 is its own trim |
| CoreSwitch.SkippedLineKeepsMatrix | CSE3053Project3/src/p1/CCSSwitch.java:83-111 | A blank, comment, short, non-numeric or out-of-range line leaves every matrix entry unchanged |
| CoreSwitch.LaterLineOverrides | CSE3053Project3/src/p1/CCSSwitch.java:103-107 | A valid line sets its own entry, overriding any earlier line, and no other entry |
| CoreSwitch.BlockedAfter | CSE3053Project3/src/p1/CCSSwitch.java:74-118 | The matrix entry after `loadFirewallRules`: an entry outside 0..15 is never blocked. `LaterLineOverrides`, `SkippedLineKeepsMatrix` and `BlockedOnlyByARule` say which line decides it |
| CoreSwitch.Screen | CSE3053Project3/src/p1/CCSSwitch.java:166-191 | The firewall step: an ack or an allowed frame passes unchanged with its sender. A blocked data frame becomes an empty FIREWALL ack from its destination back to its source, with no sender excluded |
| CoreSwitch.BlockedOnlyByARule | CSE3053Project3/src/p1/CCSSwitch.java:74-118 | An entry is blocked only if some rule line sets exactly that entry to block; otherwise the default, allow, stands |
| CoreSwitch.AcksAlwaysPass | CSE3053Project3/src/p1/CCSSwitch.java:174-177 | Acknowledgments are forwarded unchanged, with the sender excluded, whatever the matrix says |
| CoreSwitch.BlockedFrameBouncesBack | CSE3053Project3/src/p1/CCSSwitch.java:179-189 | A blocked data frame is replaced by a `FIREWALL` ack from its destination to its source, routed with no excluded sender |
| CoreSwitch.BlockedFrameNeverDelivered | CSE3053Project3/src/p1/CCSSwitch.java:179-189 | No delivery made for a blocked data frame carries that frame; each carries an ack addressed to its source |
| CoreSwitch.AllowedFramePasses | CSE3053Project3/src/p1/CCSSwitch.java:190 | An allowed data frame is forwarded unchanged, excluding its sender |
| CoreSwitch.CcsSwitch.constructor | CSE3053Project3/src/p1/CCSSwitch.java:32-35 | The matrix holds what the rule lines say, or allows everything when the rule file is unreadable; tables and buffer start empty |
| CoreSwitch.CcsSwitch.LoadFirewallRules | CSE3053Project3/src/p1/CCSSwitch.java:74-118 | After the loop, every in-range entry equals the last rule line's verdict for it, default not blocked |
| CoreSwitch.CcsSwitch.ClearMatrix | CSE3053Project3/src/p1/CCSSwitch.java:75-77 | Every entry of the 16x16 matrix starts as not blocked |
| CoreSwitch.CcsSwitch.IsBlocked | CSE3053Project3/src/p1/CCSSwitch.java:121-126 | False for any out-of-range net; otherwise the verdict the rules give for the pair |
| CoreSwitch.CcsSwitch.Accept | CSE3053Project3/src/p1/CCSSwitch.java:55-58 | A fresh connection, unknown to the table, joins the end of `clients` |
| CoreSwitch.CcsSwitch.LearnNetwork | CSE3053Project3/src/p1/CCSSwitch.java:236-243 | `networkTable[net]` becomes this connection; the connection's own network id is fixed by its first frame |
| CoreSwitch.CcsSwitch.ForwardFrame | CSE3053Project3/src/p1/CCSSwitch.java:139-163 | The deliveries are `Route` keyed by `dst / 16`: a learned network not on the sender gets the frame alone, else every client but the sender |
| CoreSwitch.CcsSwitch.HandleFrameFromLocal | CSE3053Project3/src/p1/CCSSwitch.java:166-191 | The deliveries are the route of the screened frame. The screen passes acks, passes allowed data frames, and bounces frames the rules block |
| CoreSwitch.CcsSwitch.Cleanup | CSE3053Project3/src/p1/CCSSwitch.java:254-272 | The table forgets the connection's own network only if it still owns it; the connection always leaves `clients` |
| CoreSwitch.CcsSwitch.ReceiveFromLocal | CSE3053Project3/src/p1/CCSSwitch.java:207-233 | A decodable frame is learned under `src / 16`, and the connection's own network becomes `src / 16` on its first frame and never changes; other connections' networks are untouched. The frame is buffered once, screened and routed. A malformed one tears the connection down |
| Endpoint.FlipLow | CSE3053Project3/src/p1/Node.java:219 | `b ^ 0x01` keeps the upper seven bits and toggles the low bit |
| Endpoint.Transmit | CSE3053Project3/src/p1/Node.java:208-233 | What `sendFrame` writes. A clean transmission is the `toBytes` encoding with its length prefix. A dropped ack writes nothing. A noisy data frame writes one buffer of the same length with one byte's low bit flipped |
| Endpoint.TransmitShape | CSE3053Project3/src/p1/Node.java:208-226 | At most one write per transmission, and none exactly when an ack is dropped. Every length prefix equals its buffer length, `5 + data.length` |
| Endpoint.CorruptedDataIsDetected | CSE3053Project3/src/p1/Node.java:216-222 | A corrupted data frame always reaches the local switch malformed or with a checksum that does not check (what the switch writes on is in EndToEnd) |
| Endpoint.CleanTransmissionDecodes | CSE3053Project3/src/p1/Node.java:224-226 | Without noise the receiver decodes the same frame and its checksum checks |
| Endpoint.Heard | CSE3053Project3/src/p1/Node.java:293-307 | An attempt hears an ack type exactly when the reply is an ack addressed to this node, from any sender |
| Endpoint.HeardAll | CSE3053Project3/src/p1/Node.java:253-266 | One observation per attempt's wait |
| Endpoint.OutcomeFrom | CSE3053Project3/src/p1/Node.java:239-289 | The attempts from index i on number at most the waits left, and at least one more when any is left |
| Endpoint.OutcomeFromStops | CSE3053Project3/src/p1/Node.java:269-289 | The send ends at the first attempt that hears OK (delivered) or FIREWALL (rejected). It is exhausted, after every attempt, exactly when none does |
| Endpoint.FirstStopDecides | CSE3053Project3/src/p1/Node.java:269-285 | When the first OK or FIREWALL is heard on attempt k, the send takes exactly k+1 attempts and that ack decides the outcome. No ack, CRC_ERR, TIMEOUT and unknown types before it lead to retries |
| Endpoint.ExhaustedOnlyAfterAllAttempts | CSE3053Project3/src/p1/Node.java:237-290 | Between 1 and 3 attempts are made. Failure is reported only after all 3, exactly when none heard OK or FIREWALL |
| Endpoint.OneWritePerAttempt | CSE3053Project3/src/p1/Node.java:239-251 | Each attempt writes exactly one data frame, whatever the noise |
| Endpoint.NodeIdOf | CSE3053Project3/src/p1/Node.java:36 | `networkId * 16 + localId` as a Java int: in int range, congruent to the exact value mod 2^32, and with the same low byte, which is what a frame carries |
| Endpoint.AddressSplit | CSE3053Project3/src/p1/Node.java:36 | For ids in 0..15, `networkId * 16 + localId` fits and splits back into network and local id |
| Endpoint.ParseMessageLine | CSE3053Project3/src/p1/Node.java:155-198 | A blank line is skipped, and so is a line without ':'. A line that is sent has a non-empty message whose UTF-8 payload is 1..255 bytes, and int-range destination numbers |
| Endpoint.MessageLineParts | CSE3053Project3/src/p1/Node.java:162-174 | For a trimmed line `a:b` split at its first ':': an empty trimmed message is skipped, and otherwise a destination without '_' is skipped |
| Endpoint.MessageLineTarget | CSE3053Project3/src/p1/Node.java:176-198 | For a destination `n_l` split at its first '_' and a non-empty message: numbers `parseInt` rejects are skipped; otherwise the message is sent to net n, local l exactly when its UTF-8 payload is 1..255 bytes, and skipped for its length otherwise |
| Endpoint.SentLineFields | CSE3053Project3/src/p1/Node.java:155-198 | Conversely, every line that is sent has that shape, and its message, net and local are read off those parts |
| Endpoint.ParsedLineMakesDataFrame | CSE3053Project3/src/p1/Node.java:191-200 | A parsed line always makes a valid data frame carrying its payload, addressed to the low byte of `dstNet * 16 + dstLocal` |
| Endpoint.Wrap32KeepsLowByte | CSE3053Project3/src/p1/Frame.java:25-26 | Java's int wrap-around never changes the low byte that a frame keeps of an id |
| Endpoint.Messages | CSE3053Project3/src/p1/Node.java:150-205 | At most one message per line, all of them sendable (the lemmas below say which and in what order) |
| Endpoint.MessagesAreParsedLines | CSE3053Project3/src/p1/Node.java:150-205 | Every message is what some line of the script parses to |
| Endpoint.ParsedLinesAreMessages | CSE3053Project3/src/p1/Node.java:150-205 | Every line that parses to a send contributes that message |
| Endpoint.MessagesSnoc | CSE3053Project3/src/p1/Node.java:155-200 | Appending a line appends its parsed message, or nothing when the line is skipped: the messages keep line order |
| Endpoint.MessagesAppend | CSE3053Project3/src/p1/Node.java:150-205 | The messages of two runs of lines are those of the first run followed by those of the second |
| Endpoint.MessagesStep | CSE3053Project3/src/p1/Node.java:155-200 | Line k extends the messages of the lines before it by its parse, if that is a send |
| Endpoint.ExpectedReports | CSE3053Project3/src/p1/Node.java:150-205 | One report per message |
| Endpoint.ExpectedReportsAt | CSE3053Project3/src/p1/Node.java:150-205 | The m-th report is the m-th message's target id, with the outcome its replies decide |
| Endpoint.AttemptWriteAt | CSE3053Project3/src/p1/Node.java:236-252 | Attempt j writes the same data frame, transmitted under attempt j's noise |
| Endpoint.MessageWriteCarries | CSE3053Project3/src/p1/Node.java:191-200 | Every write for a parsed message is an attempt its replies allowed. A clean one decodes, with a valid checksum, to a data frame from this node to `dstNet * 16 + dstLocal` (as a byte) holding the message's UTF-8 bytes; a noisy one is malformed or fails its checksum |
| Endpoint.Node.constructor | CSE3053Project3/src/p1/Node.java:33-39 | `nodeId` is `networkId * 16 + localId` in int arithmetic. The ack fields start at false, false, 0, -1 |
| Endpoint.Node.SendFrame | CSE3053Project3/src/p1/Node.java:208-233 | The wire grows by exactly the transmission the noise decides |
| Endpoint.Node.HandleAck | CSE3053Project3/src/p1/Node.java:293-307 | Acks for other ids are ignored. Type and sender are recorded only while waiting; otherwise nothing changes |
| Endpoint.Node.HandleDataFrame | CSE3053Project3/src/p1/Node.java:309-335 | Frames for other ids are ignored. A bad checksum is answered with CRC_ERR to the sender and nothing is logged. A good one logs `src / 16`, `src % 16` and the message, and is answered OK |
| Endpoint.Node.Attempt | CSE3053Project3/src/p1/Node.java:240-267 | One attempt: the wire grows by the frame's transmission, the ack type heard is the one `Heard` assigns to the reply, and `waitingForAck` is false afterwards |
| Endpoint.Node.SendWithRetries | CSE3053Project3/src/p1/Node.java:236-290 | The outcome is the one `OutcomeFrom` assigns to what the three waits heard. Exactly one data frame is written per attempt made, and `waitingForAck` is false afterwards |
| Endpoint.Node.SendMessage | CSE3053Project3/src/p1/Node.java:191-200 | The report is the message's target id with the outcome its replies decide. The wire grows by that many attempts of the data frame to `dstNet * 16 + dstLocal` carrying the message's UTF-8 bytes, and `waitingForAck` is false afterwards |
| Endpoint.Node.SendNext | CSE3053Project3/src/p1/Node.java:191-200 | Sending the next message extends the reports by its report and the wire by its writes, exactly as `ExpectedReports` and `ExpectedWrites` prescribe, and leaves `waitingForAck` false |
| Endpoint.Node.SendLine | CSE3053Project3/src/p1/Node.java:155-200 | After line k, the messages are those of lines 0..k, the reports and the wire are what `ExpectedReports` and `ExpectedWrites` give for them, and the node waits for no ack unless nothing has been sent |
| Endpoint.Node.SendFromLines | CSE3053Project3/src/p1/Node.java:150-205 | One report per message of the script, in order, each with the target id and the outcome its replies decide. The wire holds exactly each message's data frames in order (`ExpectedWrites`), and `waitingForAck` is false once any message was sent |
| EndToEnd.SwitchHidesCorruption | CSE3053Project3/src/p1/CASSwitch.java:298-303 | As written: a data frame corrupted in any byte but the size byte reaches the switch with a checksum that fails, yet the next hop decodes what the switch writes with a checksum that checks |
| EndToEnd.ArrivesWithByteFlipped | CSE3053Project3/src/p1/CASSwitch.java:298-303 | As written: the next hop decodes the corrupted buffer's src, dst and data, the flipped byte included, under a valid checksum |
| EndToEnd.HelloFrameBuilt | CSE3053Project3/src/p1/Frame.java:17-30 | `dataFrame(17, 35, "hello")` succeeds and gives a data frame from 17 to 35 carrying "hello" |
| EndToEnd.HelloArrivesAsIello | CSE3053Project3/src/p1/CASSwitch.java:298-303 | As written: "hello" from 17 to 35 with byte 5 flipped reaches node 35 as "iello" with a valid checksum |
| EndToEnd.HelloMisdeliveredTo34 | CSE3053Project3/src/p1/CASSwitch.java:298-303 | As written: the same frame with byte 1 flipped reaches node 34, with a valid checksum |
| EndToEnd.RelayedCorruptionIsDetected | CSE3053Project3/src/p1/CASSwitch.java:298-303 | Corrected: with the received checksum relayed, a corrupted data frame is rejected by the switch or decoded by the next hop with a checksum that fails |
| EndToEnd.RelayedCleanFrameArrives | CSE3053Project3/src/p1/CASSwitch.java:298-303 | Corrected: without noise the relayed frame arrives with its fields intact and a checksum that checks |
| EndToEnd.RelayedIelloIsRejected | CSE3053Project3/src/p1/CASSwitch.java:298-303 | Corrected: "hello" corrupted to "iello" reaches node 35 with a checksum that fails |

## Left out

- Sockets and stream framing are not modelled: `readUnsignedShort` and `readNBytes`/`readFully` on streams, `ServerSocket.accept`, and the connect-and-retry loops. A frame arrives as its byte sequence, and a write is a `Delivery` or a `Write` value. Failed writes to closed connections and `IOException` in the middle of a read are not modelled.
- Threads, locks, `wait`/`notifyAll` and the 500 ms deadline are not modelled. Each attempt's wait is an input: the one frame (or none) that the receive thread hands over before the deadline. Data frames that arrive during a wait are handled by `HandleDataFrame` on their own. The switches are modelled sequentially, so the unsynchronised `HashMap` races are absent.
- `java.util.Random` becomes a `Noise` parameter per transmission.
- The rule file and the message script are sequences of lines; an unreadable rule file is `None`. The output log is a sequence of `LogLine` values holding the source ids and the payload bytes. The UTF-8 decoding of the payload and the exact rendering `"srcNet_srcLocal: msg"` are not modelled.
- The `listenForFrames` loop's dispatch of acks to `handleAck` and of data frames to `handleDataFrame` is not a member of its own.
- The model covers only part of Java's string semantics:
  - `toLowerCase` is modelled for ASCII letters only;
  - `Integer.parseInt` accepts only ASCII digits, not the other Unicode decimal digits Java also accepts;
  - `Tokens` assumes a trimmed line, which is what the rule loop passes it.
- `Endpoint.Node.SendFromLines`: `sendWithRetries` reports nothing. Its outcome only reaches the console log, so the returned `Report` sequence stands in for those log lines. The `running` flag that can stop the loop early is not modelled.
- The `running`/`shutdown` flags, logging, `toString`, `tag()`, `Main.java` and `CCSShadowSwitch` are not modelled. CCSShadowSwitch is not part of this model.
- A `null` buffer given to `fromBytes` cannot occur in the model, since a frame always arrives as a byte sequence.
- Teardown forgets only the connection's own id, which is the id of the first frame it carried. Any other source id learned on the same connection stays in the table after it closes (`SwitchTables.TeardownKeepsOtherKeysOfConnection`). A reader might expect teardown to remove every id learned on the connection; the code removes only the first, and the model follows the code.
- The switch classes return `Delivery` values: the decoded frame, with the checksum it arrived with, and the connection to write it to. The bytes put on the wire for a delivery are `SwitchTables.Written` as the code does it, and `SwitchTables.Relayed` as corrected (see Findings).
- `Integer.toString` (`Text.IntToString`) is modelled only to read numerals back in `ParseIntRoundTrip` and `RuleLineSetsEntry`.

## Findings

| source | as written | input that shows it | evidently intended | confidence | as-written member | corrected member |
|---|---|---|---|---|---|---|
| CSE3053Project3/src/p1/CASSwitch.java:298-303 | Every switch write re-serialises the frame with `toBytes`, which stamps a freshly computed checksum. This holds for `sendFrame` here, for `sendToCCS` (CASSwitch.java:190) and for the core switch (CCSSwitch.java:246-251). `fromBytes` never checks the checksum, so a frame corrupted on a node's link leaves the switch with a valid one | `dataFrame(17, 35, "hello")` with byte 5 flipped on node 17's link: node 35 decodes "iello" with a valid checksum, logs it and answers OK. With byte 1 flipped instead, node 34 receives it with a valid checksum | The switch passes on the checksum it received, so the receiving node sees the corruption, answers CRC_ERR and the sender retries | medium; not executed | SwitchTables.Written, EndToEnd.SwitchHidesCorruption, EndToEnd.HelloArrivesAsIello, EndToEnd.HelloMisdeliveredTo34 | SwitchTables.Relayed, EndToEnd.RelayedCorruptionIsDetected, EndToEnd.RelayedIelloIsRejected |
