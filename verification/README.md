# Verified model of the mmtls/ilink protocol stack, the script scheduler and the login pool

This project models, in Dafny, the parts of the program whose correctness is hard to see
from reading one function, and proves what they promise.

**The wire stack.** Bytes travel as base-128 varints (`Varint`), protobuf-style messages
(`Protobuf`), wpkg headers (`Wpkg`), LZ4 blocks (`Lz4`), and mmtls records, handshake
messages, tickets and shortlink packets (`Records`). `RecordCrypto` has the nonces, the
additional data, key expansion and the ciphertext layout. `Flights` says what a server
flight is; `MmtlsClient` is the client object that reassembles records from a stream cut up
in any way, keeps the transcript and both sequence counters, and runs the handshake.
`Ilink` builds requests, packets and session payloads out of all of these and opens them
again. AES-GCM, HMAC, SHA-256 and key agreement are values of a `Primitives` record about
which only this is assumed: opening undoes sealing, sealing adds 16 bytes, an HMAC has 32.

**The script scheduler.** `Calendar` is the civil calendar, `Cron` parses expressions,
`NextFiring` searches for the next minute. `Scheduler` has the table of schedules,
`SchedulerLoop` every interleaving of the timer loop with those who change the table,
`RunTable` the life of runs, `LogStream` live logs, `SplitArgs` the command-line splitter,
and `RunnerObject` the runner as an object, one method per critical section.

**Stateful helpers.** `LoginPool` is the single-flight login under a semaphore, as an object
and as an interleaving of any number of callers; `LoginLimiter` the limit on failed logins;
`LonglinkOrder` the choice and order of connection targets.

Loops are methods with invariants, proved equal to a specification function or relation;
the properties are lemmas about those. Formats, labels and constants are stated once more in
literal bytes, numbers and dates at the end of each module, so that the specification itself
is held to them. Concurrent code is a transition system whose steps are critical sections,
channel operations and clock readings, and its properties are proved of every state of every
run.

Results worth knowing, where the code does less than one might expect:

- A schedule for one time of day on 29 February alone, such as `0 0 29 2 *`, once due, is
  found due again by every tick for 1095 days, because the search for its next firing gives
  up after 366 days and the entry is then left as it was (`Scheduler.LeapDayRelaunched`).
  `Scheduler.EveryLaunchMovesExactly` says which expressions are safe at all times: those
  that restrict the weekday, or leave the day open, or name some date that every year has.
- The scheduler's timer can fire later than the earliest firing, by the time that passes
  between computing the wait and arming the timer (`SchedulerLoop.TimerCanBeLate`,
  `SchedulerLoop.OnTimeExactly`); a wakeup is never lost.
- A comment at internal/scriptrunner/runner.go:495 says that subscribing before reading the
  file avoids repeats. The model follows the code, where repeats do happen
  (`LogStream.RepeatsHappen`), and so do gaps when the log was deleted (`LogStream.GapsHappen`).
- The splitter drops empty arguments, quoted or not (`SplitArgs.PosixRoundTripExactly`), and
  trims white space at the ends of the line even if it was written behind a backslash
  (`SplitArgs.EscapedEndIsTrimmed`; `SplitArgs.SplitUndoesQuoting` says exactly which lines
  survive).
- Fields numbered outside 0 to 15 do not survive the one-byte tag, whether they hold a
  varint or bytes (`Protobuf.FieldNumberRange`).

## Model

| member | source | states |
|---|---|---|
| Varint.Varint | internal/protocol/bytes.go:10-23 | the shift loop writes the encoding that `EncodeMeaning` describes, for every 64-bit value |
| Varint.EncodeMeaning | internal/protocol/bytes.go:10-23 | an encoding is one self-delimiting run of bytes, worth exactly the number, with no useless last group |
| Varint.EncodedLength | internal/protocol/bytes.go:10-23 | numbers below 128^k take at most k bytes |
| Varint.ReadVarint | internal/protocol/bytes.go:25-41 | the reading loop finds the end of the run, drops bits past the 64th, and tells a cut-off run from an over-long one |
| Varint.ReadEncoded | internal/protocol/bytes.go:25-41 | an encoding standing anywhere is read back with the index behind it, whatever surrounds it |
| Varint.ReadCut | internal/protocol/bytes.go:25-41 | an encoding cut short by the end of the data is reported as truncated, at every cut |
| Varint.ShortEncodings | internal/protocol/bytes.go:10-23 | in bytes: one below 128, the low seven bits first with their high bit set above that |
| Varint.ShortReads | internal/protocol/bytes.go:25-41 | `ac 02` reads as 300; ten continuation bytes are an overflow, fewer at the end of the data a truncation |
| Protobuf.PbParse | internal/protocol/bytes.go:56-91 | the parser with its wrap-around length check computes the specified map, or the panic of a slice out of range |
| Protobuf.ParsePrefix | internal/protocol/bytes.go:43-91 | any prefix of any message parses to the last-wins map of exactly the fields it completes |
| Protobuf.CompleteIsLongest | internal/protocol/bytes.go:56-91 | those fields are the longest run of leading fields whose bytes are all there |
| Protobuf.ParseMessage | internal/protocol/bytes.go:43-91 | a whole message of varint and bytes fields parses to the last-wins map of all of them |
| Protobuf.LastWinsMeaning | internal/protocol/bytes.go:56-91 | a repeated number keeps its last occurrence, integers as two's-complement 64-bit values |
| Protobuf.Untouched | internal/protocol/bytes.go:56-91 | a number no field carries is neither added nor changed |
| Protobuf.FieldNumberRange | internal/protocol/bytes.go:43-54 | a field of either kind comes back under its own number if and only if the number is 0 to 15 |
| Protobuf.LostField | internal/protocol/bytes.go:50-54 | a tag byte with its high bit set swallows the value behind it and nothing is parsed |
| Protobuf.LostLength | internal/protocol/bytes.go:43-48 | or the length of a bytes field, which then does not come back either |
| Protobuf.DistinctRecovered | internal/protocol/bytes.go:43-91 | a message whose numbers do not repeat is recovered field by field |
| Protobuf.FieldRead | internal/protocol/bytes.go:43-91 | in bytes: eight times the number in front of a varint, which is stored as a signed integer, and that plus 2 in front of a length and as many bytes |
| Protobuf.OtherKindEnds | internal/protocol/bytes.go:86-88 | a field of any other wire type ends the parse and is dropped with all behind it |
| Protobuf.LengthBeyondData | internal/protocol/bytes.go:75-83 | a length beyond the data drops the field, or panics exactly when its end passes the largest Go int |
| Lz4.Lz4Decompress | internal/protocol/bytes.go:179-231 | the decoding loop ends on every input and computes the specified block decoding or its error |
| Lz4.DecodeLength | internal/protocol/bytes.go:185-196 | the loop over bytes of 255 reads the specified length, or finds it cut off |
| Lz4.AppendMatch | internal/protocol/bytes.go:225-228 | the byte-by-byte match copy, which may read its own output, appends the periodic extension |
| Lz4.MatchIsPeriodic | internal/protocol/bytes.go:225-228 | a match keeps the output and repeats it with period `offset`, overlapping or not |
| Lz4.DecodeEncoded | internal/protocol/bytes.go:179-231 | decoding inverts the encoding of any list of literals and matches, as the LZ4 block format lays it out |
| Lz4.DecodesExactlyBlocks | internal/protocol/bytes.go:179-231 | an input decodes to an output if and only if it is the encoding of some block that means that output |
| Lz4.ExpansionBound | internal/protocol/bytes.go:179-231 | no accepted input grows more than 255-fold |
| Lz4.Lz4AllLiteral | internal/protocol/bytes.go:163-177 | the encoder writes the block that is one run of literals |
| Lz4.AllLiteralRoundTrip | internal/protocol/bytes.go:163-231 | decompressing an all-literal block gives the data back, the empty data included |
| Lz4.ExtensionIs | internal/protocol/bytes.go:185-196 | a length from 15 on is followed by bytes of 255, as many as fit into the rest, and one smaller byte |
| Lz4.ShortSequenceRead | internal/protocol/bytes.go:179-231 | in bytes: token, literals and a low-byte-first offset decode to the literals and the match behind them, or are refused when the offset does not reach back into them |
| Records.BuildRecord | internal/protocol/mmtls_protocol.go:40-50 | writing into the buffer in place yields header and payload; exactly payloads above 65535 bytes are refused |
| Records.ParseRecords | internal/protocol/mmtls_protocol.go:52-70 | the loop returns the complete records at the front and how many bytes they take, in the terms `RecordRead` and `RecordNotRead` spell out |
| Records.RecordRead | internal/protocol/mmtls_protocol.go:52-74 | in bytes: type, f1 03, two bytes of length, payload; read for the types 14, 15, 16, 17 and 19 and for no other |
| Records.RecordNotRead | internal/protocol/mmtls_protocol.go:55-65 | another version stops the parse, and a record not all there is left for later |
| Records.ParseEncoded | internal/protocol/mmtls_protocol.go:40-70 | records written one after another are read back in order, whatever follows |
| Records.ParseIsExact | internal/protocol/mmtls_protocol.go:52-74 | conversely, what is parsed re-encodes to precisely the bytes consumed |
| Records.ParseSplit | internal/protocol/mmtls_protocol.go:52-70 | parsing part of a stream and then the unconsumed rest with later bytes gives the records of the whole |
| Records.BuildHandshake | internal/protocol/mmtls_protocol.go:76-83 | filling the buffer yields length, type and body, the length cut to 32 bits |
| Records.HandshakeRoundTrip | internal/protocol/mmtls_protocol.go:76-95 | splitting undoes building if and only if the length fits its four bytes |
| Records.HandshakeIs | internal/protocol/mmtls_protocol.go:76-83 | in bytes: four of length, which counts the type, then type and body |
| Records.SplitIs | internal/protocol/mmtls_protocol.go:85-95 | of any payload of five bytes or more: the body up to the declared length, or an error if that is zero or more than there is |
| Records.FinishedRoundTrip | internal/protocol/mmtls_protocol.go:229-248 | the peer finds exactly the verify data in a built Finished message |
| Records.FinishedIs | internal/protocol/mmtls_protocol.go:229-237 | in bytes: exactly 32 bytes of verify data make a Finished of type 14 with a two-byte length of its own |
| Records.FinishedRead | internal/protocol/mmtls_protocol.go:239-248 | reading takes as many bytes as declared, ignores the rest, and fails if there are fewer |
| Records.ClientHelloIs | internal/protocol/mmtls_protocol.go:97-136 | the whole hello byte by byte: the first public key stands under group 1, the second under group 2; other sizes are refused |
| Records.ParseNewSessionTicket | internal/protocol/mmtls_protocol.go:256-278 | the loop yields the specified tickets, stopping at the first that does not fit |
| Records.TicketsRoundTrip | internal/protocol/mmtls_protocol.go:256-278 | a message listing up to 255 tickets yields those tickets in order |
| Records.TicketIs | internal/protocol/mmtls_protocol.go:263-276 | in bytes: an entry behind its length, its type first, then four bytes of lifetime |
| Records.ShortTicketEnds | internal/protocol/mmtls_protocol.go:266-268 | an entry shorter than five bytes ends the list |
| Records.BuildShortlink | internal/protocol/mmtls_protocol.go:280-293 | filling the buffer field by field yields the packet, the default version standing in for 0 |
| Records.ShortlinkRoundTrip | internal/protocol/mmtls_protocol.go:280-320 | a built packet is read back field by field, trailing bytes ignored |
| Records.ShortlinkIs | internal/protocol/mmtls_protocol.go:280-293 | in bytes: total length, 11 10, version (07 6d for 0), command, sequence number, body |
| Records.ShortlinkRefused | internal/protocol/mmtls_protocol.go:304-320 | which packets are too short, cut off, or make the body slice panic |
| Flights.ServerHelloRead | internal/protocol/mmtls_protocol.go:171-214 | a ServerHello with a key share is read back: random, cipher, group and key |
| Flights.FirstKeyShareIsFirst | internal/protocol/mmtls_protocol.go:216-227 | without that extension the key is the first 65-byte point behind a marker, and empty only if there is none |
| Flights.ServerHelloIs | internal/protocol/mmtls_protocol.go:171-214 | of any ServerHello body of 40 bytes or more: where cipher, random, extensions, group and key stand, and which lengths are errors |
| RecordCrypto.Nonce | internal/protocol/mmtls_crypto.go:80-88 | the in-place loop computes the nonce that `NonceIs` describes, of the length of the iv |
| RecordCrypto.NonceInjective | internal/protocol/mmtls_crypto.go:80-88 | under one iv, different sequence numbers have different nonces |
| RecordCrypto.XorIs | internal/protocol/mmtls_crypto.go:84-86 | each bit of the exclusive or is set if and only if exactly one operand has it set |
| RecordCrypto.XorUndoes | internal/protocol/mmtls_crypto.go:84-86 | doing it twice undoes it, and zero changes nothing |
| RecordCrypto.NonceIs | internal/protocol/mmtls_crypto.go:80-88 | the first four bytes are the iv's; the others exclusive-or the iv's are the number, most significant byte first |
| RecordCrypto.FirstNonceIsIv | internal/protocol/mmtls_crypto.go:80-88 | so the nonce for number 0 is the iv itself |
| RecordCrypto.BuildRecordAad | internal/protocol/mmtls_crypto.go:114-122 | the thirteen bytes: counter, type, version, ciphertext length |
| RecordCrypto.AadIs | internal/protocol/mmtls_crypto.go:114-122 | in bytes: eight of number, the type, f1 03, two of length, most significant first |
| RecordCrypto.OpenSealed | internal/protocol/mmtls_crypto.go:90-132 | a receiver that rebuilds the additional data from the ciphertext length recovers the plaintext |
| RecordCrypto.PayloadIs | internal/protocol/mmtls_crypto.go:124-127 | what is sealed: the plaintext under key and nonce, with the number, type and final length as additional data |
| RecordCrypto.HkdfExpand | internal/protocol/mmtls_crypto.go:32-44 | the counter loop gives the leading bytes of T(1) T(2) ... of section 2.3 of RFC 5869, exactly as many as asked for |
| RecordCrypto.ExpandGrows | internal/protocol/mmtls_crypto.go:32-44 | asking for more bytes keeps those already given |
| RecordCrypto.ExpandIsHmac | internal/protocol/mmtls_crypto.go:32-57 | up to 32 bytes come from HMAC(key, info 01), up to 64 from that and HMAC(key, first block, info 02) |
| RecordCrypto.SplitBiKeys | internal/protocol/mmtls_crypto.go:157-164 | the four parts are of the right sizes and put together are the key block |
| RecordCrypto.VerifyDataIs | internal/protocol/mmtls_crypto.go:166-175 | the client's Finished is HMAC(HMAC(secret, "client finished" 01), hash), the server's the same with "server finished" |
| RecordCrypto.MasterIs | internal/protocol/mmtls_crypto.go:143-145 | the master secret is HMAC(secret, "expanded secret", hash, 01) |
| RecordCrypto.HandshakeKeysAre | internal/protocol/mmtls_crypto.go:147-164 | client key, server key, client iv and server iv are cut in this order from the two HMAC blocks of "handshake key expansion" and the hash |
| RecordCrypto.AppKeysAre | internal/protocol/mmtls_crypto.go:152-164 | and the application keys from those of "application data key expansion" under the master secret |
| RecordCrypto.LayoutRoundTrip | internal/protocol/mmtls_crypto.go:190-230 | moving the iv in front of the tag and back loses nothing; the blob is 28 bytes longer |
| RecordCrypto.LayoutIs | internal/protocol/mmtls_crypto.go:190-211 | ciphertext, iv, tag; keys of 16, 24 and 32 bytes and no others are usable |
| MmtlsClient.Conn.Read | internal/protocol/mmtls_client.go:84-92 | the connection hands over its bytes in chunks of any size, none lost or repeated |
| MmtlsClient.Client.NextRecord | internal/protocol/mmtls_client.go:73-97 | takes the first record of queue, buffer and all bytes still to come, however they are cut up; fails only when there is none |
| MmtlsClient.Client.DrainRecords | internal/protocol/mmtls_client.go:73-97 | reading on and on delivers exactly the records of the whole stream, in order |
| MmtlsClient.Client.SendPlain | internal/protocol/mmtls_client.go:107-117 | only a complete write moves the sequence number; a failed one leaves a prefix behind |
| MmtlsClient.Client.SendEncrypted | internal/protocol/mmtls_client.go:119-133 | the record sent is sealed under the current number |
| MmtlsClient.Client.RecvPlain | internal/protocol/mmtls_client.go:135-142 | fails only at the end of the stream; otherwise takes the next record and counts it |
| MmtlsClient.Client.RecvDecrypt | internal/protocol/mmtls_client.go:144-155 | the next record is taken in any case, and counted only if it opens |
| MmtlsClient.Client.SendClientHello | internal/protocol/mmtls_client.go:181-188 | the hello put on the wire is the one fed to the transcript |
| MmtlsClient.Client.TakeHello | internal/protocol/mmtls_client.go:195-218 | accepts exactly P-256 ServerHellos whose key agrees; the handshake keys come from the hash of both hellos |
| MmtlsClient.Client.TakeMessage | internal/protocol/mmtls_client.go:246-252 | any other message is fed first, then a CertVerify is hashed or tickets are kept |
| MmtlsClient.Client.RecvEncryptedFlight | internal/protocol/mmtls_client.go:220-253 | the loop ends in the state that `EncryptedExactly` describes, having consumed and counted exactly that many records |
| MmtlsClient.Client.TakeFinished | internal/protocol/mmtls_client.go:229-245 | the final hash and the application keys come from the transcript before Finished, in any case; Finished is accepted, and fed, exactly when its verify data is the HMAC of that hash under the server's label, as `FinishedOkIs` says |
| MmtlsClient.Client.RecvServerFlight | internal/protocol/mmtls_client.go:190-254 | succeeds exactly on the flights described by `FlightExactly`, of any length, and leaves their transcript, hashes, keys and counter |
| MmtlsClient.Client.SendClientFinished | internal/protocol/mmtls_client.go:256-266 | sends the client's verify data over the hash taken before the server's Finished, sealed under the next number |
| MmtlsClient.Client.DoHandshake | internal/protocol/mmtls_client.go:268-276 | a handshake that returns has sent hello and Finished and accepted one server flight |
| MmtlsClient.ConnectMmtls | internal/protocol/mmtls_client.go:324-335 | for a new client: the flight is one, the transcript is the hello and every server message, rxSeq counts the server's records and txSeq is 2 |
| MmtlsClient.HelloOffers | internal/protocol/mmtls_client.go:157-179 | the hello sent, byte by byte, offers the key pair whose private half is kept under group 1 |
| MmtlsClient.HandshakeOnTheWire | internal/protocol/mmtls_client.go:181-276 | the bytes of a completed handshake parse to two records of type 16: the hello, and the client's Finished sealed under its key with number 1 |
| Flights.EncryptedExactly | internal/protocol/mmtls_client.go:220-253 | the message loop accepts exactly runs of openable messages ending in one valid Finished |
| Flights.FlightExactly | internal/protocol/mmtls_client.go:190-254 | a flight is accepted with given results if and only if it is one: the CertVerify hash is over everything up to the last CertVerify, the final hash over everything before Finished |
| Flights.HonestServerAccepted | internal/protocol/mmtls_client.go:190-254 | a server that sends a hello the client can agree on, any other messages and the Finished it owes, each sealed under the handshake keys, is accepted |
| Flights.HelloExactly | internal/protocol/mmtls_client.go:190-218 | a hello is accepted if and only if it splits, is of type 2, parses, is over group 1 and its key agrees; the secret is the SHA-256 of what was agreed |
| Flights.FinishedOkIs | internal/protocol/mmtls_client.go:229-243 | the Finished is good if and only if it holds HMAC(HMAC(secret, "server finished" 01), hash of the transcript before it) |
| MmtlsClient.RunNumbers | internal/protocol/mmtls_client.go:107-133 | in a run of sends, record i carries the first number plus i |
| MmtlsClient.SendRun | internal/protocol/mmtls_client.go:119-133 | any number of sends in a row puts exactly that sealed run on the wire |
| MmtlsClient.RunOnTheWire | internal/protocol/mmtls_client.go:119-133 | the bytes of a run are a stream of exactly its records |
| MmtlsClient.ReceiveRun | internal/protocol/mmtls_client.go:144-155 | a receiver counting from the sender's first number gets every plaintext back in order |
| MmtlsClient.NoncesMeet | internal/protocol/mmtls_crypto.go:80-88 | counting on from any number, two nonces are equal if and only if they are a multiple of 2^64 apart |
| MmtlsClient.NoncesDistinct | internal/protocol/mmtls_crypto.go:80-88 | no two records of a run of at most 2^64 records share a nonce, even if the counter wraps in between |
| Wpkg.SortedKeys | internal/protocol/ilink.go:118-145 | keys come out ascending whatever order the map yields them in |
| Wpkg.WpkgHead | internal/protocol/ilink.go:118-145 | what is written is the header of the two maps |
| Wpkg.HeadUnique | internal/protocol/ilink.go:118-145 | two maps have one header only, so map iteration order has no effect |
| Wpkg.DecodeWpkgHead | internal/protocol/ilink.go:214-265 | the reader computes the specified maps and length, or its error or panic |
| Wpkg.HeadReadBack | internal/protocol/ilink.go:118-145 | a header with keys in any order, followed by any body, decodes to both maps and its own size, and its trailing number is its own offset |
| Wpkg.HeadRoundTrip | internal/protocol/ilink.go:214-265 | the same for the header the code writes, for all maps with positive keys |
| Wpkg.SmallHeadIs | internal/protocol/ilink.go:118-145 | in bytes: 1, the integer pairs in order of key, 0, key, length and data of the other half, 0, and the offset of the last byte |
| Wpkg.LengthBeyondData | internal/protocol/ilink.go:240-252 | a length beyond the data is an error, or a panic exactly when its end passes the largest Go int |
| Ilink.SessionDecrypt | internal/protocol/ilink.go:440-469 | the search over offsets, skipping those already tried, returns the first that decrypts and decompresses |
| Ilink.SessionRoundTrip | internal/protocol/ilink.go:415-469 | every plaintext, the empty one too, survives compression, encryption and the search, behind any header with positive keys |
| Ilink.SessionExactly | internal/protocol/ilink.go:440-469 | the reply opens to a plaintext if and only if the offset behind its header does, or that fails and the first of 220 offsets from the start that opens gives it |
| Ilink.TryIs | internal/protocol/ilink.go:451-465 | one offset: ciphertext, twelve bytes of iv and sixteen of tag, opened without additional data, then decompressed |
| Ilink.BuildSessionInfo | internal/protocol/ilink.go:354-363 | the bytes are the message of its fields |
| Ilink.BuildLoginRequest | internal/protocol/ilink.go:380-388 | the bytes parse to the six fields of a login request, its session info nested inside |
| Ilink.BuildJsapiPlaintext | internal/protocol/ilink.go:365-401 | appending piece by piece yields the message that parses to what the caller asked for, field by field and level by level (`RequestIs`) |
| Ilink.RequestIs | internal/protocol/ilink.go:365-401 | the bytes parse to fields 1 to 10: session info, url, host, 5, login request, app id, command and three constants, with the default texts where nothing is given and each nested message down to its own fields |
| Ilink.RequestRecovered | internal/protocol/ilink.go:365-401 | parsing gives the request back, and the session info nested in its first field |
| Ilink.LoginRecovered | internal/protocol/ilink.go:365-401 | and the default login request with its own session info, level by level |
| Ilink.SessionWpkgHead | internal/protocol/ilink.go:403-413 | the header written is that of the session's fields |
| Ilink.SessionHeadIs | internal/protocol/ilink.go:403-413 | a reader of the header finds the account under 2 and 22, the constants under the other keys, and the device and f9 values |
| Ilink.PacketIsBytes | internal/protocol/ilink.go:422-437 | in bytes: the length, 0 38 and the url, 0 21 and the host, the inner length and the inner packet |
| Ilink.BuildTransferPacket | internal/protocol/ilink.go:415-438 | fails exactly on a bad key; the packet can be opened if and only if its length fits the leading four bytes, and then packet, shortlink frame and session payload give the plaintext back |
| Calendar.CivilOfNumber | internal/scriptrunner/cron.go:121-142 | year, month and day of a day number are the inverse of numbering valid dates |
| Calendar.YearStart | internal/scriptrunner/cron.go:121-142 | 365 days a year and one more for each leap year before: every fourth, except centuries not divisible by 400 |
| Calendar.KnownDays | internal/scriptrunner/cron.go:134-136 | 1 January 1970 is day 719162 and a Thursday, 29 February 2024 another, and weekdays follow one another from Sunday, 0, to Saturday, 6 |
| Calendar.DateRecurs | internal/scriptrunner/cron.go:120-132 | any 366 days in a row contain every date that every year has |
| GoText.SplitOfJoin | internal/scriptrunner/cron.go:62-64 | splitting at commas undoes joining of comma-free parts |
| GoText.FieldsOfJoin | internal/scriptrunner/cron.go:35-58 | fields joined by single spaces are found again |
| GoText.AtoiOfDecimal | internal/scriptrunner/cron.go:71-92 | the decimal form of any number in range is read back |
| GoText.AtoiSigned | internal/scriptrunner/cron.go:71-92 | either sign is read, up to 64 bits and no further; nothing, or a sign alone, is no number |
| GoText.FieldsSpaced | internal/scriptrunner/cron.go:35 | space of any kind and amount separates words and is otherwise ignored |
| Cron.ParsePart | internal/scriptrunner/cron.go:65-98 | one part becomes the specified step, or is refused |
| Cron.ParseCronField | internal/scriptrunner/cron.go:62-101 | the loop over parts computes the specified field, or an error if any part is bad |
| Cron.FieldRoundTrip | internal/scriptrunner/cron.go:62-101 | the text of any pieces, stars, values, spans and steps, parses to exactly what they mean, or to their error |
| Cron.NotFields | internal/scriptrunner/cron.go:62-94 | empty parts, text that is no number, steps of zero and spans with one or three bounds are refused |
| Cron.Field.Match | internal/scriptrunner/cron.go:103-110 | the search answers whether some step contains the value; `FieldMatches` says which values those are |
| Cron.FieldMatches | internal/scriptrunner/cron.go:95-110 | a parsed field matches exactly the values named by its pieces: those at a piece's distance from the start of its span, up to its end |
| Cron.PieceMatches | internal/scriptrunner/cron.go:69-110 | for one piece: `v == lo + j * step` for some j, and `v <= hi` |
| Cron.Quarters | internal/scriptrunner/cron.go:62-110 | `*/15` over 0 to 59 matches 0, 15, 30 and 45 and nothing else |
| Cron.UnrestrictedMatchesAll | internal/scriptrunner/cron.go:112-118 | a field that counts as unrestricted matches every value in its range |
| Cron.SomethingMatches | internal/scriptrunner/cron.go:95-98 | a parsed field is never empty |
| Cron.Schedule.MatchDay | internal/scriptrunner/cron.go:134-142 | day and weekday are alternatives if both are restricted and both required otherwise |
| Cron.RestrictedExactly | internal/scriptrunner/cron.go:112-118 | a field leaves its unit open if and only if it is one piece naming every value |
| Cron.DayRule | internal/scriptrunner/cron.go:134-142 | of day and weekday an unrestricted one has no say; of two restricted ones either is enough |
| Cron.ParseCron | internal/scriptrunner/cron.go:34-60 | five fields, each in its range, or an error |
| Cron.RawReparses | internal/scriptrunner/cron.go:58 | the text kept with a schedule parses to that very schedule again |
| Cron.CronRoundTrip | internal/scriptrunner/cron.go:34-60 | the text of any five fields parses to exactly the schedule they mean, or is refused if one of them is out of range |
| Cron.LeapDayParses | internal/scriptrunner/cron.go:34-60 | `0 0 29 2 *` is accepted, as midnight on 29 February |
| Cron.DailyParses | internal/scriptrunner/cron.go:34-60 | `32 16 * * *` is accepted, as 16:32 on every day |
| NextFiring.Matching | internal/scriptrunner/cron.go:125-128 | the test made of each minute, cut short at the first mismatch, answers whether the schedule fires then |
| NextFiring.FiresOn | internal/scriptrunner/cron.go:125-126 | a schedule fires at a given hour and minute of a day if and only if month, day, hour and minute all match |
| NextFiring.DailyFires | internal/scriptrunner/cron.go:34-60 | so `32 16 * * *` fires at minute 992 of every day and at no other |
| NextFiring.Next | internal/scriptrunner/cron.go:121-132 | the minute-by-minute loop computes the specified search |
| NextFiring.NextIsLeast | internal/scriptrunner/cron.go:120-132 | the answer is the least firing minute strictly later and within 366 days; no answer means there is none |
| NextFiring.NextInNanoseconds | internal/scriptrunner/cron.go:120-132 | the same in nanoseconds, with minutes of 60 and days of 86400 seconds |
| NextFiring.NeverZeroExactly | internal/scriptrunner/cron.go:120-142 | an answer exists from every starting time if and only if weekdays are restricted, or days are not, or some named date occurs every year; leaving out all times before a given one changes nothing |
| NextFiring.EveryMonthNeverZero | internal/scriptrunner/cron.go:120-142 | so a schedule open to every month always has a next firing |
| NextFiring.LeapDayFires | internal/scriptrunner/cron.go:120-142 | `0 0 29 2 *` fires at the start of every 29 February |
| NextFiring.LeapDayNeverAgain | internal/scriptrunner/cron.go:120-132 | for 1095 days from any firing of a schedule for 29 February alone no next one is found |
| NextFiring.LeapGapIsExact | internal/scriptrunner/cron.go:120-132 | and for no longer: 1095 days after a 29 February, four years before the next one, that one is found again |
| Scheduler.NextUnixFires | internal/scriptrunner/runner.go:440-445 | the Unix second stored is a firing of the expression and later than the time asked about |
| Scheduler.NextUnixIsFirst | internal/scriptrunner/runner.go:440-445 | no earlier second of a firing is passed over, and none within 366 days when nothing is found |
| Scheduler.EpochIs | internal/scriptrunner/runner.go:440-445 | the Unix epoch is 1 January 1970, and a Unix second taken to local time and back is itself |
| Scheduler.AcceptedFires | internal/scriptrunner/runner.go:429-449 | what `SetSchedule` stores fires at the time stored with it |
| Scheduler.AdvancedMoves | internal/scriptrunner/runner.go:551-559 | a tick creates no entry, changes no other, keeps the expression, and moves `Next` to the next firing, past the tick, whenever one is found |
| Scheduler.CoalescesExactly | internal/scriptrunner/runner.go:530-561 | after a launch the entry is no longer due if and only if a next firing is found |
| Scheduler.NextUnixAlwaysExactly | internal/scriptrunner/runner.go:440-443 | at all Unix times from any time on a next firing is found, if and only if the expression fires every year |
| Scheduler.EveryLaunchMovesExactly | internal/scriptrunner/runner.go:530-561 | every launch of an entry with this expression, whenever it comes, moves the entry, if and only if the expression fires every year |
| Scheduler.LeapDayCanBeMissed | internal/scriptrunner/runner.go:440-443 | `0 0 29 2 *` parses, and as late as one likes there are times at which it has no next firing |
| Scheduler.EveryMonthCoalesces | internal/scriptrunner/runner.go:530-561 | which is always so for schedules open to every month |
| Scheduler.LeapDayNeverCoalesces | internal/scriptrunner/runner.go:551-559 | and never so, for 1095 days, for one meant for 29 February alone |
| Scheduler.LeapDayRelaunched | internal/scriptrunner/runner.go:429-457 | in any leap year from 1972 on `0 0 29 2 *` is accepted and stored with that year's firing, and from then on for 1095 days every tick finds it due and leaves it as it is |
| SchedulerLoop.NoLostWakeup | internal/scriptrunner/runner.go:196-242 | in every run, a blocked loop has a wake pending or on its way, or a timer set for the earliest firing now stored, at most 60 seconds away and late by no more than the arming took |
| SchedulerLoop.OnTimeExactly | internal/scriptrunner/runner.go:213-234 | when that timer is not late at all: if and only if nothing passed while arming, or the wait was zero, or it was cut with enough to spare |
| SchedulerLoop.TimerCanBeLate | internal/scriptrunner/runner.go:196-234 | a run in which it is |
| SchedulerLoop.StoredEntriesFire | internal/scriptrunner/runner.go:429-457 | in every run, every entry is as loaded or fires at its stored time |
| SchedulerLoop.LaunchesHaveFiringsBetween | internal/scriptrunner/runner.go:530-561 | the stored expression of an entry found due again fires after the tick that launched it and by now, so missed firings come to one launch |
| SchedulerLoop.DueExactly | internal/scriptrunner/runner.go:530-542 | a tick launches a script if and only if its stored second has come and it is not running, and each once |
| SchedulerLoop.TickMoves | internal/scriptrunner/runner.go:551-560 | behind a launch the tick goes on with the rest; only that entry changes, and it is still due if and only if no next firing was found |
| SchedulerLoop.OnlySetCreates | internal/scriptrunner/runner.go:530-565 | no step of a tick brings back an entry cleared while it ran |
| SchedulerLoop.LoopGoesOn | internal/scriptrunner/runner.go:196-210 | whatever the others do, the loop has a step to take within a minute |
| RunnerObject.Runner.NextWakeDelay | internal/scriptrunner/runner.go:213-234 | the loop over the table finds the one earliest positive firing and the wait for it |
| RunnerObject.Runner.Wake | internal/scriptrunner/runner.go:237-242 | afterwards the one-place channel is full, whether it was before or not |
| RunnerObject.Runner.SetSchedule | internal/scriptrunner/runner.go:429-449 | stores exactly the accepted entry and wakes the loop, or changes nothing |
| RunnerObject.Runner.ClearSchedule | internal/scriptrunner/runner.go:451-457 | removes that entry only and wakes the loop |
| RunnerObject.Runner.CollectDue | internal/scriptrunner/runner.go:530-543 | lists each due and not running script once, and no other |
| RunnerObject.Runner.MoveEntry | internal/scriptrunner/runner.go:551-560 | the table afterwards is the one `AdvancedMoves` speaks about |
| RunnerObject.Runner.BeginRun | internal/scriptrunner/runner.go:329-342 | refuses exactly the running scripts; otherwise lists a new run and changes no other |
| RunnerObject.Runner.StopRun | internal/scriptrunner/runner.go:383-392 | cancels exactly the run of a running script; no run is finished by it |
| RunnerObject.Runner.Finish | internal/scriptrunner/runner.go:459-469 | takes exactly this run out of the running ones |
| RunTable.OneRunPerScript | internal/scriptrunner/runner.go:317-392 | in every reachable state at most one run of a script is unfinished, and it is the one listed |
| RunTable.FinishedForGood | internal/scriptrunner/runner.go:459-469 | a finished run never becomes unfinished |
| RunTable.DoneClosedOnce | internal/scriptrunner/runner.go:344-379 | `done` is closed at most once, on whichever path, only when finished, and can always still be closed |
| RunTable.BeginExactly | internal/scriptrunner/runner.go:329-342 | a run is admitted if and only if every earlier run of that script has finished |
| LogStream.Stream.Subscribe | internal/scriptrunner/runner.go:73-77 | adds exactly this subscriber |
| LogStream.Stream.Unsubscribe | internal/scriptrunner/runner.go:79-83 | takes out exactly this subscriber |
| LogStream.Stream.Publish | internal/scriptrunner/runner.go:85-94 | every subscriber is offered the chunk, and only full channels drop it |
| LogStream.NoGapExactly | internal/scriptrunner/runner.go:474-503 | nothing published is missed if and only if the file read was this run's, or nothing had been published before subscribing |
| LogStream.OwnExactly | internal/scriptrunner/runner.go:348-349 | the path leads to this run's log if and only if it was created and has been neither deleted nor replaced since |
| LogStream.NoGapInHistory | internal/scriptrunner/runner.go:474-503 | so in terms of what happened, nothing is missed if and only if nothing had been published before, or the log was created before the read and left alone in between |
| LogStream.CoveredIsShown | internal/scriptrunner/runner.go:474-503 | a covered chunk stands whole in what was read, or came through the channel at its place |
| LogStream.ReceivedInOrder | internal/scriptrunner/runner.go:73-111 | the chunks received are some of those published since subscribing, unchanged, each once and in order |
| LogStream.NothingDropped | internal/scriptrunner/runner.go:85-94 | in every run, a channel that never held 256 chunks has carried all that was published since subscribing |
| LogStream.ShownIsLogWithOverlap | internal/scriptrunner/runner.go:474-503 | an attentive subscriber sees the whole log with one stretch doubled |
| LogStream.SeenOnceExactly | internal/scriptrunner/runner.go:495-502 | that stretch is empty if and only if the file held no more than had been published before subscribing |
| LogStream.RepeatsHappen | internal/scriptrunner/runner.go:495-502 | a run in which it is not |
| LogStream.GapsHappen | internal/scriptrunner/runner.go:421 | a run in which deleting the log leaves a gap |
| LogStream.OneLog | internal/scriptrunner/runner.go:344-360 | a run creates its log once and writes nothing before |
| LogStream.NothingAfterEnd | internal/scriptrunner/runner.go:459-469 | when a run ends all it wrote has been published, and nothing more is written, published or joined |
| SplitArgs.Split | internal/scriptrunner/runner.go:618-655 | the flag-driven loop computes the specified scan |
| SplitArgs.NoArgumentEmpty | internal/scriptrunner/runner.go:627-632 | no argument returned is empty, whatever the input |
| SplitArgs.SplitUndoesQuoting | internal/scriptrunner/runner.go:614-655 | words written in any mixture of bare, escaped, single- and double-quoted parts come back as what they mean, if and only if the line does not begin with a bare white-space character or end with a bare or escaped one |
| SplitArgs.PosixRoundTrip | internal/scriptrunner/runner.go:614-655 | quoting any list of texts for a POSIX shell and splitting gives the list back without its empty texts |
| SplitArgs.PosixRoundTripExactly | internal/scriptrunner/runner.go:614-655 | so exactly the lists without empty texts survive |
| SplitArgs.EscapedEndIsTrimmed | internal/scriptrunner/runner.go:619 | an escaped space at the very end is trimmed and leaves the backslash |
| SplitArgs.OpenQuote | internal/scriptrunner/runner.go:638-653 | a quote left open ends with the text |
| LoginPool.LockNameInjective | internal/protocol/pool.go:193 | different accounts or proxies never share a lock |
| LoginPool.SessionExpiresAt | internal/protocol/pool.go:353-361 | a stored session expires no later than its key and than the configured lifetime |
| LoginPool.SingleFlight | internal/protocol/pool.go:187-234 | in every run, two logins for one account and proxy never overlap |
| LoginPool.LoginsBounded | internal/protocol/pool.go:330-344 | at most the configured number of logins are under way |
| LoginPool.LoginOnlyWhenMissing | internal/protocol/pool.go:193-211 | a login begins and goes on only under its lock and while the store holds no unexpired session |
| LoginPool.CachedIsValid | internal/protocol/pool.go:188-197 | a session taken from the store has a key not yet expired at that moment |
| LoginPool.PutServesOthers | internal/protocol/pool.go:196-222 | a login is stored under its key alone, until its own key or the configured lifetime runs out, and everybody else's next look at that key hits |
| LoginPool.HoldersNeverWait | internal/protocol/pool.go:205-222 | whoever holds the semaphore can always take its next step |
| LoginPool.NoDeadlock | internal/protocol/pool.go:187-234 | while a call is unfinished, some caller can go on |
| LoginPool.StepsRunOut | internal/protocol/pool.go:187-223 | each step of a caller uses up one of at most nine, so calls come to an end |
| LoginPool.Pool.LockFor | internal/protocol/pool.go:225-234 | one lock per key, the same one ever after, shared by no other key |
| LoginPool.Pool.StateUnderLock | internal/protocol/pool.go:196-222 | a stored session is returned untouched; otherwise, if the semaphore lets it in, a login is stored with its expiry; the semaphore is given back on every path |
| LoginLimiter.App.AllowLogin | internal/httpapi/auth.go:238-247 | answers for one client and drops its window only once expired |
| LoginLimiter.App.RecordLoginFailure | internal/httpapi/auth.go:249-258 | counts into the current window or opens a new one, for that client only |
| LoginLimiter.App.HandleLogin | internal/httpapi/auth.go:153-164 | a request changes only its own client's entry, as the per-client model says |
| LoginLimiter.HandleExactly | internal/httpapi/auth.go:153-164 | refused if and only if eight failures stand in a window begun less than fifteen minutes ago; a success clears the entry |
| LoginLimiter.AtMostEightPerWindow | internal/httpapi/auth.go:238-258 | for a client that only fails: at most eight failures per window, and windows start fifteen minutes apart |
| LoginLimiter.AtMostFifteen | internal/httpapi/auth.go:238-258 | any half-open fifteen minutes hold at most fifteen recorded failures |
| LoginLimiter.FifteenReached | internal/httpapi/auth.go:238-258 | requests that reach fifteen |
| LonglinkOrder.Pick | internal/protocol/newdns.go:241-251 | the nested loops pick exactly one target per address offering a preferred port, on its most preferred one |
| LonglinkOrder.BestIs | internal/protocol/newdns.go:241-251 | the best target of an address is on 8080, else 80, else 443, else 5000 |
| LonglinkOrder.StableSortIsStable | internal/protocol/newdns.go:255 | the sort only reorders, orders addresses, and keeps targets of one address as they were |
| LonglinkOrder.LessExactly | internal/protocol/newdns.go:255 | one address is before another if and only if it has the smaller character where they first differ, or ends there |
| LonglinkOrder.OrderLonglinkTargets | internal/protocol/newdns.go:240-260 | the best targets in strict order of address, or else all targets stably sorted, cut to the first `max` |
| LonglinkOrder.OrderIndependent | internal/protocol/newdns.go:240-255 | the order in which targets were found, and repeats among them, make no difference |

## Left out

- MmtlsClient.ConnectMmtls: says nothing about the fields after a handshake that fails; the source abandons such a client.
- LoginPool.Pool.StateUnderLock: a wait for the semaphore that others end by releasing it is part of the transition system, not of the object, where nobody else acts.
- LoginLimiter.AtMostFifteen: requests of one client are handled one at a time; `allowLogin` and `recordLoginFailure` are separate critical sections, and parallel requests can pass the check together.
- LogStream.ReceivedInOrder: chunks still in a channel when the connection handler sees the end of the run are not promised to be sent.
- NextFiring.Next: zones have a fixed offset of whole minutes; daylight saving is not modelled.
- SplitArgs.Split: strings are sequences of characters; bytes that are not valid UTF-8 are not modelled.
- Sockets, proxies, deadlines, HTTP, DNS queries, process execution and the file system appear as chunks, outcomes and clock readings given to the model.
- The insides of AES-GCM, HMAC, SHA-256, P-256 and random generation.
- Bitwise `or` of disjoint bits is modelled as a sum, shifts as multiplication; slices out of range are an explicit panic outcome.
- Error texts: errors are told apart only where the code goes on differently.
- The tables of the database, other than sessions as a map with the expiry filter; the JSON form of a session, whose numbers pass through floating point.
- `saveSchedules` and its file, and the order in which concurrent saves land; loading takes any stored table whose expressions parse.
- `sendApp`, `recvApp`, `extractPSKs` and the 0-RTT shortlink exchange, which put together the records, packets and sessions proved here.
- The hybrid ECDH login body, `manualauth`, host signatures, phone and operate requests, and `protobufToMap`.
- Keep-alive classification, QR login, the HTTP handlers, configuration, user interface and SDK.
