# Verified models of the vendored protocol code

The app itself is a thin client; what is intricate in this repository is the C and C++ code it
vendors. This project models three parts of it in Dafny and proves what they promise:

- **The DTLS handshake transport** of BoringSSL (RFC 6347 sections 4.1, 4.1.2.6, 4.2.3 and 4.2.4).
  A sender cuts a flight of messages into MTU-sized fragments, seals them under two live epochs and
  rewinds on failure; a receiver filters replays with a 64-bit window, reassembles fragments with a
  bit mask, and delivers from a seven-slot ring. The main theorems are end-to-end delivery over a
  network that drops, duplicates and reorders; that delivery can always go on; and what becomes of any
  record and any fragment, said on the bytes.
- **The nanopb codec** (Protocol Buffers Encoding: base 128 varints, length-delimited records, packed
  repeated fields): descriptor-driven encoding and decoding with substreams, a field iterator and a
  bitset of required fields. The main theorems are that encodings are messages of the format, byte for
  byte; that any message of the format, whoever wrote it, is decoded as its records say; and that decoding
  an encoding merges it into what was there, exactly when the arrays have room, from which follow the
  round trip and the concatenation law.
- **The TLS write path and the TLS 1.0 to 1.2 handshake machines**: wire order and exactly-once sealing
  under non-blocking writes, with every refusal accounted for; agreement and completion of client and server
  over all runs, and exactly which peers each of them finishes with; cipher choice by equal-preference
  groups; and the compare-and-swap reference count.

## How the model is built

Code that changes state in place is a class or a method with loops, shown equal to a specification on
values; the theorems are about the specification.

| part | state and loops | specification | theorems |
|---|---|---|---|
| DTLS receive | `replay_window`, `reassembly`, `dtls_reader` | `dtls_receiver` | `dtls_assembly`, `dtls_opening`, `dtls_any_peer` |
| DTLS send | `dtls_writer` | `dtls_sender` | `fragmentation` |
| DTLS runs | | `dtls_transport` | `dtls_window`, `dtls_send_steps`, `dtls_receive_steps`, `dtls_delivery`, `dtls_sealing`, `dtls_progress` |
| records | `aead_context` | `ciphers`, `wire`, `words` | `aead_context` |
| TLS write | `ssl_buffer`, `tls_writer`, `tls_messages` | the same files | the same files, `tls_runs` |
| nanopb encode | `pb_ostream`, `pb_singular`, `pb_encoder` | `pb_encoding` | `pb_varint`, `pb_encoding`, `pb_format`, `pb_refusals` |
| nanopb decode | `pb_istream`, `pb_iterator`, `pb_decoder` | `pb_decoding` | `pb_seen`, `pb_laws`, `pb_wire`, `pb_schema` |
| nanopb failing | `pb_decoder` | `pb_left` | `pb_exposure`, `pb_sheltered` |
| nanopb both | | `pb_messages`, `pb_merge` | `pb_bounds`, `pb_merging`, `pb_overflow`, `pb_round_trip`, `pb_laws` |
| handshake | `handshake_script` (the dispatch loop) | `handshake_client`, `handshake_server`, `handshake_agreement` | `handshake_client_steps`, `handshake_server_steps`, `handshake_runs`, `handshake_completion`, `handshake_refusal`, `handshake_acceptance` |
| others | `cipher_choice`, `refcount` | the same files | the same files |

Machine words are natural numbers with their width written out: `words` gives bits, shifts, or, and,
xor and complement, and each bit trick of the source is proved against its meaning.

## What is assumed

- An AEAD is an abstract function: opening undoes sealing, and sealing adds at most the overhead.
  `AeadContext.ContextIsSoundCipher` shows that every context built on such an AEAD is a record cipher
  of the kind the DTLS theorems need.
- `tls_seal_record` is taken by its contract in `internal.h`: it fails, or yields bytes within the
  maximum overhead.
- A transport write takes some bytes from the front (a whole datagram for DTLS), or fails.
- DTLS runs: the sender queues at most 65536 messages more than were delivered, each side changes
  ciphers at most 65535 times, and sealing stops at the first wraparound of a sequence number.
  The guard of `Enabled` in `dtls_transport` says so.
- Progress of DTLS: one DTLS version; ciphers that seal every plaintext of at most 16384 bytes
  (`KeysSeal`); packets of at least 26 bytes more than the overhead and at most 16397; and sequence numbers
  left for one more transmission of the flight. `Deliverable` in `dtls_progress` says what has to hold of the
  state: the message waited for is in the flight and of the epoch the receiver reads, and nothing still to be
  read is one that the receiver treats as an error.
- nanopb: descriptors have distinct nonzero tags below 2^29 and slots shared only by the members of a
  oneof; a singular field has no default value, and the size of its type; the size type `pb_size_t` has
  1, 2 or 4 bytes, and no theorem depends on which; the number of required fields is below 64 and not a
  nonzero multiple of 32, because the last shift of the check is by a whole word there and reads past the
  two words at 64 (`pb_decode.c` line 947); encodings are shorter than 2^32 bytes, and in
  `PbSheltered.StaysIfSheltered` messages nest at most 2^28 deep, so that there are such bytes. A string in
  the round trip ends inside its array before any other zero byte.
- Handshake: the negotiated parameters are equal on both sides, and consistent in the sense of
  `Params.Agreed`.

## What the proofs found

- The two "too far ahead" guards of `d1_both.cc` differ by one: a fragment numbered `read_seq + 7`
  passes lines 380-385 and is then an error at lines 267-271 (`DtlsAssembly.SevenAheadIsFatal`). The model
  keeps both; `DtlsAssembly.TakenIfWanted` says exactly which fragments of an honest message are taken.
- The seven-slot ring needs no assumption that the 16-bit message number does not wrap, although 65536
  is not a multiple of 7: at 65535 no later message can be held. End-to-end delivery also survives
  the wrap, because a record whose message number would be misread belongs to a message so old that
  the replay window has passed it (`DtlsWindow.NumberNamesMessage`).
- When `seal_next_packet` fails in the middle of a packet, `send_flight` returns without putting the
  write position back, so those messages are sent only by a retransmission. The position stays where it
  was exactly when not even the first record of the packet was sealed (`Fragmentation.PacketLeaves`);
  `Fragmentation.LatePacketIsLost` has an input where it does not, and `SendFlight` returns what was lost.
- `SSLBuffer` keeps its offset in 16 bits. Partial writes keep their place, for all contents, exactly when
  the contents end at 2^16 or before (`SslBuffers.InPlaceIfFits`); since `EnsureCap` aligns by up to 7
  bytes, a buffer asked for w bytes is safe exactly when w is at most 65529 or is refused
  (`SslBuffers.SafeIfRoom`). Wire order is therefore proved when the buffer there is large enough for
  w = rest of the flight + record + overhead, or w is not one of 65530 to 65535; a caller can check this
  beforehand. `TlsRuns.Run` proves it over whole runs, and `TlsWriter.WireOrderLost` shows the order lost
  for the sizes between.
- When sealing fails after the flight was moved into the write buffer, `do_ssl3_write` refuses every
  later record until something else flushes the buffer.
- `ssl3_write_app_data` called with fewer bytes than were already written refuses, but also forgets how
  much was written.
- In nanopb a message that is cut inside a tag decodes as if it ended before the tag exactly when at most
  five bytes of the tag are left (`PbLaws.CutTagEndsMessage`). A descriptor without fields takes tag 0 for
  its terminator and fails on it.
- A failing `pb_decode` can leave the struct out of bounds. The count of an array is raised, and the tag of a
  oneof set, before the field is decoded; when the length of its bytes cannot be read or is refused, or the
  length of an entry that is a message cannot be read, whatever the memory held is then part of the message.
  `PbExposure.StaysUnlessExposed` and `PbSheltered.StaysIfSheltered` say exactly when, for given bytes and
  for a given message, and `PbSheltered.SizeOfInteger` has an input. The counts that were written stay within
  their arrays all the same (`PbSheltered.LoopContained`).
- `pb_decode_noinit` of `a ++ b` is decoding `a` and then `b`, whatever `b` is, exactly when the message
  has no required field or `a` does not fit in: the second call checks the required fields on `b` alone, so
  the empty `b` is a counterexample otherwise (`PbLaws.ConcatenationAgrees`). When `b` is an encoding too
  the two always agree (`PbLaws.EncodingsConcatenate`).
- With equal-preference groups nothing is chosen although something is acceptable exactly when every
  acceptable cipher stands behind the last group flag 0 (`CipherChoice.OpenGroupIsLost`); with the last
  flag 0 none is lost.

## Model

| member | source | states |
|---|---|---|
| `DtlsDelivery.EndToEndDelivery` | seniorProject/Pods/BoringSSL/ssl/d1_both.cc:265-438 | Over every run of a sender, a receiver and a network that drops, duplicates and reorders datagrams, with any packet sizes, failed writes, retransmissions and cipher changes, the messages handed out, the one in hand included, are a prefix of the messages queued, in order and byte for byte (section 4.2.3 of RFC 6347). Holds across the wrap of the 16-bit message number |
| `DtlsDelivery.NoSequenceReuse` | seniorProject/Pods/BoringSSL/ssl/dtls_record.cc:294-351 | No two records sealed in a run have the same epoch and sequence number, although retransmission seals with the current and the previous epoch, as long as sealing stops at the first wraparound |
| `DtlsDelivery.SingleEpochAssembly` | seniorProject/Pods/BoringSSL/ssl/d1_both.cc:373-402 | In every reachable state an occupied ring slot i holds a message numbered i modulo 7 in the receive window, assembled from the records of one read epoch; an unfinished one is of the current epoch |
| `DtlsDelivery.StepKeepsGood` | seniorProject/Pods/BoringSSL/ssl/d1_both.cc:297-406 | Every step of either side or the network keeps the invariant: sealed records open to slices of queued messages, numbers in use are below the counters, and what the ring holds agrees with what was queued |
| `DtlsProgress.DeliveryGoesOn` | seniorProject/Pods/BoringSSL/ssl/d1_both.cc:822-831 | Progress. From every reachable state of a live connection whose keys seal, in which the message waited for is still in the flight and of the current epoch and nothing in flight is out of turn, some steps deliver that message next: what is left of a datagram is read, the flight retransmitted, and its packets taken up one by one |
| `DtlsProgress.NextIsDelivered` | seniorProject/Pods/BoringSSL/ssl/d1_both.cc:768-813 | The same from every state that satisfies the invariant, reachable or not |
| `DtlsProgress.FirstIsDelivered` | seniorProject/Pods/BoringSSL/ssl/d1_both.cc:511-580 | The first message of a connection, of any type and any length the receiver takes, can be delivered: nothing is assumed but keys that seal and a packet size |
| `DtlsProgress.FlightRuns` | seniorProject/Pods/BoringSSL/ssl/d1_both.cc:780-800 | From any position, packets sent and read one after the other leave the message waited for complete |
| `DtlsProgress.ReadsDatagram` | seniorProject/Pods/BoringSSL/ssl/d1_both.cc:297-406 | A datagram of fresh records of the flight is read to its end, without an alert, and the bytes of the message waited for go up to where the datagram ends |
| `DtlsProgress.HarmlessIsOpened` | seniorProject/Pods/BoringSSL/ssl/dtls_record.cc:177-272 | A record of an honest sender that is of another epoch, a replay, or not out of turn is opened without an alert |
| `DtlsSealing.PacketSeals` | seniorProject/Pods/BoringSSL/ssl/d1_both.cc:725-766 | With keys that seal and numbers left, sealing a packet succeeds from every position of the flight, moves it strictly on, and uses one number a record |
| `DtlsWindow.AcceptedAhead` | seniorProject/Pods/BoringSSL/ssl/dtls_record.cc:155-175 | The record accepted for the message n flights after a given record's message has a sequence number at least n larger |
| `DtlsWindow.NumberNamesMessage` | seniorProject/Pods/BoringSSL/ssl/d1_both.cc:373-402 | A record that the replay window lets through, with a message number in the receive window, carries the one message that number stands for now |
| `DtlsAssembly.RingHoldsUnion` | seniorProject/Pods/BoringSSL/ssl/d1_both.cc:350-403 | Fragments of the right messages, in any order and however they overlap or repeat, are taken without an alert, and each message of the window then holds exactly its old offsets and those the fragments cover |
| `DtlsAssembly.CoveredMessageIsDelivered` | seniorProject/Pods/BoringSSL/ssl/d1_both.cc:408-424 | Once the fragments cover the current message, it is handed out whole and with the right bytes |
| `DtlsAssembly.OneFragmentAdds` | seniorProject/Pods/BoringSSL/ssl/d1_both.cc:380-402 | One fragment adds to the ring exactly its own range, to its own message only |
| `DtlsAssembly.TakenIfWanted` | seniorProject/Pods/BoringSSL/ssl/d1_both.cc:367-402 | A fragment of an honest message is taken without an alert iff it is within the length limit, of the one message of the encrypted epoch, and not numbered read_seq + 7 |
| `DtlsAssembly.SevenAheadIsFatal` | seniorProject/Pods/BoringSSL/ssl/d1_both.cc:265-271 | One numbered read_seq + 7 passes the first guard and is an internal error at the second, whatever the ring holds |
| `DtlsAnyPeer.FragmentIsTaken` | seniorProject/Pods/BoringSSL/ssl/d1_both.cc:362-396 | For any fragment, honest or not: it is taken just when it is within its message and the limit, is the one waited for if the cipher is just on, is not exactly seven ahead and does not contradict what is held under its number. A refused one leaves the receiver as it was; which alert each refusal has |
| `DtlsAnyPeer.TakenIsStored` | seniorProject/Pods/BoringSSL/ssl/d1_both.cc:286-293 | One that is taken adds its bytes to the message of its number, type and length unless that is complete, and changes nothing else |
| `DtlsAnyPeer.DeliveredHasArrived` | seniorProject/Pods/BoringSSL/ssl/d1_both.cc:350-424 | Whatever a peer sends: every byte of a message that is handed out came, at its offset, in a fragment of the number waited for with the type and length of the message |
| `DtlsAnyPeer.RunStops` | seniorProject/Pods/BoringSSL/ssl/d1_both.cc:350-403 | A record is worked off up to its first refused fragment, with its alert |
| `DtlsAnyPeer.TornRunIsError` | seniorProject/Pods/BoringSSL/ssl/d1_both.cc:356-361 | Good fragments and then a cut one are taken, and the cut one is a decode error |
| `DtlsAnyPeer.CipherChangesIfDrained` | seniorProject/Pods/BoringSSL/ssl/dtls_method.cc:81-95 | A new read cipher is taken on just when no ChangeCipherSpec waits and no message but the one handed out is held; then records of the next epoch count and no number of it is a replay |
| `DtlsAnyPeer.FlaggedCcsIsTaken` | seniorProject/Pods/BoringSSL/ssl/d1_both.cc:485-489 | A ChangeCipherSpec that came before is taken once, whatever bytes are there |
| `DtlsAnyPeer.CcsIsTaken` | seniorProject/Pods/BoringSSL/ssl/d1_both.cc:475-491 | Otherwise the call succeeds just when a good ChangeCipherSpec record is in front; anything else has the outcome of dtls1_open_handshake, a success of which is a discard here |
| `DtlsReceiver.SlotHoldsOneMessage` | seniorProject/Pods/BoringSSL/ssl/d1_both.cc:273-276 | Two numbers of the receive window never share a ring slot, which the source asserts |
| `DtlsReceiver.ReceiveFragmentsKeepsInv` | seniorProject/Pods/BoringSSL/ssl/d1_both.cc:350-403 | Any bytes of a handshake record, well-formed or not, leave the ring in order: each slot inside the window, of one epoch, with no byte beyond its message |
| `DtlsReceiver.NextMessageKeepsInv` | seniorProject/Pods/BoringSSL/ssl/d1_both.cc:426-438 | Delivery moves the window by one; at 65535 nothing else is held, so the wrap to 0 leaves nothing out of place |
| `DtlsReceiver.SetReadStateKeepsInv` | seniorProject/Pods/BoringSSL/ssl/dtls_method.cc:81-95 | A cipher change goes through only when nothing but the finished current message is held |
| `DtlsReceiver.OpenHandshakeKeepsInv` | seniorProject/Pods/BoringSSL/ssl/d1_both.cc:297-406 | Opening any datagram keeps the receiver's invariant |
| `ReplayWindow.Dtls1Bitmap.ShouldDiscard` | seniorProject/Pods/BoringSSL/ssl/dtls_record.cc:140-150 | A number is discarded iff it was accepted before or is at least 64 behind an accepted one (section 4.1.2.6 of RFC 6347) |
| `ReplayWindow.Dtls1Bitmap.Record` | seniorProject/Pods/BoringSSL/ssl/dtls_record.cc:155-175 | Recording adds exactly that number to the accepted set; the map keeps bit i set iff max - i was accepted |
| `ReplayWindow.Dtls1Bitmap.Clear` | seniorProject/Pods/BoringSSL/ssl/dtls_method.cc:89-93 | An epoch change empties the set |
| `ReplayWindow.TestDecides` | seniorProject/Pods/BoringSSL/ssl/dtls_record.cc:140-150 | Ahead of the window a number is fresh, behind it stale, and inside it the map bit decides |
| `ReplayWindow.SlideKeepsBits` | seniorProject/Pods/BoringSSL/ssl/dtls_record.cc:160-169 | Shifting the 64-bit map when the maximum grows keeps what it says of the accepted numbers, also for shifts of 64 and more |
| `ReplayWindow.MarkAddsNumber` | seniorProject/Pods/BoringSSL/ssl/dtls_record.cc:171-174 | Setting the bit for a number in the window adds exactly that number |
| `Reassembly.HmFragment.Mark` | seniorProject/Pods/BoringSSL/ssl/d1_both.cc:211-251 | After marking a range the received offsets are the old ones and the range; a range outside the message changes nothing; the mask is released iff the whole message is covered |
| `Reassembly.HmFragment.Receive` | seniorProject/Pods/BoringSSL/ssl/d1_both.cc:399-402 | Copying and marking a fragment body adds its bytes at its offsets and changes nothing else |
| `Reassembly.HmFragment.constructor` | seniorProject/Pods/BoringSSL/ssl/d1_both.cc:152-199 | A new message has no bytes, and is complete at once iff its length is 0 |
| `Reassembly.HmFragment.PendingIsIncomplete` | seniorProject/Pods/BoringSSL/ssl/d1_both.cc:255-259 | The mask is gone exactly when the message is complete |
| `Reassembly.SetRange` | seniorProject/Pods/BoringSSL/ssl/d1_both.cc:226-236 | The three writes, a first byte, whole bytes and a last byte, mark exactly start to end |
| `Reassembly.IsFull` | seniorProject/Pods/BoringSSL/ssl/d1_both.cc:238-247 | The byte-wise check succeeds iff every bit below the message length is set |
| `Reassembly.BitOfRange` | seniorProject/Pods/BoringSSL/ssl/d1_both.cc:203-205 | bit_range(start, end) in 32-bit arithmetic has exactly the bits from start to end set |
| `Reassembly.OrRangeMarks` | seniorProject/Pods/BoringSSL/ssl/d1_both.cc:226-236 | Or-ing bit_range into byte i marks exactly those positions of the message |
| `Reassembly.ByteIsMask` | seniorProject/Pods/BoringSSL/ssl/d1_both.cc:238-247 | A byte equals bit_range(0, k) iff exactly its first k positions are marked |
| `Reassembly.CopyInto` | seniorProject/Pods/BoringSSL/ssl/d1_both.cc:400-401 | The body replaces exactly its range of the buffer |
| `Reassembly.PieceStored` | seniorProject/Pods/BoringSSL/ssl/d1_both.cc:400-402 | The bytes received before, overwritten by the fragment's, are the received bytes afterwards |
| `DtlsReader.Reader.OpenRecord` | seniorProject/Pods/BoringSSL/ssl/dtls_record.cc:177-272 | In place as the specification, which `DtlsOpening` describes on the bytes; the window is updated only for a record that opens |
| `DtlsOpening.GoodRecordIsTaken` | seniorProject/Pods/BoringSSL/ssl/dtls_record.cc:188-272 | Said on the bytes: a handshake record of the read epoch that is fresh, of major version 0xfe (under a cipher, of its version), not too long, and opens to a run of wanted fragments is opened whatever follows it; it alone is consumed, its number is marked, and each message of the window gains exactly what the fragments cover |
| `DtlsOpening.GoodRecordTakesSlot` | seniorProject/Pods/BoringSSL/ssl/d1_both.cc:280-293 | A fragment of the message waited for gives it its slot |
| `DtlsOpening.RecordOpens` | seniorProject/Pods/BoringSSL/ssl/dtls_record.cc:232-271 | What becomes of any record that opens: an overflow beyond 16384 bytes, an alert, or its type and plaintext |
| `DtlsOpening.CcsRecordIsFlagged` | seniorProject/Pods/BoringSSL/ssl/d1_both.cc:320-341 | A ChangeCipherSpec record sets the flag before the first cipher change if it is the byte 1; later it is an unexpected message |
| `DtlsOpening.OtherRecords` | seniorProject/Pods/BoringSSL/ssl/d1_both.cc:306-347 | Alerts are handed on; application data is dropped under a cipher and an error without one; other types are errors; the ring is untouched |
| `DtlsOpening.BadRecordIsDropped` | seniorProject/Pods/BoringSSL/ssl/dtls_record.cc:194-245 | Every other record leaves the receiver as it was: of another version or too long it takes the rest of the datagram with it, of another epoch, a replay or undecryptable it is dropped alone |
| `DtlsOpening.TornRecordIsDropped` | seniorProject/Pods/BoringSSL/ssl/dtls_record.cc:194-205 | Any proper prefix of a record is dropped as a whole |
| `DtlsOpening.RunIsReceived` | seniorProject/Pods/BoringSSL/ssl/d1_both.cc:350-403 | A record of wanted fragments is taken as those fragments, one after the other, without an alert |
| `DtlsReader.Reader.GetIncomingMessage` | seniorProject/Pods/BoringSSL/ssl/d1_both.cc:265-295 | A slot of the ring is created or reused, or the fragment is refused for its number, type or length |
| `DtlsReader.Reader.StartMessage` | seniorProject/Pods/BoringSSL/ssl/d1_both.cc:288-294 | A new message takes an empty slot and changes no other |
| `DtlsReader.Reader.ReceiveFragment` | seniorProject/Pods/BoringSSL/ssl/d1_both.cc:362-402 | One fragment through the guards, including the one that lets read_seq + 7 through to an error |
| `DtlsReader.Reader.TakeFragment` | seniorProject/Pods/BoringSSL/ssl/d1_both.cc:387-402 | The end of the round, behind the guards: the message is found or started, and gets the bytes unless it is complete |
| `DtlsReader.Reader.StoreFragment` | seniorProject/Pods/BoringSSL/ssl/d1_both.cc:391-402 | A finished message ignores the fragment; an unfinished one gains exactly its bytes |
| `DtlsReader.Reader.ReceiveFragments` | seniorProject/Pods/BoringSSL/ssl/d1_both.cc:350-403 | The loop over a record's fragments computes the fold over them |
| `DtlsReader.Reader.OpenHandshake` | seniorProject/Pods/BoringSSL/ssl/d1_both.cc:297-406 | ChangeCipherSpec, application data, alerts and handshake records each with the source's outcome |
| `DtlsReader.Reader.GetMessage` | seniorProject/Pods/BoringSSL/ssl/d1_both.cc:408-424 | The current message iff it is complete, with its type and bytes |
| `DtlsReader.Reader.NextMessage` | seniorProject/Pods/BoringSSL/ssl/d1_both.cc:426-438 | Frees the current slot and moves the window, keeping the ring invariant |
| `DtlsReader.Reader.HasUnprocessedData` | seniorProject/Pods/BoringSSL/ssl/d1_both.cc:440-457 | True iff a ChangeCipherSpec or anything but the current message is held |
| `DtlsReader.Reader.SetReadState` | seniorProject/Pods/BoringSSL/ssl/dtls_method.cc:81-95 | Refused with data left over; otherwise a new epoch and an empty replay window |
| `DtlsReader.Reader.OpenChangeCipherSpec` | seniorProject/Pods/BoringSSL/ssl/d1_both.cc:475-490 | Hands out a ChangeCipherSpec once for each one received |
| `DtlsSender.SealNextMessageKeepsInv` | seniorProject/Pods/BoringSSL/ssl/d1_both.cc:630-720 | What is sealed fits in the room given, the offset stays below the message and at 0 for a ChangeCipherSpec |
| `DtlsSender.SealMessagesKeepsInv` | seniorProject/Pods/BoringSSL/ssl/d1_both.cc:725-766 | A packet's records together are no longer than the packet, and the write position stays valid |
| `DtlsSender.MessageParses` | seniorProject/Pods/BoringSSL/ssl/d1_both.cc:511-537 | A message as queued parses back as one whole fragment of itself |
| `DtlsSender.AddOutgoingKeepsInv` | seniorProject/Pods/BoringSSL/ssl/d1_both.cc:541-580 | Queueing keeps the invariant, also when it starts a new flight |
| `DtlsSender.PacketBytesJoin` | seniorProject/Pods/BoringSSL/ssl/d1_both.cc:725-766 | A packet is its records one after the other |
| `DtlsSender.SealedRecordIs` | seniorProject/Pods/BoringSSL/ssl/dtls_record.cc:294-351 | A record is sealed just when there is room, the cipher seals and the epoch has a number left after this one; it has the next number of its epoch and the version of the current cipher, and only that counter moves, by one |
| `DtlsSender.PacketIsFull` | seniorProject/Pods/BoringSSL/ssl/d1_both.cc:725-766 | No room is given away: a packet ends at the end of the flight, with as long a piece of a message as fits, or where not one byte more fits |
| `DtlsSender.QueuedIfRoom` | seniorProject/Pods/BoringSSL/ssl/d1_both.cc:511-580 | A message is queued just when it is shorter than 2^24 and fewer than seven are there, not counting a flight that was flushed; it takes the next number and the write epoch |
| `DtlsSender.CcsQueuedIfRoom` | seniorProject/Pods/BoringSSL/ssl/d1_both.cc:541-586 | So is a ChangeCipherSpec, without a number |
| `Fragmentation.SealMessagesCovers` | seniorProject/Pods/BoringSSL/ssl/d1_both.cc:725-766 | The records of a packet, finished or broken off by an error, are consecutive pieces of the flight from the old write position to the new one |
| `Fragmentation.PacketLeaves` | seniorProject/Pods/BoringSSL/ssl/d1_both.cc:725-766 | Whether or not a packet can be sealed, the write position is behind its records, and where it was iff not even the first entry can be sealed |
| `Fragmentation.FirstSeals` | seniorProject/Pods/BoringSSL/ssl/d1_both.cc:630-720 | The first entry is sealed iff its epoch is live and has a number left, there is room for the least record, and the cipher seals one that fits |
| `Fragmentation.LatePacketIsLost` | seniorProject/Pods/BoringSSL/ssl/d1_both.cc:725-766 | Two records before the sequence numbers run out: the message is sealed, the ChangeCipherSpec behind it is not, and the write position is behind the lost message |
| `Fragmentation.CoversPartition` | seniorProject/Pods/BoringSSL/ssl/d1_both.cc:679-719 | Between two write positions each message is carried exactly: every byte once and in order |
| `Fragmentation.CoversCcs` | seniorProject/Pods/BoringSSL/ssl/d1_both.cc:647-663 | A ChangeCipherSpec between two write positions is sent exactly once |
| `Fragmentation.WholeFlight` | seniorProject/Pods/BoringSSL/ssl/d1_both.cc:768-813 | A flight sent to the end carries every message body whole and every ChangeCipherSpec once |
| `Fragmentation.CoversProgress` | seniorProject/Pods/BoringSSL/ssl/d1_both.cc:768-813 | Every packet moves the position (entry, offset) on, which is why send_flight ends |
| `Fragmentation.SealNextMessageEmits` | seniorProject/Pods/BoringSSL/ssl/d1_both.cc:630-720 | The record sealed is the piece of the current entry at the current offset, under the epoch it was queued in |
| `DtlsWriter.Writer.SealRecord` | seniorProject/Pods/BoringSSL/ssl/dtls_record.cc:294-351 | The record with the number, epoch and cipher asked for, in wire form; no number is used twice, and wraparound is a failure |
| `DtlsWriter.Writer.SealCcs` | seniorProject/Pods/BoringSSL/ssl/d1_both.cc:647-663 | A ChangeCipherSpec record, or no progress when the room is too small |
| `DtlsWriter.Writer.SealFragment` | seniorProject/Pods/BoringSSL/ssl/d1_both.cc:665-720 | As much of the message as the room allows, and the offset after it |
| `DtlsWriter.Writer.SealNextMessage` | seniorProject/Pods/BoringSSL/ssl/d1_both.cc:630-720 | The write context by the message's epoch, and the fragment or the ChangeCipherSpec |
| `DtlsWriter.Writer.SealPacket` | seniorProject/Pods/BoringSSL/ssl/d1_both.cc:725-766 | The loop that fills a packet, against its recursive form |
| `DtlsWriter.Writer.SealRound` | seniorProject/Pods/BoringSSL/ssl/d1_both.cc:730-762 | One round of it, which leaves the rest of the packet to be what it was to be |
| `DtlsWriter.Writer.SealNextPacket` | seniorProject/Pods/BoringSSL/ssl/d1_both.cc:725-766 | A packet of at most the MTU; an error to make no progress |
| `DtlsWriter.Writer.SendPacket` | seniorProject/Pods/BoringSSL/ssl/d1_both.cc:784-800 | A packet the transport takes moves the position strictly forward; one it does not take puts (written, offset) back; one that cannot be sealed leaves the position behind its records, and where it was iff there are none |
| `DtlsWriter.Writer.SealForSending` | seniorProject/Pods/BoringSSL/ssl/d1_both.cc:784-791 | A packet within the MTU that moves the position strictly forward, or none; the position is behind what was sealed |
| `DtlsWriter.Writer.SendPackets` | seniorProject/Pods/BoringSSL/ssl/d1_both.cc:783-801 | Every packet is within the MTU, what was sent covers the flight up to the last packet taken, and the records lost to a failed sealing cover it from there to the write position; the loop ends by messages left and bytes left |
| `DtlsWriter.Writer.SendNext` | seniorProject/Pods/BoringSSL/ssl/d1_both.cc:783-801 | One round: the packets so far cover the flight up to the write position, which moves on or, refused, stays |
| `DtlsWriter.Writer.SendFlight` | seniorProject/Pods/BoringSSL/ssl/d1_both.cc:768-813 | The same for the whole call; on success the position is at the end and everything sent is flushed. It refuses just after a shutdown, when a packet cannot be sealed, or when the transport failed; where it then stands is told from packets sealed on values |
| `DtlsWriter.Writer.FlushFlight` | seniorProject/Pods/BoringSSL/ssl/d1_both.cc:815-820 | Marks the flight complete, then as send_flight: datagrams within the MTU that carry the stretch from the old position to where the transport got, on success the rest of the flight, and failure for the same causes only; after a shutdown nothing else changes |
| `DtlsWriter.Writer.Retransmit` | seniorProject/Pods/BoringSSL/ssl/d1_both.cc:822-831 | Datagrams within the MTU that carry the flight from its start to where the transport got; when it succeeds every message body of the flight is on the transport once more, whole; it fails for the same causes only |
| `DtlsWriter.Writer.UpdateMtu` | seniorProject/Pods/BoringSSL/ssl/d1_both.cc:601-618 | The transport is asked just when the MTU is below 228 and querying is on; an answer from 228 to 2^30 is taken, and 1472 for any other |
| `DtlsWriter.Writer.ClearOutgoing` | seniorProject/Pods/BoringSSL/ssl/d1_both.cc:500-509 | Empties the flight and resets the position |
| `DtlsWriter.Writer.AddOutgoing` | seniorProject/Pods/BoringSSL/ssl/d1_both.cc:541-580 | Appends to the flight under the current epoch; a completed flight is cleared first; refused when full |
| `DtlsWriter.Writer.AddMessage` | seniorProject/Pods/BoringSSL/ssl/d1_both.cc:582-584 | The message under the next 16-bit number |
| `DtlsWriter.Writer.AddChangeCipherSpec` | seniorProject/Pods/BoringSSL/ssl/d1_both.cc:586-588 | A ChangeCipherSpec, which uses no number |
| `DtlsWriter.Writer.SetWriteState` | seniorProject/Pods/BoringSSL/ssl/dtls_method.cc:97-107 | A new epoch from sequence number 0; the old context and counter become the previous ones |
| `Wire.ParseFragmentInverts` | seniorProject/Pods/BoringSSL/ssl/d1_both.cc:459-473 | The fragment header parser inverts the header writer, whatever follows |
| `Wire.HeaderLayout` | seniorProject/Pods/BoringSSL/ssl/d1_both.cc:459-473 | The twelve bytes of the handshake header, one by one, as section 4.2.2 of RFC 6347 has them |
| `Wire.RecordLayout` | seniorProject/Pods/BoringSSL/ssl/dtls_record.cc:320-345 | The thirteen bytes in front of a record body, one by one, as section 4.1 of RFC 6347 has them |
| `Wire.ParsedIsRecord` | seniorProject/Pods/BoringSSL/ssl/dtls_record.cc:194-205 | Bytes that parse as a record are that record and what follows it |
| `AeadContext.OpenInvertsSeal` | seniorProject/Pods/BoringSSL/ssl/ssl_aead_ctx.cc:228-297 | Opening rebuilds the nonce and additional data that sealing used, so it returns the input; the record is at most MaxOverhead longer |
| `AeadContext.NonceInjective` | seniorProject/Pods/BoringSSL/ssl/ssl_aead_ctx.cc:328-372 | Two nonces of one context are equal iff their variable parts are |
| `AeadContext.NonceNamesRecord` | seniorProject/Pods/BoringSSL/ssl/ssl_aead_ctx.cc:328-372 | Without random nonces, equal nonces mean the same epoch and sequence number |
| `AeadContext.AdditionalDataBytes` | seniorProject/Pods/BoringSSL/ssl/ssl_aead_ctx.cc:206-226 | The additional data, byte by byte: number, type, version and length, as the three flags say |
| `AeadContext.AdditionalDataNamesRecord` | seniorProject/Pods/BoringSSL/ssl/ssl_aead_ctx.cc:206-226 | Under one context with additional data, two records share it iff number, type, version and length agree, as far as each is included |
| `AeadContext.GcmSeals` | seniorProject/Pods/BoringSSL/ssl/ssl_aead_ctx.cc:299-380 | What AES-GCM seals: the fixed four bytes and the number make the nonce, and the number stands before the ciphertext (RFC 5288) |
| `AeadContext.GcmOpens` | seniorProject/Pods/BoringSSL/ssl/ssl_aead_ctx.cc:228-297 | What it opens: the nonce is the record's, the number and length authenticated are the expected ones, and what is too short is refused |
| `AeadContext.ChaChaSeals` | seniorProject/Pods/BoringSSL/ssl/ssl_aead_ctx.cc:299-380 | What ChaCha20-Poly1305 seals: the number, padded on the left, is XORed into the fixed bytes (RFC 7905) |
| `AeadContext.Tls13Seals` | seniorProject/Pods/BoringSSL/ssl/ssl_aead_ctx.cc:299-380 | What TLS 1.3 contexts seal: the same nonce and no additional data |
| `AeadContext.StatefulSeals` | seniorProject/Pods/BoringSSL/ssl/ssl_aead_ctx.cc:299-380 | What the MAC-then-encrypt ciphers seal: a random nonce in front, and additional data without the length |
| `AeadContext.OpenNonce` | seniorProject/Pods/BoringSSL/ssl/ssl_aead_ctx.cc:253-287 | The nonce Open assembles, in place, is the specified one of the explicit bytes or the sequence number; too short a record is refused |
| `AeadContext.SealNonce` | seniorProject/Pods/BoringSSL/ssl/ssl_aead_ctx.cc:328-372 | The nonce SealScatter assembles is the same function of the random bytes or the sequence number, and so is the explicit prefix |
| `AeadContext.XorInto` | seniorProject/Pods/BoringSSL/ssl/ssl_aead_ctx.cc:366-372 | The fixed part is XORed into the front of the nonce |
| `AeadContext.Create` | seniorProject/Pods/BoringSSL/ssl/ssl_aead_ctx.cc:57-146 | The flags set up for each kind of cipher meet the assertions the code makes about them |
| `AeadContext.ContextIsSoundCipher` | seniorProject/Pods/BoringSSL/ssl/ssl_aead_ctx.cc:299-380 | Every context is a record cipher of the kind the DTLS theorems assume |
| `SslBuffers.SslBuffer.Clear` | seniorProject/Pods/BoringSSL/ssl/ssl_buffer.cc:39-45 | Empty, with no memory |
| `SslBuffers.SslBuffer.EnsureCap` | seniorProject/Pods/BoringSSL/ssl/ssl_buffer.cc:47-81 | Fails iff the capacity does not fit in 16 bits; otherwise keeps the contents and aligns what follows the header |
| `SslBuffers.SslBuffer.DidWrite` | seniorProject/Pods/BoringSSL/ssl/ssl_buffer.cc:83-88 | The contents grow by what was written behind them |
| `SslBuffers.SslBuffer.Append` | seniorProject/Pods/BoringSSL/ssl/ssl_buffer.cc:83-88 | Writing into the remaining part and then DidWrite appends |
| `SslBuffers.SslBuffer.Consume` | seniorProject/Pods/BoringSSL/ssl/ssl_buffer.cc:90-97 | The offset moves modulo 2^16; without a wrap the contents lose exactly their first bytes |
| `SslBuffers.SslBuffer.DiscardConsumed` | seniorProject/Pods/BoringSSL/ssl/ssl_buffer.cc:99-103 | Frees the memory iff nothing is left |
| `SslBuffers.ConsumeKeepsRest` | seniorProject/Pods/BoringSSL/ssl/ssl_buffer.cc:90-97 | Consuming keeps the rest in view, for all contents, iff the offset does not reach 2^16 or nothing is left |
| `SslBuffers.InPlaceIfFits` | seniorProject/Pods/BoringSSL/ssl/ssl_buffer.cc:90-97 | Over all contents and all runs of partial writes, what is written out is what lay in the buffer iff the contents end at 2^16 or before |
| `SslBuffers.LosesPlace` | seniorProject/Pods/BoringSSL/ssl/ssl_buffer.cc:90-97 | The losing run otherwise: up to where the offset wraps, and one byte more |
| `SslBuffers.SafeIfRoom` | seniorProject/Pods/BoringSSL/ssl/ssl_buffer.cc:47-81 | A buffer asked for w bytes keeps its place wherever its memory stands iff w is at most 65529 or is refused |
| `TlsWriter.WireOrderLost` | seniorProject/Pods/BoringSSL/ssl/s3_pkt.cc:237-289 | Whatever was sealed, a write buffer of 65530 to 65535 bytes can lie so that two partial writes put a byte on the wire that nothing can follow to make up what was sealed |
| `TlsWriter.Writer.constructor` | seniorProject/Pods/BoringSSL/ssl/s3_pkt.cc:129-144 | At the start nothing is sealed, buffered or sent |
| `TlsWriter.Writer.WriteBufferFlush` | seniorProject/Pods/BoringSSL/ssl/ssl_buffer.cc:239-252 | Partial writes take bytes off the front only: transport, write buffer and rest of the flight stay the records as sealed; 1 iff the buffer is empty, and iff no write of this call failed |
| `TlsWriter.Writer.WritePending` | seniorProject/Pods/BoringSSL/ssl/s3_pkt.cc:202-218 | A retry with another type, fewer bytes or another address is refused and changes nothing; it fails otherwise only if the transport did; success returns the pending length once |
| `TlsWriter.Writer.MoveFlight` | seniorProject/Pods/BoringSSL/ssl/s3_pkt.cc:254-266 | The unsent rest of the flight moves into the write buffer |
| `TlsWriter.Writer.MakeRoom` | seniorProject/Pods/BoringSSL/ssl/s3_pkt.cc:237-266 | Room for the record behind the flight, refused just when both and the overhead take 2^16 bytes or more; wire order is kept when the buffer there is large enough, and else for every size w that is at most 65529 or is refused |
| `TlsWriter.Writer.SealIntoBuffer` | seniorProject/Pods/BoringSSL/ssl/s3_pkt.cc:233-285 | The bytes are sealed as one record behind the flight and become pending, or nothing is sealed: just when there is no room or the seal fails |
| `TlsWriter.Writer.SealBehind` | seniorProject/Pods/BoringSSL/ssl/s3_pkt.cc:268-273 | The record is sealed behind the flight: wire order is kept and the log grows by it, or nothing changes |
| `TlsWriter.Writer.DoWrite` | seniorProject/Pods/BoringSSL/ssl/s3_pkt.cc:221-289 | A pending record is only flushed; otherwise the bytes are sealed exactly once and wire order equals sealing order, unless a new buffer of 65530 to 65535 bytes is made. It fails iff the retry is a bad one or, with nothing pending, the input is empty or over 16384 bytes, bytes are left in the buffer or the buffer cannot be made, in which cases nothing changes, or a seal or a write of this call failed |
| `TlsWriter.Writer.WriteChunk` | seniorProject/Pods/BoringSSL/ssl/s3_pkt.cc:177-187 | One do_ssl3_write of the loop: one record is sealed and accounted for, or the pending one is; and whether what the call asks is still refused |
| `TlsWriter.Writer.WriteAppChunk` | seniorProject/Pods/BoringSSL/ssl/s3_pkt.cc:177-198 | A chunk is counted exactly when it is written |
| `TlsWriter.Writer.WriteAppChunks` | seniorProject/Pods/BoringSSL/ssl/s3_pkt.cc:163-198 | The loop: what is sealed is the caller's bytes up to where it stopped, in records of the full fragment size but for the last; it fails for the causes of do_ssl3_write only |
| `TlsWriter.Writer.WriteAppData` | seniorProject/Pods/BoringSSL/ssl/s3_pkt.cc:129-200 | Success: the first ret bytes and nothing else are sealed, each once, in records of the full fragment size but for the last. Failure: a call with the same bytes takes up where this one stopped. After a shutdown nothing changes; fewer bytes than already written are refused, and the count is lost; otherwise it fails iff do_ssl3_write refuses a record of the call, or a seal or a write failed. Wire order as for a single write, of which only the first new one can meet a flight |
| `TlsWriter.Writer.WriteAppFrom` | seniorProject/Pods/BoringSSL/ssl/s3_pkt.cc:163-200 | The same from where earlier calls have come to |
| `TlsWriter.Writer.AddRecordToFlight` | seniorProject/Pods/BoringSSL/ssl/s3_both.cc:135-165 | One record more at the end of the flight, or nothing, just when the seal failed |
| `TlsWriter.Writer.AddMessage` | seniorProject/Pods/BoringSSL/ssl/s3_both.cc:184-205 | The records' plaintexts put together are the message, all of the full fragment size but for the last; it fails only if a seal failed |
| `TlsWriter.Writer.AddChunk` | seniorProject/Pods/BoringSSL/ssl/s3_both.cc:189-202 | One round: a record of the next bytes, which the plaintexts so far go up to |
| `TlsWriter.Writer.AddChangeCipherSpec` | seniorProject/Pods/BoringSSL/ssl/s3_both.cc:207-218 | One ChangeCipherSpec record |
| `TlsWriter.Writer.AddAlert` | seniorProject/Pods/BoringSSL/ssl/s3_both.cc:220-229 | One alert record of level and description |
| `TlsWriter.Writer.WriteFlight` | seniorProject/Pods/BoringSSL/ssl/s3_both.cc:257-269 | The loop of partial writes keeps wire order, never goes back, and stops early only if a write failed |
| `TlsWriter.Writer.WriteFlightPart` | seniorProject/Pods/BoringSSL/ssl/s3_both.cc:258-268 | One partial write moves the offset by what the transport took |
| `TlsWriter.Writer.FlushFlight` | seniorProject/Pods/BoringSSL/ssl/s3_both.cc:231-279 | When it reports success for a flight, everything ever sealed is on the wire and flushed; on failure the flight stays to be continued. A flight is refused, with nothing changed, after a shutdown or when it is longer than INT_MAX; otherwise it fails iff a write or the flush of this call failed |
| `TlsWriter.Writer.EndFlight` | seniorProject/Pods/BoringSSL/ssl/s3_both.cc:271-278 | When the transport is flushed the flight is over and everything sealed is on the wire and flushed; otherwise nothing changes |
| `TlsWriter.Writer.DispatchAlert` | seniorProject/Pods/BoringSSL/ssl/s3_pkt.cc:423-441 | The alert is sealed once; application data under way stays under way. It fails iff do_ssl3_write refuses the two bytes, with nothing changed, or a seal or a write of this call failed |
| `TlsWriter.Writer.SendAlert` | seniorProject/Pods/BoringSSL/ssl/s3_pkt.cc:395-421 | Nothing after a shutdown; with a write under way the alert is left for later and nothing is sealed or sent; otherwise it is dispatched, and left for later iff that fails |
| `TlsWriter.Writer.SetMaxSendFragment` | seniorProject/Pods/BoringSSL/ssl/ssl_lib.cc:1640-1650 | The fragment size stays between 512 and 16384 |
| `TlsRuns.Run` | seniorProject/Pods/BoringSSL/ssl/s3_pkt.cc:129-441 | Over every run of writes, flights, alerts, cipher changes and failures: what is sealed of application data is exactly the stream up to where the writer has come, each byte once and in order; and as long as no call makes a buffer of a size that can lose its place, the wire, the write buffer and the rest of the flight are all that was sealed, in order |
| `TlsRuns.Do` | seniorProject/Pods/BoringSSL/ssl/s3_pkt.cc:129-441 | Any one call keeps both |
| `TlsRuns.WriteRest` | seniorProject/Pods/BoringSSL/ssl/s3_pkt.cc:129-200 | A write of the rest of the stream moves it on by what it reports |
| `TlsRuns.Push` | seniorProject/Pods/BoringSSL/ssl/s3_both.cc:231-279 | Flushing and alerts leave application data alone and keep the wire in order |
| `TlsRuns.Queue` | seniorProject/Pods/BoringSSL/ssl/s3_both.cc:184-229 | Records for the flight leave application data alone |
| `TlsMessages.ParseInverts` | seniorProject/Pods/BoringSSL/ssl/s3_both.cc:399-425 | The message at the front of a stream is parsed as written, whatever follows |
| `TlsMessages.MessageLayout` | seniorProject/Pods/BoringSSL/ssl/s3_both.cc:167-182 | The four bytes in front of a message body, one by one |
| `TlsMessages.CutDoesNotParse` | seniorProject/Pods/BoringSSL/ssl/s3_both.cc:399-425 | A cut message does not parse, and no more than its own length is asked for |
| `TlsMessages.TakenAreFirst` | seniorProject/Pods/BoringSSL/ssl/s3_both.cc:562-583 | However a stream was cut into records, the messages taken off what arrived are the first ones sent, and what is left begins the next |
| `TlsMessages.CompleteParses` | seniorProject/Pods/BoringSSL/ssl/s3_both.cc:427-439 | A message is handed out iff all of it has arrived |
| `TlsMessages.FrontIsFirst` | seniorProject/Pods/BoringSSL/ssl/s3_both.cc:399-425 | A message at the front of what arrived is the first one sent |
| `TlsMessages.HandshakeBuffer.Append` | seniorProject/Pods/BoringSSL/ssl/s3_both.cc:474-560 | A handshake record's contents join the buffer |
| `TlsMessages.HandshakeBuffer.GetMessage` | seniorProject/Pods/BoringSSL/ssl/s3_both.cc:427-439 | The message at the front, if complete |
| `TlsMessages.HandshakeBuffer.CanAccept` | seniorProject/Pods/BoringSSL/ssl/s3_both.cc:441-459 | False iff a message is at the front or it would be too long |
| `TlsMessages.HandshakeBuffer.HasUnprocessed` | seniorProject/Pods/BoringSSL/ssl/s3_both.cc:461-472 | True iff there are bytes beyond the message being handled |
| `TlsMessages.HandshakeBuffer.NextMessage` | seniorProject/Pods/BoringSSL/ssl/s3_both.cc:562-583 | Exactly that message is taken off the front |
| `PbRoundTrip.RoundTrip` | seniorProject/Pods/nanopb/pb_decode.c:955-967 | For every well-formed descriptor and every value that fits it, encoding succeeds, and decoding the bytes succeeds, consumes them all and gives a value with the same fields set to the same values and every unset field at its default, through all nesting; singular fields without a has-flag included |
| `PbRoundTrip.CanonicalRoundTrip` | seniorProject/Pods/nanopb/pb_encode.c:451-473 | Decoding gives back exactly the value encoded when its unset fields are at their defaults |
| `PbRoundTrip.CanonicalIsUnique` | seniorProject/Pods/nanopb/pb_decode.c:835-847 | Set fields and defaults determine the value, so the result above is the only one possible |
| `PbRoundTrip.DelimitedRoundTrip` | seniorProject/Pods/nanopb/pb_decode.c:969-982 | The same with a length prefix, whatever follows the message |
| `PbRoundTrip.Restores` | seniorProject/Pods/nanopb/pb_decode.c:852-917 | Merging a value into the defaults restores its set fields and leaves the others at their defaults |
| `PbFormat.EncodingHasFormat` | seniorProject/Pods/nanopb/pb_encode.c:451-473 | Without the decoder, and with the numbers of the format: every encoding of a fitting value is a sequence of records, each a tag of 8 times the field number plus 0, 1, 2 or 5, and then a varint, 8 bytes, a length and that many bytes, or 4 bytes, little-endian, in the fewest bytes; they are the records of the value's fields in the descriptor's order |
| `PbFormat.TaggedHasFormat` | seniorProject/Pods/nanopb/pb_encode.c:559-592 | A value with its tag is one such record: 5 for fixed32, 1 for fixed64, 2 for bytes, strings and messages, 0 for integers |
| `PbFormat.ArrayHasFormat` | seniorProject/Pods/nanopb/pb_encode.c:116-205 | An array of numbers is one record of wire type 2 with its entries one after the other; of any other array each entry is a record; an empty one is none |
| `PbFormat.FieldHasFormat` | seniorProject/Pods/nanopb/pb_encode.c:271-349 | What each kind of field writes, as records |
| `PbWire.FormatIsDecoded` | seniorProject/Pods/nanopb/pb_decode.c:852-965 | On any well-typed message of the format, from any encoder (any field order, repeated fields, split or packed arrays, unknown fields, padded varints), decoding makes of the struct exactly what the records say, and fails exactly when a value or an entry does not fit or a required field is missing |
| `PbWire.PayloadIsSkipped` | seniorProject/Pods/nanopb/pb_decode.c:277-287 | Data of any kind is skipped by its wire type to exactly its end |
| `PbWire.WireTypeIsIgnored` | seniorProject/Pods/nanopb/pb_decode.c:356-434 | A known field goes by its own type whatever wire type the tag has; only for an array of numbers does that say whether the entries are packed |
| `PbWire.ZeroTagEnds` | seniorProject/Pods/nanopb/pb_decode.c:266-270 | A zero byte where a tag should be ends the message there, with what the records before it say |
| `PbWire.ZeroTagEndsSubmessage` | seniorProject/Pods/nanopb/pb_decode.c:1334-1356 | In a submessage the rest of its bytes is dropped and decoding goes on behind it |
| `PbWire.OtherWireTypesFail` | seniorProject/Pods/nanopb/pb_decode.c:285-285 | An unknown record with any other wire type fails |
| `PbSchema.OlderReader` | seniorProject/Pods/nanopb/pb_decode.c:902-910 | Decoding an encoding with a descriptor that lacks some of its fields is decoding the encoding of the other fields |
| `PbSchema.EncodedIsSkipped` | seniorProject/Pods/nanopb/pb_decode.c:277-287 | Skipping an encoded value by its field's wire type leaves exactly what follows it, for every type |
| `PbSchema.PackedIsSkipped` | seniorProject/Pods/nanopb/pb_decode.c:277-287 | So does skipping a packed array |
| `PbRefusals.EncodesIfWithin` | seniorProject/Pods/nanopb/pb_encode.c:451-473 | Of the values the struct can hold, pb_encode refuses exactly those in which a size of bytes or a count that is written, in submessages too, exceeds its array, or an integer has none of the four sizes |
| `PbMerging.MessageMerges` | seniorProject/Pods/nanopb/pb_decode.c:852-953 | Decoding without init what was encoded merges it into the message that was there and consumes every byte |
| `PbMerging.LoopMerges` | seniorProject/Pods/nanopb/pb_decode.c:863-917 | The loop does this field by field, and has then seen every required field |
| `PbMerging.FieldMerges` | seniorProject/Pods/nanopb/pb_decode.c:356-429 | One encoded field, of any kind, is merged into its slot |
| `PbMerging.PackedMerges` | seniorProject/Pods/nanopb/pb_decode.c:375-402 | A packed array is appended entry by entry |
| `PbMerging.EachMerges` | seniorProject/Pods/nanopb/pb_decode.c:403-413 | The entries of an unpacked array are appended, each decoded from defaults |
| `PbMerging.SingleMerges` | seniorProject/Pods/nanopb/pb_decode.c:366-372 | Required, optional and oneof fields are stored, submessages merged, and a oneof submessage reset first |
| `PbOverflow.MergesIfRoom` | seniorProject/Pods/nanopb/pb_decode.c:374-413 | The merge succeeds iff no array would get more entries than it can hold, at any depth; otherwise decoding fails |
| `PbLaws.ConcatenationMerges` | seniorProject/Pods/nanopb/pb_decode.h:74-75 | Decoding an encoding followed by any bytes is decoding the rest into the merged message; the two differ iff the rest decodes but lacks a required field |
| `PbLaws.ConcatenationAgrees` | seniorProject/Pods/nanopb/pb_decode.h:74-75 | Decoding a ++ b is decoding a and then b, for every b, iff the descriptor has no required field or a does not fit in |
| `PbLaws.EncodingsConcatenate` | seniorProject/Pods/nanopb/pb_decode.h:74-75 | It always is when b, too, is an encoding, and then gives the merge of both |
| `PbLaws.UnknownIsSkipped` | seniorProject/Pods/nanopb/pb_decode.c:898-906 | An unknown field inserted between fields changes nothing |
| `PbLaws.LeadsOn` | seniorProject/Pods/nanopb/pb_decode.c:863-917 | What whole fields decode to does not depend on what follows them |
| `PbLaws.SeenOnlyGrows` | seniorProject/Pods/nanopb/pb_decode.c:908-913 | The message decoded does not depend on the required fields seen before |
| `PbBounds.DecodedFits` | seniorProject/Pods/nanopb/pb_decode.c:955-967 | Whatever the bytes, a message that decodes stays within the integer types, byte arrays, strings and array sizes of its struct, at every depth |
| `PbLaws.StringSurvives` | seniorProject/Pods/nanopb/pb_decode.c:1299-1332 | An encoded string decodes to itself iff it ends inside its array before any other zero byte |
| `PbLaws.CutTagEndsMessage` | seniorProject/Pods/nanopb/pb_decode.c:251-275 | A message cut inside a tag is accepted as ending before the tag iff at most five bytes with the continuation bit are left; with more of them decoding fails |
| `PbBounds.FieldFits` | seniorProject/Pods/nanopb/pb_decode.c:356-429 | Decoding one field keeps its slot within bounds and marks the member of a oneof |
| `PbBounds.PackedFits` | seniorProject/Pods/nanopb/pb_decode.c:385-397 | A packed array never grows beyond its size |
| `PbBounds.StepFits` | seniorProject/Pods/nanopb/pb_decode.c:863-917 | One round of the loop keeps the whole struct within bounds |
| `PbBounds.StoreFits` | seniorProject/Pods/nanopb/pb_decode.c:356-429 | What is stored within bounds for one field is within bounds for every field that shares its slot |
| `PbLeft.DecodedIsLeft` | seniorProject/Pods/nanopb/pb_decode.c:852-917 | When the fields decode, the message decoded is the one thing that can be left |
| `PbExposure.StaysUnlessExposed` | seniorProject/Pods/nanopb/pb_decode.c:852-917 | For every byte string and every struct within bounds: all that can be left is within bounds iff the decoding does not stop at an unwritten place, that is, at a byte array that is an array entry or a newly chosen oneof member and whose length cannot be read or is refused, or at an array entry whose length cannot be read and whose memory need not fit |
| `PbExposure.LoopStays` | seniorProject/Pods/nanopb/pb_decode.c:356-429 | What is left elsewhere is within bounds |
| `PbExposure.LoopEscapes` | seniorProject/Pods/nanopb/pb_decode.c:403-426 | At such a place memory can be left that is out of bounds |
| `PbExposure.LooseHolds` | seniorProject/Pods/nanopb/pb_decode.c:404-413 | Memory of a byte array, or of a message with one or with a count, can be out of bounds |
| `PbExposure.TightFits` | seniorProject/Pods/nanopb/pb_decode.c:404-413 | Any other memory is within bounds |
| `PbSheltered.StaysIfSheltered` | seniorProject/Pods/nanopb/pb_decode.c:955-967 | pb_decode leaves the struct within bounds for every byte string and any memory iff, at every depth, no oneof has a byte array and no array has entries whose memory need not fit |
| `PbSheltered.UnshelteredExposes` | seniorProject/Pods/nanopb/pb_decode.c:403-426 | For any other message there are bytes that show it |
| `PbSheltered.LoopContained` | seniorProject/Pods/nanopb/pb_decode.c:374-413 | For every byte string, decoded or not, no count of the message or of a submessage in it exceeds its array, and only the last entry of an array and the byte array of a oneof can be out of bounds |
| `PbSheltered.LeftInBounds` | seniorProject/Pods/nanopb/pb_decode.c:852-953 | The three together, for a decoding from any struct within bounds |
| `PbSheltered.SizeOfInteger` | seniorProject/Pods/nanopb/pb_decode.c:415-426 | A oneof of an integer and bytes: -1 for the integer and then the tag of the bytes fails with the bytes as the member set, of any size that the memory had |
| `PbLaws.RoundIgnoresTail` | seniorProject/Pods/nanopb/pb_decode.c:863-917 | One round of the loop reads only its own field |
| `PbVarint.VarintRoundTrip` | seniorProject/Pods/nanopb/pb_decode.c:209-229 | Decoding inverts encoding for every 64-bit value, in at most ten bytes; below 2^32 the 32-bit decoder agrees |
| `PbVarint.Varint32Agrees` | seniorProject/Pods/nanopb/pb_decode.c:173-207 | When the 32-bit decoder succeeds it takes the same bytes as the 64-bit one and returns its result modulo 2^32 |
| `PbVarint.VarintShape` | seniorProject/Pods/nanopb/pb_encode.c:494-514 | An encoding is seven-bit groups, all but the last with the continuation bit, that add up to the value |
| `PbVarint.ZigZagRoundTrip` | seniorProject/Pods/nanopb/pb_encode.c:516-525 | UnZigZag inverts ZigZag on every signed 64-bit value |
| `PbVarint.ZigZagOnto` | seniorProject/Pods/nanopb/pb_decode.c:1118-1130 | And ZigZag inverts UnZigZag on every unsigned one |
| `PbVarint.ZigZagValue` | seniorProject/Pods/nanopb/pb_encode.c:516-525 | 2v for v from 0 on and -2v - 1 below: 0, -1, 1, -2 are 0, 1, 2, 3 |
| `PbVarint.LittleEndianRoundTrip` | seniorProject/Pods/nanopb/pb_decode.c:1132-1163 | Fixed-width integers survive encoding and decoding |
| `PbVarint.SignedInverts` | seniorProject/Pods/nanopb/pb_decode.c:1165-1200 | A signed 64-bit value survives the cast to unsigned and back |
| `PbVarint.SignedOfSmaller` | seniorProject/Pods/nanopb/pb_decode.c:1185-1188 | So does one of 32 bits, through the narrower cast |
| `PbEncoding.FittingEncodes` | seniorProject/Pods/nanopb/pb_encode.c:451-473 | Every value that fits its descriptor has an encoding |
| `PbEncoding.FittingFieldEncodes` | seniorProject/Pods/nanopb/pb_encode.c:271-349 | So does every field |
| `PbDecoding.DecodeTag` | seniorProject/Pods/nanopb/pb_decode.c:251-275 | A tag, the end of the message, or an error; a tag or an end uses up bytes |
| `PbDecoding.TakePrefixed` | seniorProject/Pods/nanopb/pb_decode.c:322-335 | A length and that many bytes |
| `PbDecoding.SkipField` | seniorProject/Pods/nanopb/pb_decode.c:277-287 | Skipping a field always uses up bytes, so the loop ends; what it skips is said by `PbWire.PayloadIsSkipped` |
| `PbDecoding.DecodeField` | seniorProject/Pods/nanopb/pb_decode.c:356-429 | Decoding a field always uses up bytes |
| `PbDecoding.DecodeLoop` | seniorProject/Pods/nanopb/pb_decode.c:863-917 | Decoding ends on every byte string |
| `PbDecoding.Find` | seniorProject/Pods/nanopb/pb_common.c:78-95 | The first field with the tag, if any |
| `PbMessages.DefaultsFit` | seniorProject/Pods/nanopb/pb_decode.c:763-833 | The defaults fit their own struct |
| `PbMessages.DefaultsAt` | seniorProject/Pods/nanopb/pb_decode.c:835-847 | Each field is at its own default |
| `PbMessages.UnsetIsDefault` | seniorProject/Pods/nanopb/pb_encode.c:205-267 | A singular field passes for unset iff its value is the default, so nothing is lost by leaving it out (fixed-length bytes only if their length is 0) |
| `PbSingular.CheckDefault` | seniorProject/Pods/nanopb/pb_encode.c:205-267 | The comparison with zero, byte by byte, decides this for every type but submessages |
| `PbOStream.OStream.FromBuffer` | seniorProject/Pods/nanopb/pb_encode.c:74-89 | An empty stream over the buffer |
| `PbOStream.OStream.Sub` | seniorProject/Pods/nanopb/pb_encode.c:626-642 | A substream over the parent's next bytes |
| `PbOStream.OStream.Write` | seniorProject/Pods/nanopb/pb_encode.c:91-109 | Succeeds iff there is room; stores or counts exactly the bytes |
| `PbOStream.VarintBytes` | seniorProject/Pods/nanopb/pb_encode.c:502-513 | The loop over a ten-byte buffer yields the varint |
| `PbOStream.EncodeVarintTo` | seniorProject/Pods/nanopb/pb_encode.c:494-514 | Writes exactly the varint |
| `PbOStream.EncodeTagTo` | seniorProject/Pods/nanopb/pb_encode.c:553-557 | Writes exactly the tag |
| `PbOStream.EncodeStringTo` | seniorProject/Pods/nanopb/pb_encode.c:592-598 | Writes exactly the length and the bytes |
| `PbOStream.EncodeSvarintTo` | seniorProject/Pods/nanopb/pb_encode.c:516-525 | Writes the varint of the zigzag form |
| `PbOStream.EncodeFixedTo` | seniorProject/Pods/nanopb/pb_encode.c:527-551 | Writes the low bytes, least significant first |
| `PbEncoder.EncodeSubmessageTo` | seniorProject/Pods/nanopb/pb_encode.c:600-648 | Two passes: the size counted is the size written, so the prefix is exact and the size check after writing never fails |
| `PbEncoder.EncodeWithin` | seniorProject/Pods/nanopb/pb_encode.c:626-647 | A substream of the counted size takes exactly the message, so the size check cannot fail |
| `PbEncoder.EncodeValueTo` | seniorProject/Pods/nanopb/pb_encode.c:652-776 | Each field encoder writes or counts exactly the value's encoding |
| `PbEncoder.EncodeNumberTo` | seniorProject/Pods/nanopb/pb_encode.c:652-716 | Integer encoders, by data size |
| `PbEncoder.EncodeRawTo` | seniorProject/Pods/nanopb/pb_encode.c:718-776 | Bytes and strings: refused iff longer than the field allows |
| `PbEncoder.EncodeTaggedTo` | seniorProject/Pods/nanopb/pb_encode.c:306-316 | The tag and then the value, which together are the record of `PbFormat.TaggedHasFormat` |
| `PbEncoder.PackedSize` | seniorProject/Pods/nanopb/pb_encode.c:135-156 | The size counted for a packed array is the length of what is written for it |
| `PbEncoder.FixedSizes` | seniorProject/Pods/nanopb/pb_encode.c:136-143 | The shortcut count times 4 or 8 is that length too |
| `PbEncoder.EncodePackedTo` | seniorProject/Pods/nanopb/pb_encode.c:163-170 | The entries one after the other |
| `PbEncoder.EncodePackedArrayTo` | seniorProject/Pods/nanopb/pb_encode.c:130-172 | Tag, exact size and entries, or on a sizing stream only their number |
| `PbEncoder.EncodeEachTo` | seniorProject/Pods/nanopb/pb_encode.c:172-198 | Every entry with its tag |
| `PbEncoder.EncodeFieldTo` | seniorProject/Pods/nanopb/pb_encode.c:271-349 | Required, optional, singular, repeated and oneof fields: a singular one is left out iff its value is zero, and a count is checked against the array |
| `PbEncoder.EncodeTo` | seniorProject/Pods/nanopb/pb_encode.c:451-473 | A stream gets exactly the message's encoding iff it has room for it, and a sizing stream counts exactly its length |
| `PbEncoder.EncodeFieldsTo` | seniorProject/Pods/nanopb/pb_encode.c:457-470 | The loop over the iterator writes exactly the message's encoding iff there is room |
| `PbEncoder.EncodeNextTo` | seniorProject/Pods/nanopb/pb_encode.c:457-470 | One round: what is written is the encoding so far, or the whole encoding has no room or does not exist |
| `PbEncoder.GetEncodedSize` | seniorProject/Pods/nanopb/pb_encode.c:480-489 | The size is the length of the encoding |
| `PbIStream.IStream.Read` | seniorProject/Pods/nanopb/pb_decode.c:91-123 | Takes exactly the bytes asked for, or leaves the stream as it was |
| `PbIStream.IStream.ReadByte` | seniorProject/Pods/nanopb/pb_decode.c:127-143 | The next byte, if there is one |
| `PbIStream.DecodeVarintFrom` | seniorProject/Pods/nanopb/pb_decode.c:209-229 | The loop of shifts and ors computes the varint; position plus bytes left is unchanged |
| `PbIStream.DecodeVarint32From` | seniorProject/Pods/nanopb/pb_decode.c:173-207 | The same for 32 bits; a failure uses up the stream iff it held at most five bytes |
| `PbIStream.SkipVarintFrom` | seniorProject/Pods/nanopb/pb_decode.c:231-240 | Behind the first byte without the continuation bit |
| `PbIStream.SkipStringFrom` | seniorProject/Pods/nanopb/pb_decode.c:242-249 | Behind the length and its bytes |
| `PbIStream.SkipFieldFrom` | seniorProject/Pods/nanopb/pb_decode.c:277-287 | In place as `SkipField`: behind the field by its wire type, as `PbWire.PayloadIsSkipped` has it; unknown wire types fail |
| `PbIStream.DecodeTagFrom` | seniorProject/Pods/nanopb/pb_decode.c:251-275 | Tag and wire type, or the end of the message |
| `PbIStream.MakeSubstream` | seniorProject/Pods/nanopb/pb_decode.c:322-335 | The substream is the length-prefixed bytes, the parent keeps the rest, and a length beyond the end fails |
| `PbIStream.CloseSubstream` | seniorProject/Pods/nanopb/pb_decode.c:337-350 | Whatever was read of the substream, the parent ends just behind it |
| `PbIStream.NextGroup` | seniorProject/Pods/nanopb/pb_decode.c:186-203 | Or-ing a shifted group into the result adds it, within the width |
| `PbIStream.GroupsDone` | seniorProject/Pods/nanopb/pb_decode.c:209-229 | The loop that ends at a byte without the continuation bit has the decoder's result |
| `PbIStream.GroupsLacking` | seniorProject/Pods/nanopb/pb_decode.c:209-229 | A varint that is cut or too long is refused |
| `PbDecoder.DecodeIntegerFrom` | seniorProject/Pods/nanopb/pb_decode.c:1165-1248 | The value iff it fits the field's width: the cast and comparison refuse exactly the others; the cast is left behind also when it is refused, and an unreadable varint leaves what was there |
| `PbDecoder.CastIsIdentity` | seniorProject/Pods/nanopb/pb_decode.c:1183-1198 | Casting to a narrower type and comparing is a range check |
| `PbDecoder.DecodeFixedFrom` | seniorProject/Pods/nanopb/pb_decode.c:1132-1163 | The bytes, least significant first; without them what was there is left |
| `PbDecoder.DecodeRawFrom` | seniorProject/Pods/nanopb/pb_decode.c:1262-1332 | Bytes and strings, refused iff longer than the field; a length that cannot be read or is refused leaves what was there |
| `PbDecoder.LengthFits` | seniorProject/Pods/nanopb/pb_decode.c:1267-1320 | The tests with their 32-bit arithmetic refuse exactly the lengths the field has no room for |
| `PbDecoder.CutRaw` | seniorProject/Pods/nanopb/pb_decode.c:1295-1331 | When the bytes are missing the new size stands before what the array held, and a string ends where it would have |
| `PbDecoder.DecodeSubmessageFrom` | seniorProject/Pods/nanopb/pb_decode.c:1334-1356 | The submessage is decoded inside its own length, and the parent ends just behind it; an array entry is set to defaults only once its length is known, and is left as it was otherwise |
| `PbDecoder.DecodeStarted` | seniorProject/Pods/nanopb/pb_decode.c:1345-1355 | An array entry is decoded from its defaults, any other submessage from what is there |
| `PbDecoder.DecodeWithin` | seniorProject/Pods/nanopb/pb_decode.c:1350-1355 | The message comes out of the substream, or is left as far as it was decoded, and the parent ends up behind it |
| `PbDecoder.DecodeValueFrom` | seniorProject/Pods/nanopb/pb_decode.c:1165-1379 | Each field decoder takes and yields exactly what the specification says, and leaves at the destination what the source leaves there |
| `PbDecoder.DecodeHeldFrom` | seniorProject/Pods/nanopb/pb_decode.c:404-413 | The same in memory that nobody wrote: success does not depend on it |
| `PbDecoder.DecodeMemberFrom` | seniorProject/Pods/nanopb/pb_decode.c:415-426 | A member of a oneof: a submessage is reset first, anything else is decoded over what the members share |
| `PbDecoder.DecodePackedFrom` | seniorProject/Pods/nanopb/pb_decode.c:385-397 | The loop stops when the array is full and bytes left over are an error; decoded or not, the entries are those that were decoded, within the array |
| `PbDecoder.DecodePackedFieldFrom` | seniorProject/Pods/nanopb/pb_decode.c:375-402 | A packed array inside its length prefix; the entries decoded before a failure are kept |
| `PbDecoder.DecodePackedWithin` | seniorProject/Pods/nanopb/pb_decode.c:378-401 | The entries are decoded inside the substream, and the parent ends up behind it; on failure those decoded so far are kept |
| `PbDecoder.DecodeFieldFrom` | seniorProject/Pods/nanopb/pb_decode.c:356-429 | The slot after one field, decoded or not: the count, has-flag or oneof tag is written first, the count only within the array, and behind it stands what the decoder left |
| `PbDecoder.MarkSeen` | seniorProject/Pods/nanopb/pb_decode.c:908-913 | The bit of this required field, and no other, is set |
| `PbDecoder.DecodeRound` | seniorProject/Pods/nanopb/pb_decode.c:877-917 | One field of the loop: found and decoded, or skipped; a round that fails changes the slot of its field only, as far as its decoder got |
| `PbDecoder.DecodeNextFrom` | seniorProject/Pods/nanopb/pb_decode.c:863-917 | One round from its tag on leaves the rest of the loop to do, and to leave, what the loop was to |
| `PbDecoder.DecodeKnownFrom` | seniorProject/Pods/nanopb/pb_decode.c:915-916 | The field that was found is decoded into its slot, also as far as a failing one got |
| `PbDecoder.NoteSeen` | seniorProject/Pods/nanopb/pb_decode.c:908-913 | The bitset gains exactly this field, if it is required |
| `PbDecoder.DecodeFieldsFrom` | seniorProject/Pods/nanopb/pb_decode.c:863-917 | The loop computes the specified decoding and the bitset the required fields seen; decoded or not, the struct is what is specified to be left |
| `PbDecoder.RequiredFieldCount` | seniorProject/Pods/nanopb/pb_decode.c:920-935 | The iterator run to the end counts the required fields |
| `PbDecoder.WordsSeen` | seniorProject/Pods/nanopb/pb_decode.c:937-949 | Whole words and the remaining bits are all ones |
| `PbDecoder.RequiredCheck` | seniorProject/Pods/nanopb/pb_decode.c:919-950 | True iff every required field was seen |
| `PbDecoder.DecodeNoInitFrom` | seniorProject/Pods/nanopb/pb_decode.c:852-953 | For every byte string: ends, stays within the bytes, and succeeds iff the fields decode and every required one was seen; decoded or not, the struct is what is specified to be left |
| `PbDecoder.SetToDefaults` | seniorProject/Pods/nanopb/pb_decode.c:835-847 | Every field at its default |
| `PbDecoder.DecodeFrom` | seniorProject/Pods/nanopb/pb_decode.c:955-967 | Decoding from the defaults; for every byte string, decoded or not, every count is within its array, and the whole struct is within bounds if it decodes, if the message is sheltered, or if the bytes expose no field |
| `PbDecoder.DecodeDelimitedFrom` | seniorProject/Pods/nanopb/pb_decode.c:969-982 | On success the stream is just behind the message; decoded or not, the struct is untouched or as for pb_decode |
| `PbDecoder.DecodeFromWithin` | seniorProject/Pods/nanopb/pb_decode.c:974-981 | The same for the message inside its substream |
| `PbIterator.FieldIter.Next` | seniorProject/Pods/nanopb/pb_common.c:20-76 | Data offset, size offset and required index depend on the position alone; false iff it wraps |
| `PbIterator.FieldIter.Find` | seniorProject/Pods/nanopb/pb_common.c:78-95 | Ends, succeeds iff a field has the tag, finds the first one from the current position, and otherwise stays where it was |
| `PbIterator.FieldIter.Begin` | seniorProject/Pods/nanopb/pb_common.c:8-18 | At the first field; false iff there is none |
| `PbSeen.BitsOneMore` | seniorProject/Pods/nanopb/pb_decode.c:908-913 | Setting a bit of the two words adds exactly that required field to the set |
| `PbSeen.WordsDecide` | seniorProject/Pods/nanopb/pb_decode.c:919-950 | The words are full iff every required field was seen |
| `PbSeen.WordIsFull` | seniorProject/Pods/nanopb/pb_decode.c:938-949 | A word is the mask of its low n bits iff all those fields were seen |
| `PbSeen.ShiftedOnes` | seniorProject/Pods/nanopb/pb_decode.c:947-947 | All ones shifted right by 32 - k is the mask of k bits, for k from 1 to 31 |
| `PbSeen.IndexIsUnique` | seniorProject/Pods/nanopb/pb_common.c:65-70 | No two required fields share an index |
| `HandshakeRuns.RunsAgree` | seniorProject/Pods/BoringSSL/ssl/handshake_client.cc:1701-1783 | In every run of an honest client and server, for all agreed parameters and any callback retries, neither meets an unexpected message or a Finished over another transcript; each has hashed the script up to where it is, every message once; and two finished sides have equal transcripts and nothing left over |
| `HandshakeRuns.NoDeadlock` | seniorProject/Pods/BoringSSL/ssl/handshake_server.cc:1527-1609 | Until both are done some step can be taken: they never wait for each other |
| `HandshakeRuns.StepKeepsInv` | seniorProject/Pods/BoringSSL/ssl/handshake.cc:482-614 | Every step keeps: what is under way is exactly what the one side has sent and the other not yet taken |
| `HandshakeRuns.Fronts` | seniorProject/Pods/BoringSSL/ssl/handshake.cc:482-614 | What arrives is what the script has next |
| `HandshakeRuns.NotBothStuck` | seniorProject/Pods/BoringSSL/ssl/handshake.cc:498-520 | Two sides that wait cannot both be waiting for the other |
| `HandshakeCompletion.StepLeavesLess` | seniorProject/Pods/BoringSSL/ssl/handshake.cc:482-614 | A joint measure of both sides goes down with every step but a callback that is not ready |
| `HandshakeCompletion.RunsComplete` | seniorProject/Pods/BoringSSL/ssl/handshake_client.cc:1701-1783 | No run is longer than 152 steps and four for each callback that was not ready; one that can go on in no other way has brought both sides to the end |
| `HandshakeCompletion.CanComplete` | seniorProject/Pods/BoringSSL/ssl/handshake_server.cc:1527-1609 | From wherever a run has come it can be brought to the end |
| `HandshakeClientRefusal.DoneIsAuthentic` | seniorProject/Pods/BoringSSL/ssl/handshake_client.cc:1701-1783 | For a peer that may send anything, in any interleaving with transitions, retries and flushes: a client that is done has taken exactly the messages of one allowed handshake, in order, with the ChangeCipherSpec right before the server's Finished, and has a place in its transcript with a Finished over all before it |
| `HandshakeServerRefusal.DoneIsAuthentic` | seniorProject/Pods/BoringSSL/ssl/handshake_server.cc:1527-1609 | The same for the server; with a client certificate it has had a CertificateVerify over its own transcript up to there, with Channel ID negotiated a ChannelID over it, and it has a certificate if it insists on one |
| `HandshakeClientAcceptance.AllowedIsFinished` | seniorProject/Pods/BoringSSL/ssl/handshake_client.cc:827-1173 | And each allowed handshake is taken to the end, whatever the server negotiates, leaves out or puts in: an announced CertificateStatus that does not come, a CertificateRequest, a key exchange. With the other half, a client finishes with exactly these |
| `HandshakeServerAcceptance.AllowedIsFinished` | seniorProject/Pods/BoringSSL/ssl/handshake_server.cc:1527-1609 | So does the server with every client it may finish with, with or without a certificate |
| `HandshakeClientRefusal.OnlyOwnFinished` | seniorProject/Pods/BoringSSL/ssl/handshake.cc:371-420 | Nothing takes the client past GetFinished but a server Finished over its own transcript |
| `HandshakeServerRefusal.OnlyOwnFinished` | seniorProject/Pods/BoringSSL/ssl/handshake.cc:371-420 | Nothing takes the server past it but a client Finished over its own transcript |
| `HandshakeClient.CallbackOnlyDelays` | seniorProject/Pods/BoringSSL/ssl/handshake_client.cc:877-895 | A callback that is not ready leaves the client as it was, just where one is asked; nothing else depends on callbacks |
| `HandshakeServer.CallbackOnlyDelays` | seniorProject/Pods/BoringSSL/ssl/handshake_server.cc:1527-1609 | The same for the server |
| `HandshakeScript.Machine.Run` | seniorProject/Pods/BoringSSL/ssl/handshake_client.cc:1701-1783 | The dispatch loop makes exactly the transitions of the machine until one has to wait, and no more of them than its rank |
| `HandshakeClient.OkDecreases` | seniorProject/Pods/BoringSSL/ssl/handshake_client.cc:1701-1783 | Every transition that lets the loop go on lowers the rank, despite the way back from reading Finished to sending it in a resumption |
| `HandshakeClient.NewClient` | seniorProject/Pods/BoringSSL/ssl/handshake_client.cc:1701-1783 | The client machine has a decreasing rank, so its dispatch loop ends |
| `HandshakeServer.OkDecreases` | seniorProject/Pods/BoringSSL/ssl/handshake_server.cc:1527-1609 | The same for the server, whose way back is from sending Finished to reading ChangeCipherSpec |
| `HandshakeServer.NewServer` | seniorProject/Pods/BoringSSL/ssl/handshake_server.cc:1527-1609 | The server machine has a decreasing rank, so its dispatch loop ends |
| `HandshakeClientSteps.ClientStep` | seniorProject/Pods/BoringSSL/ssl/handshake_client.cc:1701-1783 | Every client transition keeps the transcript equal to the script's and sends or takes exactly what the script has next |
| `HandshakeClientSteps.HelloSentStep` | seniorProject/Pods/BoringSSL/ssl/handshake_client.cc:427-488 | ClientHello is sent and hashed first |
| `HandshakeClientSteps.ServerHelloStep` | seniorProject/Pods/BoringSSL/ssl/handshake_client.cc:572-765 | ServerHello is the next message, sets the parameters and the branch |
| `HandshakeClientSteps.ServerCertificateStep` | seniorProject/Pods/BoringSSL/ssl/handshake_client.cc:777-825 | Certificate is read iff the server sends one |
| `HandshakeClientSteps.CertificateStatusStep` | seniorProject/Pods/BoringSSL/ssl/handshake_client.cc:827-875 | CertificateStatus is read iff the server sends one |
| `HandshakeClientSteps.VerifyStep` | seniorProject/Pods/BoringSSL/ssl/handshake_client.cc:877-895 | A verification to be retried changes nothing |
| `HandshakeClientSteps.ServerKeyExchangeStep` | seniorProject/Pods/BoringSSL/ssl/handshake_client.cc:897-1077 | ServerKeyExchange is read iff it is sent, with or without a PSK hint |
| `HandshakeClientSteps.CertificateRequestStep` | seniorProject/Pods/BoringSSL/ssl/handshake_client.cc:1079-1149 | CertificateRequest is read iff it is sent |
| `HandshakeClientSteps.ServerHelloDoneStep` | seniorProject/Pods/BoringSSL/ssl/handshake_client.cc:1151-1173 | ServerHelloDone ends the server's flight |
| `HandshakeClientSteps.ClientCertificateStep` | seniorProject/Pods/BoringSSL/ssl/handshake_client.cc:1175-1221 | A Certificate, empty or not, iff one was requested |
| `HandshakeClientSteps.ClientKeyExchangeStep` | seniorProject/Pods/BoringSSL/ssl/handshake_client.cc:1226-1377 | ClientKeyExchange is sent |
| `HandshakeClientSteps.CertificateVerifyStep` | seniorProject/Pods/BoringSSL/ssl/handshake_client.cc:1379-1461 | CertificateVerify over the transcript so far, iff the client sent a certificate |
| `HandshakeClientSteps.ClientFinishedStep` | seniorProject/Pods/BoringSSL/ssl/handshake_client.cc:1463-1518 | ChangeCipherSpec, NextProto, ChannelID and Finished are sent in order, the last two over the right transcripts |
| `HandshakeClientSteps.SessionTicketStep` | seniorProject/Pods/BoringSSL/ssl/handshake_client.cc:1560-1641 | NewSessionTicket is read iff it is sent, before the ChangeCipherSpec |
| `HandshakeClientSteps.ServerFinishedStep` | seniorProject/Pods/BoringSSL/ssl/handshake_client.cc:1652-1666 | The server's Finished is over the client's own transcript, before Finished is hashed |
| `HandshakeClientSteps.FinishedOk` | seniorProject/Pods/BoringSSL/ssl/handshake.cc:371-420 | The Finished that arrives is over exactly the transcript hashed so far |
| `HandshakeServerSteps.ServerStep` | seniorProject/Pods/BoringSSL/ssl/handshake_server.cc:1527-1609 | Every server transition keeps the transcript equal to the script's and sends or takes exactly what the script has next |
| `HandshakeServerSteps.EarlyStep` | seniorProject/Pods/BoringSSL/ssl/handshake_server.cc:432-680 | ClientHello is read and hashed, and the parameters fixed |
| `HandshakeServerSteps.ServerHelloStep` | seniorProject/Pods/BoringSSL/ssl/handshake_server.cc:682-740 | ServerHello is sent, and the branch taken |
| `HandshakeServerSteps.CertificateStep` | seniorProject/Pods/BoringSSL/ssl/handshake_server.cc:742-828 | Certificate and CertificateStatus are sent iff negotiated |
| `HandshakeServerSteps.KeyExchangeStep` | seniorProject/Pods/BoringSSL/ssl/handshake_server.cc:830-900 | ServerKeyExchange is sent iff the cipher or a PSK hint calls for it; a signature to be retried changes nothing |
| `HandshakeServerSteps.HelloDoneStep` | seniorProject/Pods/BoringSSL/ssl/handshake_server.cc:902-935 | CertificateRequest, if asked for, and ServerHelloDone |
| `HandshakeServerSteps.ClientCertificateStep` | seniorProject/Pods/BoringSSL/ssl/handshake_server.cc:937-1028 | The client's Certificate is read iff requested |
| `HandshakeServerSteps.ClientKeyExchangeStep` | seniorProject/Pods/BoringSSL/ssl/handshake_server.cc:1046-1255 | ClientKeyExchange is read; an operation to be retried changes nothing |
| `HandshakeServerSteps.ClientVerifyStep` | seniorProject/Pods/BoringSSL/ssl/handshake_server.cc:1257-1351 | CertificateVerify is read iff the client sent a certificate, over the server's own transcript |
| `HandshakeServerSteps.NextProtoStep` | seniorProject/Pods/BoringSSL/ssl/handshake_server.cc:1367-1401 | NextProto is read iff negotiated |
| `HandshakeServerSteps.ChannelIdStep` | seniorProject/Pods/BoringSSL/ssl/handshake_server.cc:1403-1425 | ChannelID is read iff negotiated, over the server's own transcript |
| `HandshakeServerSteps.ClientFinishedStep` | seniorProject/Pods/BoringSSL/ssl/handshake_server.cc:1427-1449 | The client's Finished is over the server's own transcript |
| `HandshakeServerSteps.FinishedStep` | seniorProject/Pods/BoringSSL/ssl/handshake_server.cc:1451-1497 | Ticket, ChangeCipherSpec and Finished are sent in order, Finished over the right transcript, in a full handshake and a resumption |
| `HandshakeServerSteps.FinishedOk` | seniorProject/Pods/BoringSSL/ssl/handshake.cc:371-420 | The Finished that arrives is over exactly the transcript hashed so far |
| `CipherChoice.ChooseCipher` | seniorProject/Pods/BoringSSL/ssl/handshake_server.cc:357-424 | With server preference, the acceptable cipher the client ranks highest in the first equal-preference group that has one; without, the first acceptable one in the client's order; none iff there is no acceptable common cipher |
| `CipherChoice.Choose` | seniorProject/Pods/BoringSSL/ssl/handshake_server.cc:390-423 | The loop with its running group minimum computes the least place in the first group that ends and has an acceptable cipher, for any flags; nothing iff no acceptable cipher stands in a group that ends |
| `CipherChoice.Consider` | seniorProject/Pods/BoringSSL/ssl/handshake_server.cc:390-423 | One round: the least place of the group at its end, if it has an acceptable cipher, or else the minimum so far |
| `CipherChoice.LastGroupEnds` | seniorProject/Pods/BoringSSL/ssl/internal.h:1864-1897 | With the last flag 0, nothing is chosen iff nothing is acceptable |
| `CipherChoice.OpenGroupIsLost` | seniorProject/Pods/BoringSSL/ssl/handshake_server.cc:402-423 | For all lists and flags: nothing can be chosen iff every acceptable cipher stands behind the last flag 0, so those that stand there alone are lost |
| `Refcount.StepIsAtomic` | seniorProject/Pods/BoringSSL/crypto/refcount_c11.c:37-65 | Every compare-and-swap step, spurious failures included, leaves the count alone or is one whole operation of the locked counter; a saturated count never changes; no call by an owner aborts |
| `Refcount.RunsLinearize` | seniorProject/Pods/BoringSSL/crypto/refcount_c11.c:37-65 | Every interleaved run is a run of the locked counter: the log replays under the lock, and for every thread its entries are the calls it made, in its order, with the reports it was given and at most one not yet handed back |
| `Refcount.LogOnlyGrows` | seniorProject/Pods/BoringSSL/crypto/refcount_c11.c:37-65 | What has taken effect stays in the order it took effect |
| `Refcount.ExactlyOneZero` | seniorProject/Pods/BoringSSL/crypto/refcount_c11.c:49-65 | When every decrement releases a reference its caller owns, exactly one reports zero: the one after which none is left |
| `Refcount.ZeroIsReportedOnce` | seniorProject/Pods/BoringSSL/crypto/refcount_c11.c:49-65 | Zero is reported only by the decrement that reaches it, and never again |
| `Refcount.OthersMakeProgress` | seniorProject/Pods/BoringSSL/crypto/refcount_c11.c:37-65 | The loops are lock-free: in any run the compare-and-swaps that fail, spurious failures aside, are at most as many as there are threads for each call that takes effect |
| `Refcount.AloneItReturns` | seniorProject/Pods/BoringSSL/crypto/refcount_c11.c:37-65 | A thread that runs alone returns from its call in at most three steps of its own, from every reachable state |
| `Refcount.LockedCounter.Run` | seniorProject/Pods/BoringSSL/crypto/refcount_lock.c:29-51 | The locked form: saturating increment, decrement that reports zero |

## Left out

DTLS:

- Alerts received, close_notify, read shutdown, timers, callbacks, allocation failure and `flight_has_reply`.
- The transcript update in `add_outgoing`; transcripts are part of the handshake model.
- Sealing in place: a packet is built by appending, so overlap of input and output buffers is not modelled.
- `DtlsWriter.Writer.UpdateMtu`: the transport's answer is any number, not a path MTU.
- `DtlsProgress.DeliveryGoesOn`: some steps deliver, chosen by the proof; nothing is said of how often a network loses datagrams, and a message whose flight was cleared or whose epoch has passed is not sent again.
- Random explicit nonces are read from an oracle on the sequence number, since sealing is a function here; no number is sealed twice in a run, so this fixes nothing that could be seen.
- `DtlsAssembly.RingHoldsUnion`: the fragments are slices of one message per number, since the source overwrites bytes without comparing them; for any other fragments `DtlsAnyPeer` says which are taken, and that what is handed out came in.

TLS records and writing:

- The extra inner type byte of TLS 1.3, aliasing checks, merging of MAC and encryption keys, SSL 3.0 and the fuzzer mode of `ssl_aead_ctx.cc`.
- Record splitting, and the sequence numbers used by a sealing that fails.
- Early data, the read buffer, V2ClientHello, rwstate and the error queue, and the handshake that `SSL_write` may run first.
- `TlsWriter.Writer.WriteAppData`: wire order under the size condition above; that it is lost otherwise is proved for some memory and some partial writes, not for all.
- `TlsMessages.HandshakeBuffer.Append`: records are given by their contents; decryption and the checks for plain HTTP are not modelled.

nanopb:

- Callbacks, extensions, pointer fields and custom streams.
- `PbEncoder.EncodeFieldTo`: singular submessages are not well-formed here, because their default test looks at the memory of the submessage's fields and ignores counts and has-flags; what lies beyond a count is not part of a value.
- Struct layout: a message is a row of slots, and the destination of decoding is a value that is returned, so array entries beyond the count and the contents of an unset oneof are not part of it; where the source writes over them they are any memory of their type (`Holds`). `PbIterator` keeps offsets, for static fields.
- `PbWire.FormatIsDecoded`: records whose payload is of their field's type, with varints of up to ten bytes and tags and lengths of up to five; what other bytes do is in `PbDecoding`, `PbLaws` and the failure theorems, and `PbWire.WireTypeIsIgnored` has the records with another wire type.
- `PbSchema.OlderReader`: fields lacking in the message itself; its submessages have the writer's descriptors.
- Overflow of `size_t`: sizes are assumed to be countable (`Held`).
- `PbEncoder.EncodeTo`: what a failed encoding leaves in the buffer is not specified.

Handshake and others:

- HelloVerifyRequest, TLS 1.3, SSL 3.0, renegotiation, False Start and early data.
- Negotiation and parsing of extensions; the contents of messages other than what signatures and Finished are computed over. Cryptographic content is the transcript itself.
- `HandshakeRuns.RunsAgree`: a flush that fails is a step not taken; a NewSessionTicket with an empty ticket and a server that negotiates OCSP and then sends no CertificateStatus are not modelled on the sending side.
- `HandshakeScript.Machine.Run`: the transitions are functions given to the dispatch loop, rather than methods that update a connection field by field.
- `CipherChoice.ChooseCipher`: the masks and the parsed client list are parameters.
- `Refcount.StepIsAtomic`: sequentially consistent steps; abort is a state, and the retry loops are interleaved steps because spurious failures are unbounded.
- The app's own code and the other vendored libraries.
