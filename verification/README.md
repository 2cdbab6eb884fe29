# PetIT's vendored protocol code, modelled and proved in Dafny

PetIT is a Swift application; the code in its repository that has something to prove is vendored: BoringSSL's TLS and
DTLS machinery and the nanopb codec. This project models four parts of it. Code that changes state in place is written
as classes and methods over arrays and fields; each method is proved equal to a function of the old state, and the
theorems are about those functions, over all inputs or all runs.

## Components

**DTLS handshake transport** (`Dtls*.dfy`, `ReplayWindow.dfy`, `Reassembly.dfy`, `Aead*.dfy`). `HmFragment` is a message
under reassembly with its bit mask, `Receiver` the ring of seven such messages with replay window and read epoch,
`Sender` the outgoing flight with its cursor and the write counters. `DtlsDelivery` joins a sender and a receiver by a
network that drops, repeats and reorders packets, and proves that whatever is released is a prefix of what was queued;
`DtlsEpochs` proves that a message is sent under the keys it was queued under and read under the same, `DtlsProgress` and
`DtlsArrival` when it is released. Record protection is modelled down to nonce, additional data and explicit nonce, over
an AEAD of which `Aead.Paired` says that one side opens what the other sealed.
A sealing error (also the wrap of the 48-bit record number) ends a sender: `seal_next_packet` does not take its cursor
back then. The MTU query, the answers of `BIO_write` and `BIO_flush` and the verdict on an alert are arbitrary.

**nanopb codec** (`Pb*.dfy`). `PbWire` and `PbMessage` say what the encoder writes and the decoder reads, as functions of
a descriptor; `PbEncoder.OStream`, `PbDecoder.IStream`, `PbIter.FieldIter` and `PbSeen.FieldsSeen` are the streams, the
circular iterator and the bit words of the C code, proved against them. `PbRoundTrip` and `PbMerge` hold the two laws:
decoding inverts encoding, and decoding a concatenation is decoding one half after the other. `PbCompat` holds what
versions of a message make of each other's bytes, `PbDecoded` what holds of anything that decodes. The build defines
`PB_FIELD_32BIT` (PetIT/Pods/Target Support Files/nanopb/nanopb.xcconfig:2), so sizes are 32 bits and a bytes field's
size prefix takes four bytes.

**TLS 1.2 handshakes** (`Tls*.dfy` but `TlsWrite`, `CipherChoice.dfy`, `Premaster.dfy`). `TlsClient.Client` and
`TlsServer.Server` are the two 20-state machines with every place at which they wait; `TlsConnection.Connection` holds
transcript, keys and messages. `TlsScript` gives the order of messages as a function of what was negotiated. The invariant
says that the log of a run is that script as far as the state, and the transcript is the log's messages, each once.
`TlsAgreement` relates a client and a server joined by FIFO channels. What is decided elsewhere (parsing, certificates,
signatures, sessions, callbacks) is a free choice at its place, among success, failure and a later answer where the code
has one. `TlsMessages` is the byte level below: messages cut into records and put together again.

**TLS write path and reference counts** (`SslBuffer.dfy`, `TlsWrite.dfy`, `RefCount.dfy`). `TlsWrite.Writer` has the two
output queues over a transport that takes what it likes. `RefCount` has the locked counter as a class, and the
compare-exchange loops as a transition system of any number of threads, one atomic access a step.

## Where the code differs from what one would expect

- `dtls1_open_handshake` means to ignore messages too far ahead, but the number exactly seven ahead passes the filter
  and is then an error (`DtlsReceive.FragmentRefusedIff`).
- `SSLBuffer::EnsureCap` bounds the capacity by 16 bits, yet the 16-bit offset also counts the alignment slack: at
  capacities 0xfffa to 0xffff, and only there, a partial write can lose bytes (`SslBuffer.NeverLosesIff`).
  `do_ssl3_write` asks for such a capacity only behind an unflushed flight of 48 kB or more; `Writer.RoomyIff`
  says exactly when.
- A server cipher list that ended inside an equal-preference group would miss acceptable ciphers, and lists of the
  documented shape are exactly those that miss none (`CipherChoice.GroupedIff`). `ssl_cipher.cc` never builds such a
  list: a rule string has to close its groups, and other operators are refused once there is a group.
- A string without a NUL inside its buffer encodes, and its own bytes are then refused
  (`PbRoundTrip.StringComesBackIffTerminated`).
- `ssl3_write_app_data` with data shorter than what it already wrote fails and forgets how much that was. This is
  exactly when its accounting breaks (`TlsWrite.Writer.WriteAppData`); the full retry that follows starts at byte 0
  again (`RetryAfterShorter`).

## Model

| member | source | states |
|---|---|---|
| ReplayWindow.ShouldDiscardExact | PetIT/Pods/BoringSSL-GRPC/ssl/dtls_record.cc:138-152 | A number is discarded if and only if it was recorded before or is 64 or more behind the newest (section 4.1.2.6 of RFC 6347) |
| ReplayWindow.RecordRefines | PetIT/Pods/BoringSSL-GRPC/ssl/dtls_record.cc:155-175 | After recording, bit i of the map is set exactly when newest - i was recorded, whatever the slide: the map stands for the old set plus one number |
| ReplayWindow.EmptyRefines | PetIT/Pods/BoringSSL-GRPC/ssl/dtls_method.cc:81-95 | The zeroed map stands for the empty set |
| ReplayWindow.AcceptedAtMostOnce | PetIT/Pods/BoringSSL-GRPC/ssl/dtls_record.cc:225-259 | Over any history of arrivals, authentic or not, no number is accepted twice, nor one recorded before |
| ReplayWindow.Bitmap.Discards | PetIT/Pods/BoringSSL-GRPC/ssl/dtls_record.cc:140-152 | The test on the object agrees with the set it stands for, in both directions |
| ReplayWindow.Bitmap.Add | PetIT/Pods/BoringSSL-GRPC/ssl/dtls_record.cc:157-175 | Adds exactly one number to the set and moves the newest only forward |
| DtlsReceive.AcceptedIffAcceptable | PetIT/Pods/BoringSSL-GRPC/ssl/dtls_record.cc:177-272 | Every record that is whole, of this epoch and version, fresh within the window and authentic is accepted with its own plaintext and recorded; anything else leaves the window untouched and is not accepted |
| DtlsReceive.NumbersAcceptedOnce | PetIT/Pods/BoringSSL-GRPC/ssl/dtls_record.cc:177-272 | Whatever byte strings arrive in an epoch, the numbers of the records accepted are all different |
| DtlsReceive.PacketGoesOn | PetIT/Pods/BoringSSL-GRPC/ssl/dtls_record.cc:191-233 | A record that is cut short, too long or of another version takes the rest of its packet with it; any other, accepted or not, only itself |
| DtlsReceiver.ToU64BE | PetIT/Pods/BoringSSL-GRPC/ssl/dtls_record.cc:128-136 | The loop gives the big-endian value of the eight bytes |
| DtlsWire.NumberIsBigEndian | PetIT/Pods/BoringSSL-GRPC/ssl/dtls_record.cc:128-136 | Epoch and sequence number parsed apart are the same 64-bit number as the eight bytes read as one |
| DtlsReceiver.OpenOneRecord | PetIT/Pods/BoringSSL-GRPC/ssl/dtls_record.cc:177-272 | The stepwise procedure on the live window does what the record-opening function says, status, body, bytes consumed and window |
| DtlsWire.ParseOfAssembled | PetIT/Pods/BoringSSL-GRPC/ssl/d1_both.cc:459-473 | A fragment header with its body, followed by anything, parses back to exactly that header, body and rest |
| DtlsWire.AssembledOfParse | PetIT/Pods/BoringSSL-GRPC/ssl/d1_both.cc:459-473 | Whatever parses is the assembly of what it parsed to: the parser accepts nothing else |
| DtlsWire.ParseOfRecord | PetIT/Pods/BoringSSL-GRPC/ssl/dtls_record.cc:294-351 | A sealed record, followed by anything, parses back to its header and ciphertext |
| DtlsWire.HeaderLayout | PetIT/Pods/BoringSSL-GRPC/ssl/d1_both.cc:459-473 | Type, length, number, offset and fragment length stand at their places, big-endian (section 4.2.2 of RFC 6347) |
| DtlsWire.RecordLayout | PetIT/Pods/BoringSSL-GRPC/ssl/dtls_record.cc:331-346 | Type, version, epoch, sequence number and length stand at their places, big-endian (section 4.1 of RFC 6347) |
| Reassembly.BitOfBitRange | PetIT/Pods/BoringSSL-GRPC/ssl/d1_both.cc:203-208 | bit_range(start, end) has exactly the bits from start up to end |
| Reassembly.HmFragment.constructor | PetIT/Pods/BoringSSL-GRPC/ssl/d1_both.cc:152-200 | A new message holds no bytes, and already needs no mask if and only if it is empty |
| Reassembly.HmFragment.SetRange | PetIT/Pods/BoringSSL-GRPC/ssl/d1_both.cc:222-236 | The three-way mask update sets exactly the bits of the range, across any byte boundaries, and no other |
| Reassembly.HmFragment.IsFull | PetIT/Pods/BoringSSL-GRPC/ssl/d1_both.cc:238-247 | The completeness test holds if and only if every byte of the message is marked |
| Reassembly.FullTail | PetIT/Pods/BoringSSL-GRPC/ssl/d1_both.cc:244-247 | The partial last mask byte equals bit_range(0, len mod 8) exactly when all bytes it stands for are marked |
| Reassembly.HmFragment.Mark | PetIT/Pods/BoringSSL-GRPC/ssl/d1_both.cc:211-251 | Byte k is covered afterwards exactly when it was before or lies in the range, for overlapping, repeated and empty ranges; the mask is dropped exactly when every byte is covered; the data is not touched (section 4.2.3 of RFC 6347) |
| Reassembly.HmFragment.MaskIffPending | PetIT/Pods/BoringSSL-GRPC/ssl/d1_both.cc:255-262 | In every state the mask is gone if and only if the message is completely covered |
| Reassembly.HmFragment.Store | PetIT/Pods/BoringSSL-GRPC/ssl/d1_both.cc:399-401 | The copy replaces exactly the bytes of the range |
| Reassembly.HmFragment.Receive | PetIT/Pods/BoringSSL-GRPC/ssl/d1_both.cc:393-402 | A fragment adds its own bytes to those held, overriding them where they overlap, and nothing else |
| DtlsReceive.SlotHoldsItsNumber | PetIT/Pods/BoringSSL-GRPC/ssl/d1_both.cc:265-280 | The assertion that an occupied slot holds the number looked for cannot fail in any reachable ring |
| DtlsReceive.FragmentRefusedIff | PetIT/Pods/BoringSSL-GRPC/ssl/d1_both.cc:362-391 | Exactly which fragments are an error. A number seven ahead of the next one passes the filter and is then an error, not ignored; farther ones are ignored |
| DtlsReceive.ProcessFragmentKeepsRing | PetIT/Pods/BoringSSL-GRPC/ssl/d1_both.cc:362-402 | Any fragment leaves every occupied slot with a number of the window that is the slot index modulo 7 |
| DtlsReceive.ProcessRecordKeepsRing | PetIT/Pods/BoringSSL-GRPC/ssl/d1_both.cc:352-405 | Any record, also one that stops the loop at an error half way, leaves every occupied slot with a number of the window that is the slot index modulo 7 |
| DtlsReceive.CompleteStays | PetIT/Pods/BoringSSL-GRPC/ssl/d1_both.cc:393-396 | A complete message stays complete and as it is, whatever arrives, so the assertions on it in dtls1_next_message cannot fail |
| DtlsReceive.AdvanceKeepsRing | PetIT/Pods/BoringSSL-GRPC/ssl/d1_both.cc:426-438 | Releasing a message keeps the ring, also where the counter wraps at 2^16, which 7 does not divide: every slot is empty then |
| DtlsReceiver.Receiver.constructor | PetIT/Pods/BoringSSL-GRPC/ssl/d1_both.cc:265-295 | A new connection starts with the empty ring and the empty window |
| DtlsReceiver.Receiver.GetIncoming | PetIT/Pods/BoringSSL-GRPC/ssl/d1_both.cc:265-295 | Null exactly when the number is outside the window or type or length disagree with the message held; otherwise the slot's message, created when absent, no other slot changed |
| DtlsReceiver.Receiver.Merge | PetIT/Pods/BoringSSL-GRPC/ssl/d1_both.cc:393-402 | A fragment of a message already complete changes nothing; data is frozen after completion |
| DtlsReceiver.Receiver.OnFragment | PetIT/Pods/BoringSSL-GRPC/ssl/d1_both.cc:362-402 | One turn of the loop on the heap objects has the effect of the fragment function on the abstract ring |
| DtlsReceiver.Receiver.OnHandshakeRecord | PetIT/Pods/BoringSSL-GRPC/ssl/d1_both.cc:352-405 | The loop ends with the ring and the verdict of the abstract loop |
| DtlsReceiver.Receiver.Dispatch | PetIT/Pods/BoringSSL-GRPC/ssl/d1_both.cc:318-406 | ChangeCipherSpec, application data, handshake and unknown records each change the read side as specified |
| DtlsReceiver.Receiver.OpenHandshakeRecord | PetIT/Pods/BoringSSL-GRPC/ssl/d1_both.cc:297-406 | The whole procedure equals the transition function that the end-to-end theorem is about |
| DtlsReceiver.Receiver.GetMessage | PetIT/Pods/BoringSSL-GRPC/ssl/d1_both.cc:408-424 | A message is handed out if and only if the next one in order is complete; it is the rebuilt header and the body |
| DtlsReceiver.Receiver.NextMessage | PetIT/Pods/BoringSSL-GRPC/ssl/d1_both.cc:426-438 | Frees the current slot and moves to the next number modulo 2^16 |
| DtlsReceiver.Receiver.HasUnprocessedData | PetIT/Pods/BoringSSL-GRPC/ssl/d1_both.cc:440-457 | True exactly when something of this epoch is left: a ChangeCipherSpec, or a message in any slot but that of the message at hand |
| DtlsEpochs.UnprocessedIff | PetIT/Pods/BoringSSL-GRPC/ssl/d1_both.cc:440-457 | In terms of message numbers: a ChangeCipherSpec, or something held of a number of the window other than the one at hand |
| DtlsReceiver.Receiver.OpenChangeCipherSpec | PetIT/Pods/BoringSSL-GRPC/ssl/d1_both.cc:475-492 | A ChangeCipherSpec read earlier is used up without touching input; otherwise one record is read and counts only if it is one |
| DtlsReceiver.Receiver.SetReadState | PetIT/Pods/BoringSSL-GRPC/ssl/dtls_method.cc:81-95 | Refused exactly while data of the old epoch is left; else the epoch moves on and the window starts afresh |
| Aead.OpenOfSeal | PetIT/Pods/BoringSSL-GRPC/ssl/ssl_aead_ctx.cc:225-294 | The reading context takes the explicit nonce off again, comes to the nonce and additional data the record was sealed under (those of NonceLayout and AdLayout), and opens it: proved over an AEAD that opens what it sealed under equal nonce and additional data |
| Aead.SealedUnder | PetIT/Pods/BoringSSL-GRPC/ssl/ssl_aead_ctx.cc:296-376 | The AEAD gets exactly the nonce and the additional data that the next two rows are about, and what it makes of the plaintext goes behind the explicit nonce |
| Aead.NonceLayout | PetIT/Pods/BoringSSL-GRPC/ssl/ssl_aead_ctx.cc:325-369 | What Seal gives its AEAD as the nonce, seen through an AEAD that returns it: the fixed part followed by the eight big-endian bytes of the record number, or bytes that give the zero-padded number once the fixed part is XORed out; an explicit nonce is the number too |
| Aead.AdLayout | PetIT/Pods/BoringSSL-GRPC/ssl/ssl_aead_ctx.cc:203-223 | What it gives as additional data: eight big-endian bytes of the number, the type, then version and length unless left out |
| Aead.SealLength | PetIT/Pods/BoringSSL-GRPC/ssl/ssl_aead_ctx.cc:379-405 | A sealed body fits the room given and is longer than the plaintext by the explicit nonce and by at most MaxOverhead |
| AeadNonce.AssembleNonce | PetIT/Pods/BoringSSL-GRPC/ssl/ssl_aead_ctx.cc:325-369 | The nonce buffer holds the fixed part followed by the number, or the fixed part XORed with the padded number |
| AeadNonce.NonceInjective | PetIT/Pods/BoringSSL-GRPC/ssl/ssl_aead_ctx.cc:325-369 | Either construction gives different nonces for different sequence bytes |
| AeadNonce.SeqNumBytesInjective | PetIT/Pods/BoringSSL-GRPC/ssl/dtls_record.cc:294-351 | The eight bytes passed as the sequence number determine epoch and number |
| AeadNonce.SeqNumBytesAreNumber | PetIT/Pods/BoringSSL-GRPC/ssl/dtls_record.cc:294-351 | The eight bytes are those of the 64-bit number that the context seals under |
| AeadNonce.NoncesNeverRepeat | PetIT/Pods/BoringSSL-GRPC/ssl/ssl_aead_ctx.cc:325-369 | Over any run of seals and write-state changes, what the contexts of two records give their AEADs as nonces, read off the results of dtls_seal_record, differs whenever their fixed parts are the same |
| AeadNonce.OneContextAnEpoch | PetIT/Pods/BoringSSL-GRPC/ssl/dtls_record.cc:274-351 | Records of one epoch are sealed under one context, before and after the keys change: with the row above, no nonce is used twice in an epoch |
| AeadNonce.SealingNonce | PetIT/Pods/BoringSSL-GRPC/ssl/dtls_record.cc:294-351 | The nonce used for a record is the one of its epoch and sequence number |
| DtlsSend.RecordNumbersNeverRepeat | PetIT/Pods/BoringSSL-GRPC/ssl/dtls_record.cc:274-351 | Over any interleaving of seals in the current and the previous epoch with write-state changes, until the first wrap, every (epoch, number) pair is emitted at most once |
| DtlsSend.NumbersConsecutive | PetIT/Pods/BoringSSL-GRPC/ssl/dtls_record.cc:294-351 | Every record of a run has as its number the count of the records of its epoch before it: from 0, without a gap, also while two epochs alternate |
| DtlsArrival.SealedRecord | PetIT/Pods/BoringSSL-GRPC/ssl/dtls_record.cc:294-351 | A sealed record parses, whatever follows it, to the next header of the chosen epoch and the ciphertext under that number; only that epoch's counter moves, by one; at the last 48-bit number sealing fails |
| DtlsSend.MessageBytesWhole | PetIT/Pods/BoringSSL-GRPC/ssl/d1_both.cc:511-541 | A finished message parses as one fragment that covers all of it |
| DtlsSend.PieceOfMessage | PetIT/Pods/BoringSSL-GRPC/ssl/d1_both.cc:690-737 | A message counts as sealed only when its last byte is; a partial seal carries at least one byte and moves the offset by what it carries |
| DtlsSend.SealsGreedily | PetIT/Pods/BoringSSL-GRPC/ssl/d1_both.cc:644-737 | Sealing stalls exactly when not one byte of the message would fit, and cuts a message only where the packet is full |
| DtlsArrival.SealedPiece | PetIT/Pods/BoringSSL-GRPC/ssl/d1_both.cc:644-737 | What is sealed of a message is ChangeCipherSpec, or exactly its fragment from the offset on, in the epoch of the message and under the next number of that epoch |
| DtlsArrival.PieceParses | PetIT/Pods/BoringSSL-GRPC/ssl/d1_both.cc:710-722 | That fragment parses back to the message's header, the offset and those body bytes |
| DtlsSend.FollowTiles | PetIT/Pods/BoringSSL-GRPC/ssl/d1_both.cc:644-780 | Pieces that lead from one cursor to another carry, of every message, exactly its bytes in between, in order, without gap or overlap |
| DtlsSend.PacketTiles | PetIT/Pods/BoringSSL-GRPC/ssl/d1_both.cc:739-780 | A packet moves the cursor along its own pieces, stays within the MTU, and brings (messages left, bytes left) down if it carries anything |
| DtlsSend.EnoughRoomProgresses | PetIT/Pods/BoringSSL-GRPC/ssl/d1_both.cc:739-780 | With room for a fragment header, one byte and the overhead, sealing never reports that the MTU is too small |
| DtlsSend.FlightTiles | PetIT/Pods/BoringSSL-GRPC/ssl/d1_both.cc:782-827 | Across any interleaving of refused and resumed writes the packets accepted tile the flight up to the cursor, and none is longer than the MTU |
| DtlsSend.RunFlightSnoc | PetIT/Pods/BoringSSL-GRPC/ssl/d1_both.cc:797-815 | A run of the write loop grows by one turn at its end, so interrupting and resuming at any packet makes no difference |
| DtlsSender.Sender.SetWriteState | PetIT/Pods/BoringSSL-GRPC/ssl/dtls_method.cc:97-107 | The current write keys and counter become the previous ones, and a new epoch starts at zero |
| DtlsSender.Sender.ClearOutgoing | PetIT/Pods/BoringSSL-GRPC/ssl/d1_both.cc:500-509 | Leaves an empty flight and the cursor at its start |
| DtlsSender.Sender.AddOutgoing | PetIT/Pods/BoringSSL-GRPC/ssl/d1_both.cc:555-594 | A flushed flight is cleared first; an eighth message is refused and leaves the flight as it is; ChangeCipherSpec takes no message number; the message carries the epoch of DtlsEpochs.RecordsKeepTheirEpoch |
| DtlsSender.Sender.SealInto | PetIT/Pods/BoringSSL-GRPC/ssl/dtls_record.cc:294-351 | Writes the record of the sealing function at the given place, leaves the bytes before it alone |
| DtlsSender.Sender.SealMessageInto | PetIT/Pods/BoringSSL-GRPC/ssl/d1_both.cc:644-737 | Each of the four outcomes, with cursor, counters and output bytes, is that of the fragmenting function |
| DtlsSender.Sender.SealPacketInto | PetIT/Pods/BoringSSL-GRPC/ssl/d1_both.cc:739-780 | The loop over a packet buffer produces the packet, the cursor and the counters of the packing function |
| DtlsSender.Sender.SendOnePacket | PetIT/Pods/BoringSSL-GRPC/ssl/d1_both.cc:800-815 | A refused packet takes the cursor back but not the record numbers; an accepted one brings the flight strictly closer to its end |
| DtlsSender.Sender.SendFlight | PetIT/Pods/BoringSSL-GRPC/ssl/d1_both.cc:782-827 | Terminates; the packets accepted since the last rewind tile the flight up to the cursor, all within the MTU; success means the whole flight is out |
| DtlsSender.Sender.FlushFlight | PetIT/Pods/BoringSSL-GRPC/ssl/d1_both.cc:829-834 | Marks the flight complete and writes it from where it stood: the packets accepted tile it up to the cursor, and success means the whole flight is out |
| DtlsSender.Sender.Retransmit | PetIT/Pods/BoringSSL-GRPC/ssl/d1_both.cc:836-845 | Starts again at the first message; on success the cursor is at the end and the packets written carry every message of the flight completely |
| DtlsSender.Sender.UpdateMtu | PetIT/Pods/BoringSSL-GRPC/ssl/d1_both.cc:615-636 | The MTU ends at least at the minimum unless querying is off; an answer out of range gives the default |
| DtlsDelivery.SealedRecordOpens | PetIT/Pods/BoringSSL-GRPC/ssl/dtls_record.cc:177-351 | What dtls_seal_record seals, followed by anything, parses, and the peer's context opens it to the same plaintext |
| DtlsArrival.SealedRecordAccepted | PetIT/Pods/BoringSSL-GRPC/ssl/dtls_record.cc:177-351 | dtls_open_record accepts it, with that plaintext, in a reader of its epoch to whose window the number is new; a reader of another epoch drops just that record and reads on |
| DtlsDelivery.PacketHonest | PetIT/Pods/BoringSSL-GRPC/ssl/d1_both.cc:739-780 | Every record of every packet packed from queued messages opens to a fragment of one of them |
| DtlsDelivery.HonestFragmentKeepsRing | PetIT/Pods/BoringSSL-GRPC/ssl/d1_both.cc:352-405 | After any honest fragment all bytes held agree with the queued message of that number |
| DtlsDelivery.ReleasedIsQueued | PetIT/Pods/BoringSSL-GRPC/ssl/d1_both.cc:408-424 | A complete message that agrees with the queue is, header included, byte for byte the queued one |
| DtlsDelivery.NextKeepsInv | PetIT/Pods/BoringSSL-GRPC/ssl/d1_both.cc:211-845 | Every step of sender, network and receiver keeps the end-to-end invariant |
| DtlsDelivery.DeliveredIsPrefixOfQueued | PetIT/Pods/BoringSSL-GRPC/ssl/d1_both.cc:211-845 | For all runs, whatever the MTUs, write failures, retransmissions, losses, duplications and reorderings, the messages released by get and next are byte for byte a prefix of the messages queued, and the message at hand between get and next is the one after them |
| DtlsEpochs.RecordsKeepTheirEpoch | PetIT/Pods/BoringSSL-GRPC/ssl/d1_both.cc:555-827 | In every run, every packet ever sent is whole records, each of which opens under the keys of the epoch in its header and carries a fragment of a message, or a ChangeCipherSpec, that was queued after just that many key changes: also when sent again, and after further key changes |
| DtlsEpochs.ReadInItsEpoch | PetIT/Pods/BoringSSL-GRPC/ssl/dtls_method.cc:81-95 | In every run, a message that is ready to be got was queued in the epoch being read, and so was a ChangeCipherSpec that waits: nothing left over crosses a change of read keys |
| DtlsEpochs.FlightIsSinceFlush | PetIT/Pods/BoringSSL-GRPC/ssl/d1_both.cc:555-594 | In every run, what would be sent again is exactly the messages queued since the last flush that others were queued after |
| DtlsProgress.FragmentAddsItsBytes | PetIT/Pods/BoringSSL-GRPC/ssl/d1_both.cc:362-402 | One accepted fragment adds its bytes to its message and nothing to any other |
| DtlsProgress.HeldIsArrived | PetIT/Pods/BoringSSL-GRPC/ssl/d1_both.cc:352-405 | After any accepted fragments in any order the bytes held for a message are exactly those that arrived |
| DtlsProgress.CompleteExactlyWhenArrived | PetIT/Pods/BoringSSL-GRPC/ssl/d1_both.cc:255-424 | The next message becomes available if and only if a fragment of it and every one of its bytes has arrived |
| DtlsProgress.FlightCompletesMessage | PetIT/Pods/BoringSSL-GRPC/ssl/d1_both.cc:644-845 | If the bytes of every piece of a fully written flight are among the fragments accepted, in any order and among any others, the message the receiver waits for is complete |
| DtlsArrival.RecordArrives | PetIT/Pods/BoringSSL-GRPC/ssl/d1_both.cc:297-406 | Reading one record of a flight is no error, consumes exactly that record, and adds its bytes to the message waited for if it is of that message |
| DtlsArrival.OtherRecordArrives | PetIT/Pods/BoringSSL-GRPC/ssl/d1_both.cc:297-350 | Application data are passed over under keys and an error in the clear, ChangeCipherSpec the other way round, other types an error; nothing but the window, and the note of a ChangeCipherSpec, changes |
| DtlsArrival.FlightArrives | PetIT/Pods/BoringSSL-GRPC/ssl/d1_both.cc:644-845 | Reading all packets of a run of the write loop, refusals and resumptions included, the receiver holds the bytes of every piece that was written |
| DtlsArrival.FlightCompletesAwaited | PetIT/Pods/BoringSSL-GRPC/ssl/d1_both.cc:836-845 | When the packets of a flight written to its end, as by a successful retransmission, reach a receiver of the epoch whose window has seen only earlier numbers, the message it waits for becomes complete and is the queued one |
| PbWire.VarintRoundTrip | PetIT/Pods/nanopb/pb_decode.c:250-270 | Every 64-bit value decodes from its encoding, and exactly its bytes are consumed |
| PbWire.VarintAtMostTenBytes | PetIT/Pods/nanopb/pb_encode.c:574-594 | A 64-bit value takes between one and ten bytes, so the ten-byte buffer is enough |
| PbWire.Varint32IsLow | PetIT/Pods/nanopb/pb_decode.c:182-242 | On any varint ended within ten bytes a success of the 32-bit decoder returns the low 32 bits of the 64-bit decoder and consumes the same bytes |
| PbWire.Varint32RoundTrip | PetIT/Pods/nanopb/pb_decode.c:182-242 | Every canonical 32-bit value is accepted and returned |
| PbWire.Varint32AcceptsNegative | PetIT/Pods/nanopb/pb_decode.c:182-242 | Every negative int32 in its ten-byte sign-extended form is accepted |
| PbWire.ZigZagRoundTrip | PetIT/Pods/nanopb/pb_decode.c:1240-1252 | ZigZag maps every int64 into 64 bits and back to itself |
| PbWire.UnZigZagRoundTrip | PetIT/Pods/nanopb/pb_encode.c:596-605 | Every 64-bit word is the ZigZag of exactly one int64 |
| PbWire.FixedRoundTrip | PetIT/Pods/nanopb/pb_decode.c:1254-1286 | Fixed-width little-endian bytes give their value back |
| PbWire.VarintByte | PetIT/Pods/nanopb/pb_encode.c:574-594 | Byte k of a varint holds bits 7k to 7k + 6, its top bit set exactly when another follows |
| PbWire.FixedByte | PetIT/Pods/nanopb/pb_encode.c:607-633 | Byte k of a fixed-width integer holds bits 8k to 8k + 7 |
| PbWire.ZigZagOrder | PetIT/Pods/nanopb/pb_encode.c:596-605 | Codes grow with the magnitude, a negative number just before its positive |
| PbIter.UnionMembersOverlap | PetIT/Pods/nanopb/pb_common.c:43-50 | All members of a union share the data and the which_ location of the first |
| PbIter.FieldsApart | PetIT/Pods/nanopb/pb_common.c:43-68 | Without a union between them, the whole of a field, every item of an array included, lies before any later field |
| PbIter.FieldIter.Next | PetIT/Pods/nanopb/pb_common.c:20-76 | pData, pSize and required_field_index depend only on the position, never on the way round the ring |
| PbIter.FieldIter.Find | PetIT/Pods/nanopb/pb_common.c:78-95 | Searching from anywhere finds the field with the tag if there is one and otherwise comes back to where it was |
| PbSeen.FieldsSeen.Mark | PetIT/Pods/nanopb/pb_decode.c:988-993 | Setting a bit of the right word adds exactly that field to the set seen |
| PbSeen.FieldsSeen.AllPresent | PetIT/Pods/nanopb/pb_decode.c:1008-1046 | The word-wise check holds if and only if every required field was seen |
| PbRoundTrip.ScalarRoundTrip | PetIT/Pods/nanopb/pb_encode.c:734-868 | Every storable value of every scalar type comes back from its own bytes, up to what follows a NUL in a string |
| PbRoundTrip.StringComesBackIffTerminated | PetIT/Pods/nanopb/pb_decode.c:1428-1461 | A string decodes from its own encoding if and only if it has a NUL within its buffer; one that fills it still encodes |
| PbRoundTrip.KeyRoundTrip | PetIT/Pods/nanopb/pb_encode.c:635-639 | A key for a tag from 1 to 2^29 - 1 decodes to that tag and wire type |
| PbRoundTrip.PackedRoundTrip | PetIT/Pods/nanopb/pb_decode.c:421-447 | A packed array comes back item by item |
| PbRoundTrip.UnpackedRoundTrip | PetIT/Pods/nanopb/pb_decode.c:449-459 | An unpacked array comes back one key at a time, with any fields after it |
| PbRoundTrip.SubmessageRoundTrip | PetIT/Pods/nanopb/pb_decode.c:1463-1485 | A nested message comes back over its defaults, at every depth |
| PbRoundTrip.LoopMeetsField | PetIT/Pods/nanopb/pb_decode.c:901-997 | At a field's own key the loop decodes that field, whatever the others hold |
| PbRoundTrip.SlotRoundTrip | PetIT/Pods/nanopb/pb_encode.c:307-392 | The bytes of any one field, of any kind, advance the decoded message by exactly that field |
| PbRoundTrip.SeenCounts | PetIT/Pods/nanopb/pb_decode.c:1008-1046 | After all fields are decoded every tracked required field has been seen |
| PbRoundTrip.MessageRoundTrip | PetIT/Pods/nanopb/pb_decode.c:901-1063 | Decoding what was encoded succeeds, reads everything, and gives the message in its normal form |
| PbRoundTrip.ZeroIsDefault | PetIT/Pods/nanopb/pb_encode.c:215-303 | A proto3 value that is not sent is the one the receiver starts from |
| PbRoundTrip.RoundTrip | PetIT/Pods/nanopb/pb_decode.c:901-1063 | pb_decode of the output of pb_encode succeeds, consumes all of it and gives back the message, up to absent-field contents and what follows a string's NUL, for every descriptor with unique tags and every storable message below 2^32 bytes |
| PbMerge.ValueExtends | PetIT/Pods/nanopb/pb_decode.c:1289-1508 | A field decoder that succeeds does the same with more bytes behind, and leaves them |
| PbMerge.SkipExtends | PetIT/Pods/nanopb/pb_decode.c:316-326 | Skipping a field takes the same bytes whatever follows, and leaves what follows |
| PbMerge.KeyedExtends | PetIT/Pods/nanopb/pb_decode.c:901-997 | One turn of the decoding loop that succeeds does the same with more bytes behind, and leaves them |
| PbMerge.LoopOfConcatenation | PetIT/Pods/nanopb/pb_decode.c:901-997 | The loop over a ++ b continues with b from the state reached after a |
| PbMerge.DecodeOfConcatenation | PetIT/Pods/nanopb/pb_decode.c:901-1049 | Without required fields, decoding a ++ b is decoding b into what decoding a left, if a holds no zero tag |
| PbMerge.ZeroTagEnds | PetIT/Pods/nanopb/pb_decode.c:293-314 | A zero tag ends the message and what follows is left unread |
| PbCompat.UnknownPayloadIgnored | PetIT/Pods/nanopb/pb_decode.c:273-326 | A field that the message does not have (any tag, and a varint of any length, 8 bytes, a length with its bytes, or 4 bytes, under wire types 0, 1, 2 and 5) changes neither message, verdict nor rest |
| PbCompat.BadUnknownRefused | PetIT/Pods/nanopb/pb_decode.c:316-326 | With another wire type, or cut short, it makes the decode fail |
| PbCompat.EncodedIgnored | PetIT/Pods/nanopb/pb_encode.c:641-672 | Every value of every type, written with its key, is passed over by a reader that does not have the field: the key names the wire type its value has |
| PbCompat.ForeignFieldsIgnored | PetIT/Pods/nanopb/pb_encode.c:307-516 | A whole message of fields that the reader does not have, as encoded, arrays, oneofs and nested messages included, changes nothing |
| PbCompat.WidthsAgree | PetIT/Pods/nanopb/pb_encode.c:734-791 | An integer is the same bytes in every width that it fits, negative ones too, so a reader of one width takes it from a writer of another |
| PbCompat.PackedOrNot | PetIT/Pods/nanopb/pb_decode.c:410-470 | An array of numbers is read packed and unpacked alike, appended to what is there |
| PbCompat.OccurrencesMerge | PetIT/Pods/nanopb/pb_decode.c:1463-1485 | A submessage that comes twice is the same as once with both contents behind each other: the second merges into the first |
| PbCompat.DefaultsAreNothing | PetIT/Pods/nanopb/pb_encode.c:215-303 | A proto3 message that holds its defaults, nested ones included, encodes to no bytes, and no bytes decode to it |
| PbCompat.EmptyIsDefault | PetIT/Pods/nanopb/pb_decode.c:1391-1508 | A length of 0 stands for the value that a bytes, string or fixed-length field without a default starts from |
| PbDecoded.DecodedExclusive | PetIT/Pods/nanopb/pb_decode.c:401-480 | Of every message that decodes: at most one member of a oneof is active, at every depth |
| PbDecoded.LastMemberWins | PetIT/Pods/nanopb/pb_decode.c:458-475 | Of the members of a oneof that come, the last stays |
| PbDecoded.MemberStartsAfresh | PetIT/Pods/nanopb/pb_decode.c:458-475 | A submessage in a oneof starts from its defaults each time it comes, whatever the storage held |
| PbDecoded.DecodedFits | PetIT/Pods/nanopb/pb_decode.c:1289-1508 | Whatever bytes decode, numbers fit their width, bytes, strings with their NUL and arrays the room they have, at every depth |
| PbDecoded.DecodedComesBack | PetIT/Pods/nanopb/pb_decode.c:901-1063 | Whatever bytes decode, the message encodes, and decoding that gives it back: other orders, parts and unknown fields come to one form |
| PbDecoded.DecodesIffRequiredMet | PetIT/Pods/nanopb/pb_decode.c:978-1049 | Decoding succeeds exactly when every field does and each required one (of the first 64) has come |
| PbEncoder.VarintToBuffer | PetIT/Pods/nanopb/pb_encode.c:574-594 | The loop fills a ten-byte buffer, never beyond it, with exactly the varint |
| PbEncoder.OStream.Write | PetIT/Pods/nanopb/pb_encode.c:72-119 | Succeeds exactly when there is room, appends exactly the bytes and touches nothing beyond; a counting stream counts |
| PbEncoder.OStream.EncodeVarint | PetIT/Pods/nanopb/pb_encode.c:574-594 | Writes the varint exactly when it fits |
| PbEncoder.OStream.EncodeTag | PetIT/Pods/nanopb/pb_encode.c:635-639 | Writes the key exactly when it fits |
| PbEncoder.OStream.EncodeString | PetIT/Pods/nanopb/pb_encode.c:674-680 | Writes length and bytes exactly when they fit |
| PbEncoder.OStream.StringLength | PetIT/Pods/nanopb/pb_encode.c:831-855 | The loop stops at the first NUL or at the buffer's end |
| PbEncoder.OStream.EncodeScalarValue | PetIT/Pods/nanopb/pb_encode.c:734-868 | Each scalar encoder writes what the encoding function says and fails on no other value |
| PbEncoder.FixedItemsSize | PetIT/Pods/nanopb/pb_encode.c:145-155 | The computed size of a packed fixed-width array is the size of its encoding |
| PbEncoder.OStream.EncodeItemArray | PetIT/Pods/nanopb/pb_encode.c:126-211 | Sizes, key and items of packed and unpacked arrays as the encoding function says, on counting and writing streams alike |
| PbEncoder.OStream.EncodeAgain | PetIT/Pods/nanopb/pb_encode.c:708-729 | The second pass into a substream of exactly the size found succeeds with that size: the size-changed error cannot occur |
| PbEncoder.OStream.EncodeSubmessage | PetIT/Pods/nanopb/pb_encode.c:682-730 | Two-pass encoding writes the length and the message exactly when both fit |
| PbEncoder.OStream.EncodeBasicField | PetIT/Pods/nanopb/pb_encode.c:307-392 | A required, optional, proto3, oneof or repeated field is written or left out as the encoding function says |
| PbEncoder.OStream.Encode | PetIT/Pods/nanopb/pb_encode.c:494-516 | Writes the encoding of the message exactly when it has one that fits |
| PbEncoder.OStream.GetEncodedSize | PetIT/Pods/nanopb/pb_encode.c:533-542 | Succeeds exactly for encodable messages and returns the length of the encoding |
| PbEncoder.EncodeToBuffer | PetIT/Pods/nanopb/pb_encode.c:494-542 | With n from pb_get_encoded_size, pb_encode into capacity c succeeds exactly when c >= n and then writes exactly n bytes |
| PbDecoder.IStream.Read | PetIT/Pods/nanopb/pb_decode.c:85-132 | Gives the next n bytes exactly when there are that many |
| PbDecoder.IStream.DecodeVarint | PetIT/Pods/nanopb/pb_decode.c:250-270 | The loop returns the value and the rest of the decoding function, and fails exactly when it does |
| PbDecoder.IStream.DecodeVarint32 | PetIT/Pods/nanopb/pb_decode.c:182-242 | The 32-bit loop with its eight-bit bit position returns the value and the rest of its decoding function and fails exactly when it does; eof says that the stream was empty to begin with |
| PbDecoder.IStream.DecodeTag | PetIT/Pods/nanopb/pb_decode.c:293-314 | Fails on a zero key and reports it as the end; otherwise splits tag and wire type |
| PbDecoder.IStream.SkipField | PetIT/Pods/nanopb/pb_decode.c:316-326 | Skips exactly one field of the wire type |
| PbDecoder.IStream.MakeSubstream | PetIT/Pods/nanopb/pb_decode.c:367-380 | Splits the stream at the length: the substream holds exactly the delimited bytes, the parent those after |
| PbDecoder.IStream.CloseSubstream | PetIT/Pods/nanopb/pb_decode.c:382-395 | The parent goes on right after the substream, however much of it was read |
| PbDecoder.IStream.DecodeNumber | PetIT/Pods/nanopb/pb_decode.c:1289-1372 | The three varint field decoders store the value of the decoding function, with the same range errors |
| PbDecoder.IStream.DecodeBlob | PetIT/Pods/nanopb/pb_decode.c:1391-1461 | The bytes and string decoders accept exactly what fits the field |
| PbDecoder.IStream.DecodeSubmessage | PetIT/Pods/nanopb/pb_decode.c:1463-1485 | Merges into the nested message that is there, except that a repeated item starts from defaults |
| PbDecoder.IStream.SetToDefaults | PetIT/Pods/nanopb/pb_decode.c:812-895 | Every field is set to the default of its kind |
| PbDecoder.IStream.DecodePackedArray | PetIT/Pods/nanopb/pb_decode.c:421-447 | Appends the items up to the capacity; bytes left over are an error |
| PbDecoder.IStream.DecodeStaticField | PetIT/Pods/nanopb/pb_decode.c:401-476 | Changes the destination as the slot decoder says and deactivates only members of the same oneof |
| PbDecoder.IStream.DecodeNext | PetIT/Pods/nanopb/pb_decode.c:914-997 | One turn of the loop on stream, iterator, bit words and destination is one turn of the abstract loop |
| PbDecoder.SeenIsRequired | PetIT/Pods/nanopb/pb_decode.c:988-993 | Only numbers of required fields are ever marked as seen |
| PbDecoder.IStream.DecodeNoinit | PetIT/Pods/nanopb/pb_decode.c:901-1049 | Succeeds exactly when the decoding function does, with its message and its rest |
| PbDecoder.IStream.Decode | PetIT/Pods/nanopb/pb_decode.c:1051-1063 | From the defaults, succeeds exactly when the decoding function of the round trip does, with its message and its rest |
| TlsScript.FinishedOnceInOrder | PetIT/Pods/BoringSSL-GRPC/ssl/handshake_client.cc:1457-1512 | A whole handshake holds each side's Finished once, under the new keys and after that side's ChangeCipherSpec; who comes first is fixed by resumption (section 7.3 of RFC 5246) |
| TlsScript.FullHolds | PetIT/Pods/BoringSSL-GRPC/ssl/handshake_server.cc:1539-1621 | Which of the messages that may be left out a whole full handshake holds, flag by flag |
| TlsScript.ResumedHolds | PetIT/Pods/BoringSSL-GRPC/ssl/handshake_server.cc:1539-1621 | A resumed one holds no certificate, request or key exchange |
| TlsScript.ScriptInTurn | PetIT/Pods/BoringSSL-GRPC/ssl/handshake_server.cc:1539-1621 | Every handshake, full or resumed, is spoken in turns that either side can tell from what it has seen |
| TlsScript.SameHistory | PetIT/Pods/BoringSSL-GRPC/ssl/handshake_client.cc:1707-1789 | Two parties that keep to their turns over FIFO channels have the same history as far as both have got |
| TlsScript.ClientItemsAgree | PetIT/Pods/BoringSSL-GRPC/ssl/handshake_server.cc:1439-1461 | What the server consumes at a place the client sent at that place, after the same history and transcript |
| TlsScript.ServerItemsAgree | PetIT/Pods/BoringSSL-GRPC/ssl/handshake_client.cc:1658-1672 | What the client consumes at a place the server sent at that place, after the same history and transcript |
| TlsConnection.Connection.OpenHandshake | PetIT/Pods/BoringSSL-GRPC/ssl/s3_both.cc:474-560 | Only messages under the current read keys become ready; a V2ClientHello enters the transcript here, nothing else does |
| TlsConnection.Connection.OpenChangeCipherSpec | PetIT/Pods/BoringSSL-GRPC/ssl/s3_pkt.cc:351-375 | One ChangeCipherSpec is consumed, and no ready message may be left over when keys change |
| TlsConnection.Connection.HashMessage | PetIT/Pods/BoringSSL-GRPC/ssl/handshake.cc:215-222 | Afterwards the message at hand is in the transcript once, whether it was hashed when opened or now |
| TlsConnection.Connection.NextMessage | PetIT/Pods/BoringSSL-GRPC/ssl/s3_both.cc:562-583 | The message passes into the log; everything sent and consumed has been hashed exactly once and in order |
| TlsConnection.Connection.NextAndReset | PetIT/Pods/BoringSSL-GRPC/ssl/handshake_client.cc:491-533 | HelloVerifyRequest is consumed unhashed and empties the transcript (section 4.2.1 of RFC 6347) |
| TlsConnection.Connection.AddMessage | PetIT/Pods/BoringSSL-GRPC/ssl/s3_both.cc:184-205 | A message sent enters flight and transcript once |
| TlsConnection.Connection.AddChangeCipherSpec | PetIT/Pods/BoringSSL-GRPC/ssl/s3_both.cc:207-218 | A ChangeCipherSpec is sent and does not enter the transcript |
| TlsConnection.Connection.SendFinished | PetIT/Pods/BoringSSL-GRPC/ssl/handshake.cc:431-476 | The Finished sent carries the MAC of the transcript before it |
| TlsConnection.Connection.GetFinished | PetIT/Pods/BoringSSL-GRPC/ssl/handshake.cc:380-429 | Accepted only if it is a Finished under the new keys whose MAC is that of the transcript before it; a wait or failure consumes nothing |
| TlsClient.Client.DoReadHelloVerifyRequest | PetIT/Pods/BoringSSL-GRPC/ssl/handshake_client.cc:491-533 | Keeps the invariant: a HelloVerifyRequest resets the transcript and a second ClientHello follows, anything else is left for the next state |
| TlsClient.Client.DoReadServerHello | PetIT/Pods/BoringSSL-GRPC/ssl/handshake_client.cc:535-759 | Keeps the invariant, and fixes whether the session is resumed |
| TlsClient.Client.DoReadCertificateStatus | PetIT/Pods/BoringSSL-GRPC/ssl/handshake_client.cc:821-869 | Keeps the invariant also when the server announced the message and does not send it |
| TlsClient.Client.DoVerifyServerCertificate | PetIT/Pods/BoringSSL-GRPC/ssl/handshake_client.cc:871-889 | Goes on past a certificate cipher only after ssl_verify_peer_cert succeeded; may be repeated |
| TlsClient.Client.DoReadServerKeyExchange | PetIT/Pods/BoringSSL-GRPC/ssl/handshake_client.cc:891-1071 | The message is taken exactly when it is the next one; going on without it is impossible for ECDHE, with it for RSA, and either way possible for PSK |
| TlsClient.Client.DoSendClientCertificate | PetIT/Pods/BoringSSL-GRPC/ssl/handshake_client.cc:1169-1215 | Asked for a certificate, the client sends a Certificate message, with an empty list exactly when it has none; not asked, nothing |
| TlsClient.Client.DoSendClientKeyExchange | PetIT/Pods/BoringSSL-GRPC/ssl/handshake_client.cc:1220-1371 | Sent and hashed once, on a verified certificate, even when the step fails after sending |
| TlsClient.Client.DoSendClientCertificateVerify | PetIT/Pods/BoringSSL-GRPC/ssl/handshake_client.cc:1373-1455 | A private key that answers later leaves no trace until it does; then exactly one message |
| TlsClient.Client.DoSendClientFinished | PetIT/Pods/BoringSSL-GRPC/ssl/handshake_client.cc:1457-1512 | ChangeCipherSpec, NextProto, ChannelID and Finished in this order, the last three under the new keys, once each |
| TlsClient.Client.DoFinishFlight | PetIT/Pods/BoringSSL-GRPC/ssl/handshake_client.cc:1514-1564 | False Start, the one early way out, is for full TLS handshakes with ECDHE only |
| TlsClient.Client.DoReadServerFinished | PetIT/Pods/BoringSSL-GRPC/ssl/handshake_client.cc:1658-1672 | The server's Finished is accepted at its place only |
| TlsClient.Client.Step | PetIT/Pods/BoringSSL-GRPC/ssl/handshake_client.cc:1707-1789 | Every step of the client keeps log = script, exactly-once hashing and the keys of the state; it lowers the rank unless it has to be repeated, and then it has done nothing |
| TlsClient.Client.Handshake | PetIT/Pods/BoringSSL-GRPC/ssl/handshake_client.cc:1707-1789 | The loop terminates; it returns ok only in the last state |
| TlsClient.Client.InvIsSafe | PetIT/Pods/BoringSSL-GRPC/ssl/handshake_client.cc:871-1371 | In every state a client key exchange in the log implies a verified certificate, if the cipher has one and the session is new |
| TlsClient.Client.Run | PetIT/Pods/BoringSSL-GRPC/ssl/handshake.cc:491-628 | Terminates whatever arrives; calling again after any wait continues the same run, and the log only grows |
| TlsClient.Client.Completed | PetIT/Pods/BoringSSL-GRPC/ssl/handshake_client.cc:1674-1705 | A completed client has sent and consumed exactly the script, every Finished carries the MAC of the transcript before it, both directions use the new keys, and a certificate cipher was verified |
| TlsClient.Client.CompletedFull | PetIT/Pods/BoringSSL-GRPC/ssl/handshake_client.cc:1073-1455 | After a full handshake CertificateVerify is in the log exactly when a certificate was asked for and the client has one; requests come only from servers with a certificate, which was verified; ServerKeyExchange, status and ticket are as announced |
| TlsClient.Client.CompletedResumed | PetIT/Pods/BoringSSL-GRPC/ssl/handshake_client.cc:1538-1647 | After a resumption no certificates and no key exchange are; a ticket exactly as announced |
| TlsServer.Server.DoSelectParameters | PetIT/Pods/BoringSSL-GRPC/ssl/handshake_server.cc:572-684 | The ClientHello, looked at by three steps, is hashed and consumed once, here, and it is settled whether a client certificate is asked for |
| TlsServer.Server.DoSendServerHello | PetIT/Pods/BoringSSL-GRPC/ssl/handshake_server.cc:686-752 | Settles whether Channel ID is used: dropped without ECDHE, and on resuming a session that has no hashes for it |
| TlsServer.Server.DoSendServerKeyExchange | PetIT/Pods/BoringSSL-GRPC/ssl/handshake_server.cc:842-912 | Nothing is sent before the signature is there; then exactly one message |
| TlsServer.Server.DoReadClientCertificate | PetIT/Pods/BoringSSL-GRPC/ssl/handshake_server.cc:949-1040 | A client has a key exactly when its certificate list is not empty; where a certificate is required there is no going on without one |
| TlsServer.Server.DoVerifyClientCertificate | PetIT/Pods/BoringSSL-GRPC/ssl/handshake_server.cc:1042-1056 | Goes on with a client key only after ssl_verify_peer_cert succeeded |
| TlsServer.Server.DoReadClientKeyExchange | PetIT/Pods/BoringSSL-GRPC/ssl/handshake_server.cc:1058-1267 | Decryption answered later leaves the message unhashed and unconsumed; then it is hashed once |
| TlsServer.Server.DoReadClientCertificateVerify | PetIT/Pods/BoringSSL-GRPC/ssl/handshake_server.cc:1269-1363 | Goes on with a client key only after its signature was checked; without one no message is consumed |
| TlsServer.Server.DoReadClientFinished | PetIT/Pods/BoringSSL-GRPC/ssl/handshake_server.cc:1439-1461 | The client's Finished is accepted at its place only |
| TlsServer.Server.InvIsSafe | PetIT/Pods/BoringSSL-GRPC/ssl/handshake_server.cc:1042-1461 | In every state of a full handshake the Finished of a client that showed a certificate has been accepted only after the certificate was verified and its key proved |
| TlsServer.Server.DoSendServerFinished | PetIT/Pods/BoringSSL-GRPC/ssl/handshake_server.cc:1463-1509 | NewSessionTicket under the old keys, ChangeCipherSpec, Finished under the new ones, once each |
| TlsServer.Server.Step | PetIT/Pods/BoringSSL-GRPC/ssl/handshake_server.cc:1539-1621 | Every step of the server keeps log = script, exactly-once hashing and the keys of the state; it lowers the rank unless it has to be repeated, and then it has done nothing |
| TlsServer.Server.Handshake | PetIT/Pods/BoringSSL-GRPC/ssl/handshake_server.cc:1539-1621 | The loop terminates; it returns ok only in the last state |
| TlsServer.Server.Run | PetIT/Pods/BoringSSL-GRPC/ssl/handshake.cc:491-628 | Terminates whatever arrives; calling again after any wait continues the same run, and the log only grows; even after an error the client's Finished has not been accepted from an unproved certificate |
| TlsServer.Server.Completed | PetIT/Pods/BoringSSL-GRPC/ssl/handshake_server.cc:1511-1537 | A completed server has sent and consumed exactly the script, with correct Finished messages both ways, and a client that showed a certificate had it verified and proved its key |
| TlsServer.Server.CompletedFull | PetIT/Pods/BoringSSL-GRPC/ssl/handshake_server.cc:636-1040 | After a full handshake CertificateRequest is in the log exactly when the server is set up to ask, on a certificate cipher, and the exception for Channel ID does not apply; then, if one is required, the client certificate was verified and its key proved; ServerKeyExchange, CertificateStatus, ticket and Channel ID are there exactly as cipher, hint and offers say |
| TlsServer.Server.CompletedResumed | PetIT/Pods/BoringSSL-GRPC/ssl/handshake_server.cc:596-752 | After a resumption no certificate and no request is; ticket and Channel ID exactly as the session says |
| TlsAgreement.ClientFinishedAgrees | PetIT/Pods/BoringSSL-GRPC/ssl/handshake_server.cc:1439-1461 | The Finished the server checked is the one the client made, at the same place over the same transcript (section 7.4.9 of RFC 5246) |
| TlsAgreement.ServerFinishedAgrees | PetIT/Pods/BoringSSL-GRPC/ssl/handshake_client.cc:1658-1672 | The Finished the client checked is the one the server made, at the same place over the same transcript |
| TlsAgreement.CompletedAlike | PetIT/Pods/BoringSSL-GRPC/ssl/handshake.cc:380-476 | When both have completed, log and transcript are the same message for message, with nothing assumed about their negotiated parameters |
| TlsAgreement.Converse | PetIT/Pods/BoringSSL-GRPC/ssl/handshake.cc:491-628 | Any interleaving of calls of ssl_run_handshake on both sides with arrivals in order keeps the joint state that the agreement theorems ask for, until one side has failed |
| TlsAgreement.Connect | PetIT/Pods/BoringSSL-GRPC/ssl/handshake.cc:380-628 | From two new connections, in any run: unless one side failed, both being done means equal histories and transcripts |
| TlsMessages.SplitAppend | PetIT/Pods/BoringSSL-GRPC/ssl/s3_both.cc:399-425 | More bytes change nothing about the messages already complete |
| TlsMessages.MessagesOfConcat | PetIT/Pods/BoringSSL-GRPC/ssl/s3_both.cc:399-425 | Messages come out of their concatenation as they went in |
| TlsMessages.SplitIntoRecords | PetIT/Pods/BoringSSL-GRPC/ssl/s3_both.cc:184-205 | The pieces concatenate to the message, none is longer than a fragment, and there is at least one |
| TlsMessages.SendAll | PetIT/Pods/BoringSSL-GRPC/ssl/s3_both.cc:167-205 | The records of a flight of messages, each built and cut up in turn, concatenate to the messages, and none is longer than a fragment |
| TlsMessages.HandshakeBuffer.Append | PetIT/Pods/BoringSSL-GRPC/ssl/s3_both.cc:441-560 | Refused exactly while a whole message waits or when the one being assembled would be too long |
| TlsMessages.HandshakeBuffer.NextMessage | PetIT/Pods/BoringSSL-GRPC/ssl/s3_both.cc:562-583 | Takes exactly the first message off the buffer |
| TlsMessages.TakenArePrefix | PetIT/Pods/BoringSSL-GRPC/ssl/s3_both.cc:399-583 | However messages were cut into records and however far these have arrived, what has been taken is the first messages sent, whole and in order |
| TlsMessages.TakenAreBuilt | PetIT/Pods/BoringSSL-GRPC/ssl/s3_both.cc:167-583 | Of the records of a flight, as far as they have arrived, the reader takes exactly the first messages built, type, length and body |
| CipherChoice.Choose | PetIT/Pods/BoringSSL-GRPC/ssl/handshake_server.cc:388-424 | Returns nothing exactly when nothing is eligible; otherwise the cipher the other side prefers, of the first group with an eligible one |
| CipherChoice.WellGroupedEligible | PetIT/Pods/BoringSSL-GRPC/ssl/internal.h:1860-1893 | With group flags of the shape 1*0 repeated, eligible is the same as acceptable |
| CipherChoice.GroupedIff | PetIT/Pods/BoringSSL-GRPC/ssl/handshake_server.cc:388-424 | A preference list misses no acceptable cipher, whatever the ciphers, the client and the configuration, if and only if its flags have that shape; a list that ended inside a group would |
| CipherChoice.ChooseCipher | PetIT/Pods/BoringSSL-GRPC/ssl/handshake_server.cc:357-424 | Null exactly when no cipher is acceptable; with server preference the client-earliest of the first group with an acceptable one, without it the client's first acceptable one |
| Premaster.IsZeroMask | PetIT/Pods/BoringSSL-GRPC/crypto/internal.h:244-315 | All ones for zero and zero for anything else |
| Premaster.Eq8Mask | PetIT/Pods/BoringSSL-GRPC/crypto/internal.h:325-335 | All ones exactly for equal words |
| Premaster.SelectMask | PetIT/Pods/BoringSSL-GRPC/crypto/internal.h:357-362 | A mask of all ones or zero selects one of the two bytes |
| Premaster.CheckPadding | PetIT/Pods/BoringSSL-GRPC/ssl/handshake_server.cc:1149-1172 | The mask over the whole buffer is 0xff or 0, and 0xff exactly when padding (section 7.2.2 of RFC 3447) and version, high byte first, are right |
| Premaster.SelectPremaster | PetIT/Pods/BoringSSL-GRPC/ssl/handshake_server.cc:1149-1178 | The result is the decrypted 48 bytes exactly when the decryption is well formed, else the random ones, unchanged; shorter than 59 bytes is refused (section 7.4.7.1 of RFC 5246) |
| SslBuffer.NeverLosesIff | PetIT/Pods/BoringSSL-GRPC/ssl/ssl_buffer.cc:47-97 | At a capacity that EnsureCap grants, whatever the alignment, the contents and the amounts consumed, Consume keeps what is left if and only if the capacity is at most 0xfff9 |
| SslBuffer.Buffer.EnsureCap | PetIT/Pods/BoringSSL-GRPC/ssl/ssl_buffer.cc:47-81 | For every capacity: refused exactly above 0xffff or when a needed allocation fails; keeps the contents across reallocation and realigns; a buffer that can lose nothing stays so at every capacity but 0xfffa to 0xffff |
| SslBuffer.Buffer.Write | PetIT/Pods/BoringSSL-GRPC/ssl/ssl_buffer.cc:83-88 | Bytes copied in follow the old contents, which stay |
| SslBuffer.Buffer.Consume | PetIT/Pods/BoringSSL-GRPC/ssl/ssl_buffer.cc:90-97 | The first bytes leave, and the rest stay in order unless the 16-bit offset wraps with bytes left, which cannot happen in a buffer of safe capacity |
| SslBuffer.Buffer.DiscardConsumed | PetIT/Pods/BoringSSL-GRPC/ssl/ssl_buffer.cc:99-103 | Frees the memory if and only if nothing is left; nothing else changes |
| TlsWrite.Writer.AddRecordToFlight | PetIT/Pods/BoringSSL-GRPC/ssl/s3_both.cc:135-165 | One record is sealed and goes to the end of the flight, or nothing changes |
| TlsWrite.Writer.WriteBufferFlush | PetIT/Pods/BoringSSL-GRPC/ssl/ssl_buffer.cc:239-252 | Bytes move from buffer to transport in order; success if and only if the buffer is empty |
| TlsWrite.Writer.FlushFlight | PetIT/Pods/BoringSSL-GRPC/ssl/s3_both.cc:231-279 | Keeps wire ++ buffer ++ flight = records in sealing order, as long as no byte was lost; after success everything sealed is on the wire |
| TlsWrite.Writer.WritePending | PetIT/Pods/BoringSSL-GRPC/ssl/s3_pkt.cc:202-218 | Success only for a retry of the same kind that is long enough, with the buffer written out |
| TlsWrite.Writer.RoomyIff | PetIT/Pods/BoringSSL-GRPC/ssl/s3_pkt.cc:236-251 | The capacity do_ssl3_write asks for is safe, by a test on lengths known before the call, if and only if EnsureCap refuses it or a buffer of that capacity never loses a byte |
| TlsWrite.Writer.FillBuffer | PetIT/Pods/BoringSSL-GRPC/ssl/s3_pkt.cc:221-289 | For every flight and record: the unflushed flight goes in front of the new record, so sealing order is kept |
| TlsWrite.Writer.DoWrite | PetIT/Pods/BoringSSL-GRPC/ssl/s3_pkt.cc:221-289 | For every flight and record keeps the wire order; seals the data once, and returns its length only when all of it has been taken by the transport; nothing can be lost unless the capacity asked for is 0xfffa to 0xffff |
| TlsWrite.Writer.WriteAppData | PetIT/Pods/BoringSSL-GRPC/ssl/s3_pkt.cc:129-200 | Under partial and retried writes of the same data every byte is sealed once and in order. For any data the application bytes stay accounted for if and only if the connection is shut down or the data is at least as long as what has been written; the bytes sealed are data[written + pending ..] |
| TlsWrite.Writer.RetryAfterShorter | PetIT/Pods/BoringSSL-GRPC/ssl/s3_pkt.cc:144-164 | What the lost count leads to: after a refused shorter retry, the full retry starts at byte 0 again and seals everything behind the pending record, in addition to what was sealed before |
| TlsWrite.Writer.WriteWithRetries | PetIT/Pods/BoringSSL-GRPC/ssl/s3_pkt.cc:129-289 | Over any sequence of retries of one write, alerts, flushes and added handshake records, all orders are kept, and success means that the application data sealed and reported is exactly data[..ret], each byte once |
| TlsWrite.Writer.DispatchAlert | PetIT/Pods/BoringSSL-GRPC/ssl/s3_pkt.cc:405-423 | An alert at any time keeps both orders; unless a record is waiting it seals one record, an alert with these two bytes, and never application data |
| RefCount.LockedCount.Increment | PetIT/Pods/BoringSSL-GRPC/crypto/refcount_lock.c:29-35 | Adds one under the lock, except at 0xffffffff, where the count stays |
| RefCount.LockedCount.DecrementAndTestZero | PetIT/Pods/BoringSSL-GRPC/crypto/refcount_lock.c:37-51 | Aborts at zero, leaves a saturated count alone, and otherwise takes one off and returns one exactly when that leaves zero |
| RefCount.NextRefines | PetIT/Pods/BoringSSL-GRPC/crypto/refcount_c11.c:37-65 | Any step of any thread, a spurious failure included, keeps the refinement of the locked count |
| RefCount.RunRefines | PetIT/Pods/BoringSSL-GRPC/crypto/refcount_c11.c:37-65 | Every interleaving of any number of threads is a sequence of locked calls with the same count and the same results |
| RefCount.SaturationIsPermanent | PetIT/Pods/BoringSSL-GRPC/crypto/internal.h:402-416 | Once at 0xffffffff, for ever there |
| RefCount.CountIsBalance | PetIT/Pods/BoringSSL-GRPC/crypto/refcount_c11.c:37-65 | Below saturation the count is the initial one plus increments minus decrements |
| RefCount.RunKeepsBalance | PetIT/Pods/BoringSSL-GRPC/crypto/internal.h:402-416 | While threads call only on references they hold, the count is the references held and in flight |
| RefCount.ExactlyOneIsLast | PetIT/Pods/BoringSSL-GRPC/crypto/internal.h:402-416 | Under balanced ownership, unless saturated, nothing aborts, at most one decrement returns one, and exactly one has when all references are gone |

## Left out

DTLS
- Timers, message and info callbacks, allocation failure, alias checks on buffers, and the body of alert processing.
- `dtls1_on_handshake_complete` and its `flight_has_reply` bookkeeping: they only clear a finished flight.
- Bytes of a reassembly buffer that no fragment has written are not given a value; a message holds a map of the bytes
  received.
- In-place encryption: a fragment is assembled apart and copied, not sealed over itself.
- DtlsDelivery.DeliveredIsPrefixOfQueued: covers runs of fewer than 2^16 messages and of epochs below 2^16 - 1, after
  which the counters would repeat. The network holds what the sender wrote; forged packets are not among it.
- DtlsArrival.FlightCompletesAwaited: is about packets that arrive in order, and MTUs up to the largest plaintext of a
  record; the sender does not cut fragments to that length itself.

nanopb
- Pointer and callback fields, extensions, fixed-count arrays, custom streams and PB_WITHOUT_64BIT.
- Aliasing: members of a oneof have slots of their own, of which at most one is active, and nested messages are values.
  The offsets of union members are modelled in `PbIter`.
- PbDecoder.IStream.DecodeNoinit: does not say what the destination holds after a failure.
- PbDecoder.IStream.Decode: does not say so either.
- PbEncoder.OStream.Encode: asks that every size fits `size_t` and every number the width of its field, as in memory.
- The host's byte order, and floats other than as the bits of their fixed-width field.

TLS handshake
- TLS 1.3, early data, SSLv3, renegotiation, hand-off bodies, version negotiation and extension parsing.
- The transcript's hash contexts and buffers: the transcript is the sequence of messages, the Finished MAC a function
  of it.
- `can_false_start` beyond its conditions on DTLS and ECDHE, which are modelled; the rest is a free choice.
- `ssl_run_handshake` is one function in C and one method per side here.
- TlsAgreement.CompletedAlike: is about the items of two connections over FIFO channels; under DTLS that order is what
  `DtlsDelivery` provides.
- TlsServer.Server.Run: after an error what is promised is `Safe`, not that the log is still the script.
- `ssl3_read_v2_client_hello`: its result is a message that is marked as hashed already.

Write path and reference counts
- Early data and key updates. Sealing itself is a free choice of bytes within the overhead, or a failure.
- TlsWrite.Writer.DoWrite: wire order is promised as long as no byte of the write buffer was lost; the overflow check of
  `max_out` on a 64-bit size is not modelled.
- TlsWrite.Writer.DispatchAlert: sets no shutdown flag, which `ssl_send_alert` does before it.
- RefCount.RunRefines: each atomic access is one step, in the sequentially consistent order C11 gives these calls by
  default; `abort` is a result of the call, where the C code ends the process.

The Swift application, certificates and cryptographic primitives, ASN.1 session serialisation, timers in `d1_lib.cc`, and
platform glue are not part of this model.
