# lolichat core in Dafny

lolichat is a small TCP chat system written in C#. This project models its
core and proves properties of it:

- the byte helpers of `ChatClassLibrary/Utility.cs`: big-endian 32/64-bit
  integer encoding, array concatenation and slicing, and the hash string;
- the chat `Message` and its packet in `ChatClassLibrary/Protocols/Message.cs`:
  a 45-byte header (type and control code in one byte, sender and target
  Guid, big-endian send time, body length) followed by the UTF-8 text;
- the file-transfer protocol of `ChatClassLibrary/FileProtocol.cs`:
  - a 280-byte information packet (name padded to 256 bytes, 8-byte
    length, 16-byte MD5 digest);
  - a 256-byte accept/reject response;
  - a chunked transfer in pieces of `FtpBufferSize` (8192) bytes, with
    progress reports;
- the server of `ChatServer/ServerProgram.cs`:
  - its client table, keyed by client id;
  - the broadcast to every connected client;
  - admission of a client, with a duplicate id rejected and the id
    `exit` stopping the accept loop;
  - removal of a client, and the upload notice.

How the model is laid out:

- Network streams are modelled as sequences. What a sender writes is a
  sequence of packets; what a receiver reads is a byte sequence plus the
  sizes the stream grants to each read.
- A client connection is a `Connection` object whose `outbox` holds every
  message the server has sent to it. The server's static `ClientTable` is
  the `clientTable` field of a `ServerProgram` instance.
- The modules are `Utility` (utility.dfy), `ControlInfo` and `Protocols`
  (message.dfy), `FileProtocol` (file_protocol.dfy) and `ChatServer`
  (server_program.dfy). `Wrappers` (wrappers.dfy) holds `Option`.

## Model

| member | source | states |
|---|---|---|
| Utility.IntToBytes | ChatClassLibrary/Utility.cs:18-24 | returns a fresh 4-byte array holding the big-endian two's-complement encoding of the value (little-endian bytes, reversed) |
| Utility.LongToBytes | ChatClassLibrary/Utility.cs:44-50 | returns a fresh 8-byte array holding the big-endian two's-complement encoding of the value |
| Utility.BytesToInt | ChatClassLibrary/Utility.cs:31-37 | reverses the caller's whole array in place and returns the value whose big-endian encoding is the array's LAST four bytes |
| Utility.BytesToLong | ChatClassLibrary/Utility.cs:57-63 | reverses the caller's whole array in place and returns the value whose big-endian encoding is the array's last eight bytes |
| Utility.BytesToIntReadsLastFour | ChatClassLibrary/Utility.cs:26-37 | on [0,0,0,1,0], BytesToInt's contract gives 256, not the 1 that the first four bytes encode |
| Utility.BytesToIntOnFiveBytes | ChatClassLibrary/Utility.cs:26-37 | BytesToInt called on a fresh [0,0,0,1,0] returns 256 and leaves the array as [0,1,0,0,0], while the first four bytes encode 1 |
| Utility.IntRoundTrip | ChatClassLibrary/Utility.cs:18-37 | BytesToInt(IntToBytes(x)) == x for every 32-bit x |
| Utility.LongRoundTrip | ChatClassLibrary/Utility.cs:44-63 | BytesToLong(LongToBytes(x)) == x for every 64-bit x |
| Utility.Int32RoundTrip | ChatClassLibrary/Utility.cs:18-37 | decoding the 4-byte encoding of any Int32 gives it back |
| Utility.Int32Encodings | ChatClassLibrary/Utility.cs:18-37 | every 4-byte sequence is the encoding of the Int32 it decodes to (the codec is a bijection) |
| Utility.Int64RoundTrip | ChatClassLibrary/Utility.cs:44-63 | decoding the 8-byte encoding of any Int64 gives it back |
| Utility.Int64Encodings | ChatClassLibrary/Utility.cs:44-63 | every 8-byte sequence is the encoding of the Int64 it decodes to |
| Utility.BigEndianRoundTrip | ChatClassLibrary/Utility.cs:18-24 | an unsigned value below 256^n survives n-byte big-endian encoding and decoding |
| Utility.BigEndianInverse | ChatClassLibrary/Utility.cs:31-37 | re-encoding a decoded big-endian byte sequence gives the same bytes |
| Utility.ReversedLittleIsBig | ChatClassLibrary/Utility.cs:20-22 | reversing BitConverter's little-endian bytes gives the big-endian bytes |
| Utility.LittleOfReversed | ChatClassLibrary/Utility.cs:33-35 | reading reversed bytes as little-endian equals reading the original as big-endian |
| Utility.ReadInt32 | ChatClassLibrary/Utility.cs:26-37 | the Int32 whose encoding is the four bytes at the start index, the documented "first 4 bytes" reading |
| Utility.ReadInt64 | ChatClassLibrary/Utility.cs:52-63 | the Int64 whose encoding is the eight bytes at the start index |
| Utility.ReadInt32OfEncoding | ChatClassLibrary/Utility.cs:26-37 | reading the first four bytes of an encoding followed by anything gives the value back |
| Utility.ReadInt64OfEncoding | ChatClassLibrary/Utility.cs:52-63 | reading eight bytes at the offset where an encoding was placed gives the value back, whatever surrounds it |
| Utility.ToInt32 | ChatClassLibrary/Utility.cs:35 | BitConverter.ToInt32 on a little-endian host: the Int32 whose big-endian encoding is the four bytes at the index in reverse order |
| Utility.ToInt64 | ChatClassLibrary/Utility.cs:61 | BitConverter.ToInt64 on a little-endian host: the Int64 whose big-endian encoding is the eight bytes at the index in reverse order |
| Utility.BigEndianDigits | ChatClassLibrary/Utility.cs:13-24 | byte i of the n-byte big-endian encoding is base-256 digit n-1-i of the value: the most significant byte comes first |
| Utility.Reverse | ChatClassLibrary/Utility.cs:21-22 | Array.Reverse: the array's new contents are the reversal of its old contents |
| Utility.ReversedAt | ChatClassLibrary/Utility.cs:21-22 | element k of a reversed sequence is element \|s\|-1-k of the original |
| Utility.ReversedTwice | ChatClassLibrary/Utility.cs:31-35 | reversing a reversed sequence gives it back |
| Utility.ArrayCopy | ChatClassLibrary/Protocols/Message.cs:200-204 | Array.Copy: the destination range takes the source range; the rest of the destination is unchanged |
| Utility.Concat | ChatClassLibrary/Utility.cs:74-80 | returns a fresh array whose contents are x followed by y |
| Utility.ConcatAll | ChatClassLibrary/Utility.cs:88-101 | returns a fresh array whose contents are the given arrays' contents concatenated in order |
| Utility.FlattenAppend | ChatClassLibrary/Utility.cs:88-101 | concatenating a split list of parts equals concatenating the two halves' results |
| Utility.Slice | ChatClassLibrary/Utility.cs:103-108 | returns a fresh array holding exactly source[index..index+length] |
| Utility.ToHashString | ChatClassLibrary/Utility.cs:141-144 | the hash string is the lower-case hex pairs of the bytes: two characters per byte, each in 0-9a-f |
| Utility.BitConverterToString | ChatClassLibrary/Utility.cs:143 | BitConverter.ToString gives three characters per byte, less the separator after the last one |
| Utility.BitConverterToStringAt | ChatClassLibrary/Utility.cs:143 | byte i appears at position 3i as two upper-case hex digits, high nibble first, followed by '-' unless it is the last byte |
| Utility.HashStringIsHexPairs | ChatClassLibrary/Utility.cs:141-144 | BitConverter.ToString, removing "-" and lower-casing gives exactly the lower-case hex pairs |
| Utility.HashStringRoundTrip | ChatClassLibrary/Utility.cs:136-144 | parsing the hash string back gives the original bytes, so no two hashes share a string |
| Utility.RemoveAllAppend | ChatClassLibrary/Utility.cs:143 | Replace("-", "") distributes over concatenation |
| Utility.ToLowerAppend | ChatClassLibrary/Utility.cs:143 | ToLower distributes over concatenation |
| Protocols.TypeOf | ChatClassLibrary/Protocols/Message.cs:170 | the MessageType cast of a two-bit code has that code |
| Protocols.FirstByte | ChatClassLibrary/Protocols/Message.cs:138 | the first byte is type*64 + control code, never truncated by the byte cast; /64 and %64 recover both |
| Protocols.IsValid | ChatClassLibrary/Protocols/Message.cs:117-122 | a message is valid exactly when the first byte of its packet would not be 0 |
| Protocols.BuildPacket | ChatClassLibrary/Protocols/Message.cs:134-156 | packet length is 45 + body length; byte 0 is type*64+code; bytes 1..33 are the ids; 33..41 decode to the send time; 41..45 decode to the body length; the body follows, and is empty for a null or empty text |
| Protocols.PacketLayout | ChatClassLibrary/Protocols/Message.cs:140-153 | each field of the concatenated header lies at its fixed offset |
| Protocols.FromPacket | ChatClassLibrary/Protocols/Message.cs:166-193 | None exactly when the packet is shorter than 45 bytes; otherwise type and code come from byte 0, ids and time from their offsets, the receive time is MinValue, and the text is null exactly for a 45-byte packet, else every byte after the header |
| Protocols.RoundTrip | ChatClassLibrary/Protocols/Message.cs:134-193 | FromPacket(BuildPacket(m)) is m with the receive time reset and an empty text turned null |
| Protocols.Int64Injective | ChatClassLibrary/Protocols/Message.cs:146-176 | two send times with the same encoding are equal |
| Protocols.DecodedValidity | ChatClassLibrary/Protocols/Message.cs:121-122 | a decoded message is valid exactly when the packet's first byte is not 0 |
| Protocols.BuiltValidity | ChatClassLibrary/Protocols/Message.cs:121-138 | a message is valid exactly when its packet's first byte is not 0 |
| Protocols.LengthFieldIgnored | ChatClassLibrary/Protocols/Message.cs:166-193 | two packets differing only in the length field decode to the same message |
| Protocols.PatchTimeStamp | ChatClassLibrary/Protocols/Message.cs:200-204 | same length; bytes 33..41 decode to the new time; every other byte is unchanged |
| Protocols.UpdatePacketTimeStamp | ChatClassLibrary/Protocols/Message.cs:200-204 | the caller's array becomes the time-patched packet |
| Protocols.PatchIsRebuild | ChatClassLibrary/Protocols/Message.cs:134-204 | patching the time of a built packet equals building the message with that time |
| Protocols.PatchThenDecode | ChatClassLibrary/Protocols/Message.cs:166-204 | decoding a patched packet gives the round-tripped message carrying the new time |
| FileProtocol.Zeros | ChatClassLibrary/FileProtocol.cs:51 | n zero bytes, the fresh byte[] padding |
| FileProtocol.FileInfoPacket | ChatClassLibrary/FileProtocol.cs:51-55 | the information packet is always 280 bytes |
| FileProtocol.BuildFileInfo | ChatClassLibrary/FileProtocol.cs:51-55 | returns a fresh array: the name zero-padded to 256 bytes, the 8-byte big-endian length, the 16-byte digest |
| FileProtocol.FileInfoOf | ChatClassLibrary/FileProtocol.cs:124-128 | the name is the first 256 bytes trimmed of NULs (so at most 256 bytes), the length is the Int64 whose big-endian encoding is bytes 256..264, and the digest is bytes 264..280 |
| FileProtocol.ReadFileInfo | ChatClassLibrary/FileProtocol.cs:124-128 | parses the name (trimmed of NUL bytes), the length from bytes 256..264 and the digest from 264..280 |
| FileProtocol.FileInfoRoundTrip | ChatClassLibrary/FileProtocol.cs:51-128 | parsing a built information packet gives the trimmed name, the exact length and the digest |
| FileProtocol.TrimStart | ChatClassLibrary/FileProtocol.cs:126 | TrimStart('\0') keeps a suffix of the bytes that is empty or starts with a byte other than NUL |
| FileProtocol.TrimStartDrops | ChatClassLibrary/FileProtocol.cs:126 | every byte TrimStart('\0') drops is NUL, so it drops the longest NUL prefix |
| FileProtocol.TrimEnd | ChatClassLibrary/FileProtocol.cs:126 | TrimEnd('\0') keeps a prefix of the bytes that is empty or ends with a byte other than NUL |
| FileProtocol.TrimEndDrops | ChatClassLibrary/FileProtocol.cs:126 | every byte TrimEnd('\0') drops is NUL, so it drops the longest NUL suffix |
| FileProtocol.Trim | ChatClassLibrary/FileProtocol.cs:126 | the trimmed name neither starts nor ends with NUL |
| FileProtocol.TrimAllNul | ChatClassLibrary/FileProtocol.cs:126 | the trimmed name is empty exactly when the name field is all NULs |
| FileProtocol.TrimUnpadded | ChatClassLibrary/FileProtocol.cs:126 | a name with no leading or trailing NUL survives Trim('\0') unchanged |
| FileProtocol.PaddedTrim | ChatClassLibrary/FileProtocol.cs:51-126 | zero padding is removed by Trim('\0') |
| FileProtocol.TrimStartAppend | ChatClassLibrary/FileProtocol.cs:126 | how trimming leading NULs acts on a concatenation |
| FileProtocol.TrimEndZeros | ChatClassLibrary/FileProtocol.cs:126 | trimming trailing NULs removes appended zero padding |
| FileProtocol.DigestIgnored | ChatClassLibrary/FileProtocol.cs:124-128 | the parsed name and length do not depend on the digest bytes |
| FileProtocol.ResponsePacket | ChatClassLibrary/FileProtocol.cs:137-150 | the response is always 256 bytes |
| FileProtocol.ResponseFlag | ChatClassLibrary/FileProtocol.cs:66-150 | the sender's test `response[0] == 1` (IsAccepted) holds exactly when the receiver accepted; a rejection carries its reason from byte 1 |
| FileProtocol.BuildResponse | ChatClassLibrary/FileProtocol.cs:137-150 | returns a fresh array holding the response packet |
| FileProtocol.NumChunks | ChatClassLibrary/FileProtocol.cs:45 | the packet count is the integer ceiling of length / 8192: the least k with 8192*k >= length |
| FileProtocol.ChunkSchedule | ChatClassLibrary/FileProtocol.cs:83-96 | there are NumChunks chunks, and chunk i is the file's bytes from 8192*i up to min(length, 8192*(i+1)) |
| FileProtocol.ChunksFlatten | ChatClassLibrary/FileProtocol.cs:83-96 | the chunks concatenated are exactly the file |
| FileProtocol.ChunkSizes | ChatClassLibrary/FileProtocol.cs:83-96 | every chunk holds between 1 and 8192 bytes, and every chunk but the last holds exactly 8192 |
| FileProtocol.ChunkStep | ChatClassLibrary/FileProtocol.cs:85-93 | one iteration sends min(remaining, 8192) bytes and leaves the chunks of the rest |
| FileProtocol.ChunkExists | ChatClassLibrary/FileProtocol.cs:83 | iteration i runs exactly when 8192*i is below the length |
| FileProtocol.ScheduleStep | ChatClassLibrary/FileProtocol.cs:85-176 | before iteration i, min(length, 8192*i) bytes are done; the iteration brings that to min(length, 8192*(i+1)) |
| FileProtocol.ScheduleEnd | ChatClassLibrary/FileProtocol.cs:83-98 | after all iterations the whole length is covered |
| FileProtocol.TwentyThousandBytes | ChatClassLibrary/FileProtocol.cs:45-96 | a 20000-byte file goes in three chunks of 8192, 8192 and 3616 bytes |
| FileProtocol.CumulativeShape | ChatClassLibrary/FileProtocol.cs:93-95 | the i-th progress report is min(length, 8192*(i+1)) bytes |
| FileProtocol.ProgressMonotone | ChatClassLibrary/FileProtocol.cs:78-182 | progress starts at 0, ends at the whole length, never decreases and never exceeds it, and rises strictly on every chunk |
| FileProtocol.SendChunks | ChatClassLibrary/FileProtocol.cs:78-98 | the loop writes exactly the chunks of the file and reports exactly the progress sequence |
| FileProtocol.SendFile | ChatClassLibrary/FileProtocol.cs:31-103 | first writes the information packet; returns true exactly when the response accepts; on rejection nothing more is written or reported; on acceptance the chunks follow with the full progress |
| FileProtocol.ReadCount | ChatClassLibrary/FileProtocol.cs:173 | a read returns at most what was asked and what is available, and at least one byte when both are positive |
| FileProtocol.Consumed | ChatClassLibrary/FileProtocol.cs:168-180 | the bytes the receiver takes from the stream never exceed what is available or the announced length |
| FileProtocol.Receive | ChatClassLibrary/FileProtocol.cs:168-180 | what is written to the file is a prefix of the incoming bytes, no longer than the announced length |
| FileProtocol.ReceiveChunks | ChatClassLibrary/FileProtocol.cs:157-182 | the receive loop writes exactly Receive(incoming, grants, length) and reports the same progress sequence as the sender |
| FileProtocol.ReceiveFile | ChatClassLibrary/FileProtocol.cs:117-189 | answers with the response packet; on rejection returns false, having written nothing; on acceptance receives the announced length as ReceiveChunks does |
| FileProtocol.FullReadsConsumeAll | ChatClassLibrary/FileProtocol.cs:168-180 | when every read is granted in full and the bytes are there, the receiver consumes exactly the announced length |
| FileProtocol.FullReadsReceiveAll | ChatClassLibrary/FileProtocol.cs:168-180 | under full reads the file written is exactly the first announced-length bytes of the stream |
| FileProtocol.ShortReadTruncates | ChatClassLibrary/FileProtocol.cs:170-176 | a 10000-byte transfer whose first read yields only 100 bytes writes 1908 bytes, not 10000 |
| FileProtocol.ConsumedByBytesReadIsExact | ChatClassLibrary/FileProtocol.cs:168-180 | advancing by bytesRead consumes exactly min(length, available) under any read sizes |
| FileProtocol.ReceiveByBytesReadIsExact | ChatClassLibrary/FileProtocol.cs:168-180 | advancing by bytesRead writes exactly the first min(length, available) incoming bytes under any read sizes |
| FileProtocol.Transfer | ChatClassLibrary/FileProtocol.cs:31-189 | a sender and an accepting receiver over one stream, when the information packet arrives whole and every read is full: the bytes the receiver writes equal the sender's file, and both report the same progress |
| FileProtocol.RejectedTransfer | ChatClassLibrary/FileProtocol.cs:66-153 | with a rejecting receiver, the sender returns false after writing only the information packet |
| ChatServer.SendData | ChatServer/ServerProgram.cs:54-55 | the message is always the suffix; with showName the user name comes first, then ": ", then the message, and nothing else; otherwise it is the message alone |
| ChatServer.Deliver | ChatServer/ServerProgram.cs:52-67 | the broadcast touches exactly the connected clients |
| ChatServer.DeliverExactlyOnce | ChatServer/ServerProgram.cs:60-66 | each connected client's outbox keeps its old contents as a prefix and gains exactly one more copy of the message |
| ChatServer.DeliverUnique | ChatServer/ServerProgram.cs:60-66 | any table in which every client got the message appended once is the broadcast result |
| ChatServer.AdmitDuplicate | ChatServer/ServerProgram.cs:150-156 | an id already in the table leaves every outbox unchanged |
| ChatServer.AdmitFresh | ChatServer/ServerProgram.cs:158-167 | a new id joins the table; unless it is "exit", every client including the new one receives the join notice; "exit" is added with no notice |
| ChatServer.RemoveLeavesOthers | ChatServer/ServerProgram.cs:76-84 | the id leaves the table; every other client receives the disconnect notice; removing an absent id still broadcasts |
| ChatServer.AdmitThenRemove | ChatServer/ServerProgram.cs:76-167 | a client that joins and leaves returns the table to its old clients, each having received the join and the disconnect notice |
| ChatServer.AdmitAllShape | ChatServer/ServerProgram.cs:143-171 | after a run of arrivals the registered ids are the old ones plus the arrived ones, and every client already registered has received exactly the join notices of the arrived ids that were new and not "exit", in arrival order |
| ChatServer.ArrivalStep | ChatServer/ServerProgram.cs:143-167 | one more arrival extends the run's outboxes by one AfterAdmit step and its registered ids by that id |
| ChatServer.ExitStep | ChatServer/ServerProgram.cs:150-165 | the loop stops at an arrival exactly when it is a new "exit"; that is the first new "exit" of the run, and until then none has arrived |
| ChatServer.ExitEnd | ChatServer/ServerProgram.cs:143-171 | a run that reaches its end without a new "exit" contains no new "exit" |
| ChatServer.RegisteredMembers | ChatServer/ServerProgram.cs:143-171 | an id is registered after a run of the accept loop exactly when it was registered before or arrived during the run |
| ChatServer.Connection.constructor | ChatServer/ServerProgram.cs:145 | a newly accepted connection has received nothing |
| ChatServer.ServerProgram.constructor | ChatServer/ServerProgram.cs:17 | the client table starts empty |
| ChatServer.ServerProgram.Broadcast | ChatServer/ServerProgram.cs:52-67 | every connected client's outbox gains the send data exactly once; nothing else changes |
| ChatServer.ServerProgram.Admit | ChatServer/ServerProgram.cs:145-167 | admits exactly when the id is new, maps it to the new connection, stops exactly on a new "exit", and the outboxes change as AfterAdmit says; a rejected connection receives nothing |
| ChatServer.ServerProgram.RemoveClient | ChatServer/ServerProgram.cs:76-84 | the id leaves the table and the remaining clients' outboxes change as AfterRemove says |
| ChatServer.ServerProgram.FileReceived | ChatServer/ServerProgram.cs:127-134 | a received upload broadcasts the upload notice; a failed one changes nothing |
| ChatServer.ServerProgram.Arrive | ChatServer/ServerProgram.cs:145-167 | one iteration: the next id is admitted on a fresh connection; the table's ids and the outboxes advance by exactly one step of the run; it stops exactly on a new "exit", which is then in the table; every id already registered keeps its own connection |
| ChatServer.ServerProgram.AcceptLoop | ChatServer/ServerProgram.cs:143-171 | stops exactly when some arriving id is an "exit" not registered before, and then right after the first such id; otherwise processes every id; the table's ids are the old ones plus those processed, and the outboxes are those of admitting the processed ids one after another (AdmitAll); every id registered before the loop keeps its own connection, since the loop only adds entries |
| ChatServer.LaterArrival | ChatServer/ServerProgram.cs:145-167 | "alice" admitted, then the loop admits "bob": alice's own connection is still hers and has received both join notices |
| ChatServer.DuplicateAlice | ChatServer/ServerProgram.cs:150-158 | a second "alice" is rejected: the table keeps the first connection, which got its join notice; the second gets nothing |
| ChatServer.FanOut | ChatServer/ServerProgram.cs:52-67 | a named broadcast to three clients puts "bob: hi" in each outbox and nothing in a connection outside the table |

## Left out

- `Utility.CalculateMD5` (both overloads): MD5 is not modelled. The digest is a 16-byte parameter.
- `Utility.ToByteArray` and `Utility.BytesToInt64(byte[], int)` are called from Message.cs but are not part of this model. They are taken as the big-endian encoders (`EncodeInt32`, `EncodeInt64`) and as readers at an offset (`ReadInt32`, `ReadInt64`).
- DateTime: times are their 64-bit `ToBinary` value. The conversions to and from DateTime and `ToUniversalTime` are not modelled.
- `UpdatePacketTimeStamp(packet)` without a time argument: it reads the clock. Callers pass the time to the two-argument form instead.
- `Message.ToString`, `_Log` and all console output: these are display only.
- Guids are their 16 bytes. UTF-8 text is its bytes. The Guid and UTF-8 codecs are the identity here.
- The model assumes a little-endian host, where `BitConverter.IsLittleEndian` is true. The big-endian-host branch is not modelled.
- `>> 6` and `& 0x3F` on the first byte are modelled as `/ 64` and `% 64`. The two agree on the byte range.
- Sockets, `TcpListener`, `NetworkStream` and `FileStream`: these are sequences. Connection setup, exceptions and `Close` are not modelled.
- Progress: the source reports a double percentage. The model reports the cumulative byte count, from 0 to the length.
- Progress of an empty file: the loops never run, so the source reports 0% and then 100%. The model's `Progress(0)` is `[0, 0]`, the same two reports as byte counts.
- `Math.Ceiling` over a double is modelled as the exact integer ceiling.
- FileProtocol.ReceiveFile: the source hard-codes `accept = true`. The model takes the decision as a parameter, so both paths are modelled.
- FileProtocol.ReceiveFile: the save path and the file system are not modelled. The written bytes are the result. The source opens the destination with `FileMode.OpenOrCreate` (FileProtocol.cs:164), which does not truncate, so an existing longer file at that path keeps its old tail after the new bytes. The model does not capture that tail.
- FileProtocol.ReadFileInfo: `Trim('\0')` is applied to the name bytes before UTF-8 decoding. This is the same thing for a NUL-padded UTF-8 name.
- FileProtocol.SendFile: the name is taken as bytes of at most 256. A longer name makes the source's `CopyTo` throw, and that case is excluded by the precondition.
- FileProtocol.SendFile: the response is modelled as one full 256-byte read.
- FileProtocol.ReceiveFile: the information packet is modelled as one full 280-byte read. The source ignores the count `Read` returns at FileProtocol.cs:125, and a short read would leave zeros in the packet. Only the file body's reads take their sizes from the stream.
- FileProtocol.SendChunks: each chunk is modelled as read whole from the local file. The source ignores the count `FileStream.Read` returns at FileProtocol.cs:88 and sends `bytesToSend` bytes regardless. For a local file that is not changed during the transfer, the read is full, so this is harmless in practice.
- FileProtocol.SendFile and FileProtocol.ReceiveFile: with `progress = null` (FileProtocol.cs:32 and 118) the source reports nothing. The model always returns the report sequence, and a caller without a handler ignores it. This is harmless in practice.
- FileProtocol.NumChunks: the `(int)` cast of the packet count at FileProtocol.cs:45 overflows for files of more than 2^44 - 8192 bytes, where the ceiling of the length over 8192 exceeds `int.MaxValue`. The model's count is exact. Such files are far beyond what the protocol is used for, so this is harmless in practice.
- Protocols.Message: `ControlCode` is 0..63 and `MessageType` has its four named values. A C# enum can hold other values, and the `(byte)` cast at Message.cs:138 would then truncate. The core never builds such a value, so this is harmless in practice.
- Utility.ArrayCopy: it requires distinct arrays. Every call in the source copies between two arrays.
- Utility.ToLower: it lower-cases ASCII letters only. The hash string contains no other letters.
- Utility.ConcatAll and Utility.Concat: the `int` overflow of a total length of 2^31 or more is not modelled.
- `ChatProtocol.SendMessage` and `ChatProtocol.ReadMessage` are not part of this model. Sending a message appends it to a `Connection`'s outbox. The id a client sends on connecting is a parameter.
- `ClientHandler`, the FTP listener thread and `SelectLocalIPAddress` are not part of this model. Concurrency between threads is not modelled. `FileReceived` is one iteration of the FTP thread's loop.
- `DisplayClientList` prints only, so it is not modelled.
- ChatServer.ServerProgram.AcceptLoop: the source's loop has no bound on the number of arrivals and ends only when a new "exit" id arrives. The model runs over a finite sequence of arriving ids, and each arrival is a fresh `Connection`.
- ChatServer.ServerProgram.AcceptLoop: closing the sockets after the loop is not modelled.
- ChatServer.ServerProgram.Broadcast: Hashtable iteration order is unspecified, so the contract fixes what each client receives but not the order of the sends.
- FileProtocol.ConsumedByBytesRead: the corrected receiver loop is stated as a function over the stream. There is no second imperative method for it.

## Findings

| source | as written | input that shows it | evidently intended | confidence | as-written member | corrected member |
|---|---|---|---|---|---|---|
| ChatClassLibrary/Utility.cs:31-37 | `BytesToInt` reverses the caller's whole array and then reads 4 bytes from index 0. The result is the big-endian value of the array's LAST four bytes, and the caller's array is left reversed. `BytesToLong` (57-63) does the same with eight bytes. | `BytesToInt` on [0,0,0,1,0] gives 256 | the value of the first four bytes, which is 1 here, as the doc comment at line 27 says, with the argument left intact | not executed | Utility.BytesToIntReadsLastFour, Utility.BytesToIntOnFiveBytes | Utility.ReadInt32 |
| ChatClassLibrary/FileProtocol.cs:168-180 | The receive loop advances `readLength` by `bytesToRead`, the size it asked for, instead of by `bytesRead`, the size it got. A short read from the stream ends the loop early, and the rest of the file is lost. | a 10000-byte file whose first read yields 100 bytes and later reads are full: 1908 bytes are written | the loop writes the whole announced length whatever the read sizes | not executed | FileProtocol.ShortReadTruncates | FileProtocol.ReceiveByBytesReadIsExact |
