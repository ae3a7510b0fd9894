/**
 The file-transfer side channel (ChatClassLibrary/FileProtocol.cs), with the
 sockets and the file taken out: what the sender writes is a list of byte
 sequences (one per Write call), what the receiver reads is a byte sequence
 that arrives in pieces, and progress is reported in bytes rather than as a
 percentage.

 The exchange: a 280-byte information packet (256-byte zero-padded name,
 8-byte big-endian length, 16-byte digest), a 256-byte response whose byte 0
 is 1 to accept, then the file in chunks of at most 8192 bytes.
 */
module FileProtocol {

  import opened Utility

  const FtpListeningPort := 60001
  const FtpBufferSize := 8192

  const NameFieldLength := 256
  const FileInfoLength := 280
  const ResponseLength := 256

  /** The UTF-8 bytes of "I don't want this file.", the reason the receiver
      sends with a rejection. */
  const RejectReason: seq<Byte> :=
    [73, 32, 100, 111, 110, 39, 116, 32, 119, 97, 110, 116, 32,
     116, 104, 105, 115, 32, 102, 105, 108, 101, 46]

  function Zeros(n: nat): (r: seq<Byte>)
    ensures |r| == n
    ensures forall i :: 0 <= i < n ==> r[i] == 0
  {
    if n == 0 then [] else Zeros(n - 1) + [0]
  }

  // ------------------------------------------------------------------------
  // The information packet
  // ------------------------------------------------------------------------

  /** The information packet: the name zero-padded to 256 bytes, the length
      big-endian, the digest. */
  function FileInfoPacket(name: seq<Byte>, fileLength: Int64, hash: seq<Byte>): (packet: seq<Byte>)
    requires |name| <= NameFieldLength && |hash| == 16
    ensures |packet| == FileInfoLength
  {
    name + Zeros(NameFieldLength - |name|) + EncodeInt64(fileLength) + hash
  }

  datatype FileInfo = FileInfo(name: seq<Byte>, fileLength: Int64, hash: seq<Byte>)

  /** string.TrimStart('\0') on the bytes of the name: a suffix that is
      empty or starts with a byte other than NUL. */
  function TrimStart(s: seq<Byte>): (r: seq<Byte>)
    ensures |r| <= |s| && r == s[|s| - |r|..]
    ensures r == [] || r[0] != 0
  {
    if s != [] && s[0] == 0 then
      var r := TrimStart(s[1..]);
      assert s[1..][|s| - 1 - |r|..] == s[|s| - |r|..];
      r
    else s
  }

  /** string.TrimEnd('\0'): a prefix that is empty or ends with a byte
      other than NUL. */
  function TrimEnd(s: seq<Byte>): (r: seq<Byte>)
    ensures |r| <= |s| && r == s[..|r|]
    ensures r == [] || r[|r| - 1] != 0
  {
    if s != [] && s[|s| - 1] == 0 then
      var r := TrimEnd(s[..|s| - 1]);
      assert s[..|s| - 1][..|r|] == s[..|r|];
      r
    else s
  }

  /** TrimStart drops only NULs, so it drops the longest NUL prefix. */
  lemma {:induction false} TrimStartDrops(s: seq<Byte>)
    ensures forall i :: 0 <= i < |s| - |TrimStart(s)| ==> s[i] == 0
  {
    if s != [] && s[0] == 0 {
      TrimStartDrops(s[1..]);
      forall i | 1 <= i < |s| - |TrimStart(s)|
        ensures s[i] == 0
      {
        assert s[i] == s[1..][i - 1];
      }
    }
  }

  /** TrimEnd drops only NULs, so it drops the longest NUL suffix. */
  lemma {:induction false} TrimEndDrops(s: seq<Byte>)
    ensures forall i :: |TrimEnd(s)| <= i < |s| ==> s[i] == 0
  {
    if s != [] && s[|s| - 1] == 0 {
      TrimEndDrops(s[..|s| - 1]);
      forall i | |TrimEnd(s)| <= i < |s| - 1
        ensures s[i] == 0
      {
        assert s[i] == s[..|s| - 1][i];
      }
    }
  }

  /** string.Trim('\0'): what is left neither starts nor ends with NUL. */
  function Trim(s: seq<Byte>): (r: seq<Byte>)
    ensures r == [] || (r[0] != 0 && r[|r| - 1] != 0)
  {
    var t := TrimStart(s);
    var r := TrimEnd(t);
    assert r != [] ==> r[0] == t[0];
    r
  }

  /** Trim('\0') leaves nothing exactly when the name is all NULs. */
  lemma TrimAllNul(s: seq<Byte>)
    ensures Trim(s) == [] <==> forall i :: 0 <= i < |s| ==> s[i] == 0
  {
    var t := TrimStart(s);
    TrimStartDrops(s);
    if t != [] {
      assert s[|s| - |t|] == t[0] != 0;
      TrimEndDrops(t);
      assert TrimEnd(t) != [] by {
        assert 0 < |t|;
      }
    }
  }

  /** What the receiver reads from an information packet: the name with its
      NULs trimmed, the length at 256..264, the digest at 264..280. */
  function FileInfoOf(packet: seq<Byte>): (info: FileInfo)
    requires |packet| == FileInfoLength
    ensures |info.name| <= NameFieldLength && info.name == Trim(packet[..256])
    ensures EncodeInt64(info.fileLength) == packet[256..264]
    ensures info.hash == packet[264..280]
  {
    FileInfo(Trim(packet[..256]), ReadInt64(packet, 256), packet[264..280])
  }

  /** Step 1 of SendFile: copy the name into a zeroed 256-byte field, append
      LongToBytes(length) and the digest. The name must fit, or CopyTo throws. */
  method BuildFileInfo(fileName: array<Byte>, fileLength: Int64, fileHash: array<Byte>)
    returns (packet: array<Byte>)
    requires fileName.Length <= NameFieldLength && fileHash.Length == 16
    ensures fresh(packet)
    ensures packet[..] == FileInfoPacket(fileName[..], fileLength, fileHash[..])
  {
    var nameField := new Byte[NameFieldLength](_ => 0);
    ArrayCopy(fileName, 0, nameField, 0, fileName.Length);
    assert nameField[..] == fileName[..] + Zeros(NameFieldLength - fileName.Length);
    var fileSize := LongToBytes(fileLength);
    packet := ConcatAll([nameField, fileSize, fileHash]);
    assert Contents([nameField, fileSize, fileHash]) == [nameField[..], fileSize[..], fileHash[..]];
    FlattenThree(nameField[..], fileSize[..], fileHash[..]);
  }

  /** Step 1 of ReceiveFile: decode the 280-byte buffer. The length is read
      by BytesToLong from an eight-byte Slice, so the reversal that BytesToLong
      does in place hits the slice, not the buffer. */
  method ReadFileInfo(fileInfo: array<Byte>) returns (info: FileInfo)
    requires fileInfo.Length == FileInfoLength
    ensures info == FileInfoOf(fileInfo[..])
  {
    var fileName := Trim(fileInfo[..256]);
    var sizeBytes := Slice(fileInfo, 256, 8);
    ghost var sizeField := sizeBytes[..];
    var fileLength := BytesToLong(sizeBytes);
    assert fileLength == DecodeInt64(sizeField);
    var fileHash := Slice(fileInfo, 264, 16);
    info := FileInfo(fileName, fileLength, fileHash[..]);
  }

  lemma {:induction false} TrimStartAppend(a: seq<Byte>, b: seq<Byte>)
    ensures TrimStart(a + b) == if TrimStart(a) == [] then TrimStart(b) else TrimStart(a) + b
  {
    if a == [] {
      assert a + b == b;
    } else if a[0] == 0 {
      assert (a + b)[1..] == a[1..] + b;
      assert TrimStart(a + b) == TrimStart(a[1..] + b);
      TrimStartAppend(a[1..], b);
    } else {
      assert (a + b)[0] != 0;
    }
  }

  lemma {:induction false} TrimStartZeros(n: nat)
    ensures TrimStart(Zeros(n)) == []
  {
    if n > 0 {
      TrimStartZeros(n - 1);
      TrimStartAppend(Zeros(n - 1), [0]);
      assert TrimStart([0]) == TrimStart([]);
    }
  }

  lemma {:induction false} TrimEndZeros(a: seq<Byte>, n: nat)
    ensures TrimEnd(a + Zeros(n)) == TrimEnd(a)
  {
    if n == 0 {
      assert a + Zeros(0) == a;
    } else {
      var s := a + Zeros(n);
      assert s == (a + Zeros(n - 1)) + [0];
      assert s[..|s| - 1] == a + Zeros(n - 1);
      assert s[|s| - 1] == 0;
      assert TrimEnd(s) == TrimEnd(a + Zeros(n - 1));
      TrimEndZeros(a, n - 1);
    }
  }

  /** Trailing zero padding does not survive the trim. */
  lemma PaddedTrim(name: seq<Byte>, n: nat)
    ensures Trim(name + Zeros(n)) == Trim(name)
  {
    TrimStartAppend(name, Zeros(n));
    if TrimStart(name) == [] {
      TrimStartZeros(n);
    } else {
      TrimEndZeros(TrimStart(name), n);
    }
  }

  /** Where the three fields sit in an information packet. */
  lemma PacketFields(padded: seq<Byte>, length: seq<Byte>, hash: seq<Byte>)
    requires |padded| == NameFieldLength && |length| == 8 && |hash| == 16
    ensures (padded + length + hash)[..256] == padded
    ensures (padded + length + hash)[256..264] == length
    ensures (padded + length + hash)[264..280] == hash
  {
  }

  /** The receiver reads back the length and digest the sender put in, and
      the name with leading and trailing NULs trimmed. */
  lemma FileInfoRoundTrip(name: seq<Byte>, fileLength: Int64, hash: seq<Byte>)
    requires |name| <= NameFieldLength && |hash| == 16
    ensures FileInfoOf(FileInfoPacket(name, fileLength, hash)) == FileInfo(Trim(name), fileLength, hash)
  {
    var p := FileInfoPacket(name, fileLength, hash);
    PacketFields(name + Zeros(NameFieldLength - |name|), EncodeInt64(fileLength), hash);
    PaddedTrim(name, NameFieldLength - |name|);
    var info := FileInfoOf(p);
    Int64RoundTrip(fileLength);
    Int64RoundTrip(info.fileLength);
  }

  /** A name that neither starts nor ends with NUL is its own trim, so it
      comes back unchanged. */
  lemma TrimUnpadded(name: seq<Byte>)
    requires name == [] || (name[0] != 0 && name[|name| - 1] != 0)
    ensures Trim(name) == name
  {
  }

  /** The digest is carried but not checked: the name and length the receiver
      acts on do not depend on bytes 264..280. */
  lemma DigestIgnored(p: seq<Byte>, q: seq<Byte>)
    requires |p| == |q| == FileInfoLength && p[..264] == q[..264]
    ensures FileInfoOf(p).name == FileInfoOf(q).name
    ensures FileInfoOf(p).fileLength == FileInfoOf(q).fileLength
  {
    assert p[..256] == p[..264][..256];
    assert q[..256] == q[..264][..256];
    assert p[256..264] == p[..264][256..264];
    assert q[256..264] == q[..264][256..264];
  }

  // ------------------------------------------------------------------------
  // The response
  // ------------------------------------------------------------------------

  /** The 256-byte response: 1 and zeros to accept; 0, the reason and zeros
      to reject. */
  function ResponsePacket(accept: bool, reason: seq<Byte>): (r: seq<Byte>)
    requires accept || |reason| < ResponseLength
    ensures |r| == ResponseLength
  {
    if accept then [1] + Zeros(ResponseLength - 1)
    else [0] + reason + Zeros(ResponseLength - 1 - |reason|)
  }

  /** How the sender reads the response: accepted when byte 0 is 1. */
  predicate IsAccepted(response: seq<Byte>)
    requires |response| == ResponseLength
  {
    response[0] == 1
  }

  /** The sender sees acceptance exactly when the receiver accepted, and on
      rejection finds the reason from offset 1. */
  lemma ResponseFlag(accept: bool, reason: seq<Byte>)
    requires accept || |reason| < ResponseLength
    ensures IsAccepted(ResponsePacket(accept, reason)) <==> accept
    ensures !accept ==> ResponsePacket(accept, reason)[1..1 + |reason|] == reason
  {
    if !accept {
      assert ResponsePacket(accept, reason)[1..1 + |reason|] == ([0] + reason + Zeros(ResponseLength - 1 - |reason|))[1..1 + |reason|];
    }
  }

  /** Step 2 of ReceiveFile: a zeroed 256-byte buffer with the flag at 0 and,
      on rejection, the reason copied in from offset 1. */
  method BuildResponse(accept: bool, reason: seq<Byte>) returns (response: array<Byte>)
    requires accept || |reason| < ResponseLength
    ensures fresh(response)
    ensures response[..] == ResponsePacket(accept, reason)
  {
    response := new Byte[ResponseLength](_ => 0);
    if accept {
      response[0] := 1;
    } else {
      response[0] := 0;
      var message := ToArray(reason);
      ArrayCopy(message, 0, response, 1, |reason|);
    }
  }

  // ------------------------------------------------------------------------
  // The chunk schedule
  // ------------------------------------------------------------------------

  /** (int) Math.Ceiling((double) n / FtpBufferSize): the number of chunks. */
  function NumChunks(n: nat): (k: nat)
    ensures FtpBufferSize * k >= n
    ensures k > 0 ==> FtpBufferSize * (k - 1) < n
  {
    (n + FtpBufferSize - 1) / FtpBufferSize
  }

  /** The file cut into chunks of FtpBufferSize bytes, the last one shorter. */
  function Chunks(data: seq<Byte>): seq<seq<Byte>>
    decreases |data|
  {
    if data == [] then []
    else
      var size := Min(|data|, FtpBufferSize);
      [data[..size]] + Chunks(data[size..])
  }

  /** The chunk schedule seen from the sender's loop: while i < NumChunks(n),
      the bytes sent so far are 8192 i < n and the next chunk brings the count
      to min(n, 8192 (i+1)). */
  lemma ScheduleStep(n: nat, i: nat)
    requires i < NumChunks(n)
    ensures Min(n, FtpBufferSize * i) == FtpBufferSize * i < n
    ensures FtpBufferSize * i + Min(n - FtpBufferSize * i, FtpBufferSize) == Min(n, FtpBufferSize * (i + 1))
  {
  }

  /** After NumChunks(n) chunks, all n bytes are sent, and no fewer chunks
      would do. */
  lemma ScheduleEnd(n: nat)
    ensures Min(n, FtpBufferSize * NumChunks(n)) == n
  {
  }

  /** Chunk i exists exactly when 8192 i bytes do not cover the file. */
  lemma ChunkExists(n: nat, i: nat)
    ensures i < NumChunks(n) <==> FtpBufferSize * i < n
  {
  }

  lemma ChunkStep(data: seq<Byte>, sent: nat)
    requires sent < |data|
    ensures Chunks(data[sent..]) ==
              [data[sent..sent + Min(|data| - sent, FtpBufferSize)]] + Chunks(data[sent + Min(|data| - sent, FtpBufferSize)..])
  {
    var size := Min(|data| - sent, FtpBufferSize);
    assert data[sent..][..size] == data[sent..sent + size];
    assert data[sent..][size..] == data[sent + size..];
  }

  /** Chunk i is data[8192 i .. min(|data|, 8192 (i+1))], so it holds
      min(|data| - 8192 i, 8192) bytes, and there are NumChunks(|data|). */
  lemma {:induction false} ChunkSchedule(data: seq<Byte>)
    ensures |Chunks(data)| == NumChunks(|data|)
    ensures forall i :: 0 <= i < |Chunks(data)| ==>
              Chunks(data)[i] == data[FtpBufferSize * i..Min(|data|, FtpBufferSize * (i + 1))]
  {
    if data != [] {
      var size := Min(|data|, FtpBufferSize);
      var rest := data[size..];
      ChunkSchedule(rest);
      forall i | 0 <= i < |Chunks(data)|
        ensures Chunks(data)[i] == data[FtpBufferSize * i..Min(|data|, FtpBufferSize * (i + 1))]
      {
        if i > 0 {
          assert Chunks(data)[i] == Chunks(rest)[i - 1];
          assert rest[FtpBufferSize * (i - 1)..Min(|rest|, FtpBufferSize * i)]
              == data[FtpBufferSize * i..Min(|data|, FtpBufferSize * (i + 1))];
        }
      }
    }
  }

  /** Every chunk holds between 1 and 8192 bytes, and only the last may be
      short. */
  lemma {:induction false} ChunkSizes(data: seq<Byte>)
    ensures forall i :: 0 <= i < |Chunks(data)| ==> 0 < |Chunks(data)[i]| <= FtpBufferSize
    ensures forall i :: 0 <= i < |Chunks(data)| - 1 ==> |Chunks(data)[i]| == FtpBufferSize
    decreases |data|
  {
    if data != [] {
      var size := Min(|data|, FtpBufferSize);
      ChunkSizes(data[size..]);
      if data[size..] != [] {
        assert size == FtpBufferSize;
      }
    }
  }

  /** The chunks, sent one after the other, are the file. */
  lemma {:induction false} ChunksFlatten(data: seq<Byte>)
    ensures Flatten(Chunks(data)) == data
  {
    if data != [] {
      var size := Min(|data|, FtpBufferSize);
      ChunksFlatten(data[size..]);
      assert data[..size] + data[size..] == data;
    }
  }

  /** A 20000-byte file goes out as chunks of 8192, 8192 and 3616 bytes. */
  lemma TwentyThousandBytes(data: seq<Byte>)
    requires |data| == 20000
    ensures |Chunks(data)| == 3
    ensures |Chunks(data)[0]| == 8192 && |Chunks(data)[1]| == 8192 && |Chunks(data)[2]| == 3616
  {
    ChunkSchedule(data);
  }

  // ------------------------------------------------------------------------
  // Progress
  // ------------------------------------------------------------------------

  /** The byte counts reported after each of the first k chunks of an
      n-byte transfer. */
  function Cumulative(n: nat, k: nat): seq<nat>
  {
    if k == 0 then [] else Cumulative(n, k - 1) + [Min(n, FtpBufferSize * k)]
  }

  /** Everything reported for an n-byte transfer: 0 before the first chunk,
      the running count after each chunk, n when finished. */
  function Progress(n: nat): seq<nat>
  {
    [0] + Cumulative(n, NumChunks(n)) + [n]
  }

  /** One more chunk adds one more report, the running count after it. */
  lemma ReportStep(n: nat, k: nat)
    ensures [0] + Cumulative(n, k + 1) == ([0] + Cumulative(n, k)) + [Min(n, FtpBufferSize * (k + 1))]
  {
  }

  lemma {:induction false} CumulativeShape(n: nat, k: nat)
    ensures |Cumulative(n, k)| == k
    ensures forall i :: 0 <= i < k ==> Cumulative(n, k)[i] == Min(n, FtpBufferSize * (i + 1))
  {
    if k > 0 {
      CumulativeShape(n, k - 1);
    }
  }

  /** Progress starts at 0, ends at n, never decreases, never exceeds n, and
      rises strictly from one chunk to the next. */
  lemma ProgressMonotone(n: nat)
    ensures Progress(n)[0] == 0 && Progress(n)[|Progress(n)| - 1] == n
    ensures |Progress(n)| == NumChunks(n) + 2
    ensures forall i, j :: 0 <= i <= j < |Progress(n)| ==> Progress(n)[i] <= Progress(n)[j] <= n
    ensures forall i :: 0 <= i < NumChunks(n) ==> Progress(n)[i] < Progress(n)[i + 1]
  {
    var k := NumChunks(n);
    CumulativeShape(n, k);
    var p := Progress(n);
    assert forall i :: 1 <= i <= k ==> p[i] == Min(n, FtpBufferSize * i);
  }

  // ------------------------------------------------------------------------
  // The sender
  // ------------------------------------------------------------------------

  /** The sending loop of SendFile: NumChunks(n) writes of min(8192, what
      is left) bytes each, the running count reported after each, 0 before
      the first and n after the last. */
  method SendChunks(file: seq<Byte>) returns (writes: seq<seq<Byte>>, progress: seq<nat>)
    ensures writes == Chunks(file)
    ensures progress == Progress(|file|)
  {
    var fileLength := |file|;
    var packetCount := NumChunks(fileLength);
    var bytesSent := 0;
    writes := [];
    progress := [0];
    for i := 0 to packetCount
      invariant bytesSent == Min(fileLength, FtpBufferSize * i)
      invariant writes + Chunks(file[bytesSent..]) == Chunks(file)
      invariant progress == [0] + Cumulative(fileLength, i)
    {
      ScheduleStep(fileLength, i);
      ReportStep(fileLength, i);
      var bytesToSend := Min(fileLength - bytesSent, FtpBufferSize);
      var sendBytes := file[bytesSent..bytesSent + bytesToSend];
      ChunkStep(file, bytesSent);
      assert (writes + [sendBytes]) + Chunks(file[bytesSent + bytesToSend..])
          == writes + ([sendBytes] + Chunks(file[bytesSent + bytesToSend..]));
      writes := writes + [sendBytes];
      bytesSent := bytesSent + bytesToSend;
      progress := progress + [bytesSent];
    }
    ScheduleEnd(fileLength);
    assert file[bytesSent..] == [];
    assert writes + [] == writes;
    progress := progress + [fileLength];
  }

  /** SendFile without the socket: write the information packet, read the
      response, and on acceptance send the file chunk by chunk, reporting the
      running byte count. `writes` lists what each Write call sent. */
  method SendFile(fileName: array<Byte>, file: seq<Byte>, fileHash: array<Byte>, response: seq<Byte>)
    returns (ok: bool, writes: seq<seq<Byte>>, progress: seq<nat>)
    requires fileName.Length <= NameFieldLength && fileHash.Length == 16
    requires |file| < 0x8000_0000_0000_0000
    requires |response| == ResponseLength
    ensures |writes| >= 1 && writes[0] == FileInfoPacket(fileName[..], |file|, fileHash[..])
    ensures ok <==> IsAccepted(response)
    ensures !ok ==> |writes| == 1 && progress == []
    ensures ok ==> writes[1..] == Chunks(file) && progress == Progress(|file|)
  {
    var firstPacket := BuildFileInfo(fileName, |file|, fileHash);
    writes := [firstPacket[..]];
    progress := [];
    if !IsAccepted(response) {
      return false, writes, progress;
    }
    var chunks;
    chunks, progress := SendChunks(file);
    writes := writes + chunks;
    ok := true;
  }

  // ------------------------------------------------------------------------
  // The receiver
  // ------------------------------------------------------------------------

  /** What one NetworkStream.Read(buffer, 0, count) returns when `available`
      bytes are still to come from the peer: at most count and at most what
      is available, and at least one while bytes remain. `grants` lists how
      much the network delivers to each read in turn; once it runs out,
      reads are full. */
  function ReadCount(available: nat, grants: seq<nat>, count: nat): (n: nat)
    ensures n <= count && n <= available
    ensures count > 0 && available > 0 ==> n > 0
    ensures grants == [] ==> n == Min(count, available)
  {
    var delivered := if grants == [] then count else Max(1, grants[0]);
    Min(Min(delivered, count), available)
  }

  function Rest(grants: seq<nat>): seq<nat>
  {
    if grants == [] then [] else grants[1..]
  }

  /** How many bytes of the stream the receive loop consumes when
      `remaining` bytes are declared: each round asks for
      min(8192, remaining), takes what the read returns, and counts the full
      request as done. */
  function Consumed(available: nat, grants: seq<nat>, remaining: int): (n: nat)
    ensures n <= available && n <= Max(0, remaining)
    decreases remaining
  {
    if remaining <= 0 then 0
    else
      var bytesToRead := Min(FtpBufferSize, remaining);
      var bytesRead := ReadCount(available, grants, bytesToRead);
      bytesRead + Consumed(available - bytesRead, Rest(grants), remaining - bytesToRead)
  }

  /** The bytes the receiver writes to the file: the reads go to the file in
      the order they arrive, so they are the consumed prefix of the stream. */
  function Receive(incoming: seq<Byte>, grants: seq<nat>, remaining: int): (written: seq<Byte>)
    ensures |written| <= Max(0, remaining) && written <= incoming
  {
    incoming[..Consumed(|incoming|, grants, remaining)]
  }

  /** The receiving loop of ReceiveFile: while fewer than fileLength bytes
      are counted, read up to min(8192, what is left), write what arrived,
      and count the full request. */
  method ReceiveChunks(incoming: seq<Byte>, grants: seq<nat>, fileLength: Int64)
    returns (written: seq<Byte>, progress: seq<nat>)
    ensures written == Receive(incoming, grants, fileLength)
    ensures progress == Progress(Max(0, fileLength))
  {
    var n := Max(0, fileLength);
    var readLength := 0;
    var packetCount := 0;
    var position := 0;
    var pending := grants;
    written := [];
    progress := [0];
    while readLength < fileLength
      invariant readLength == Min(n, FtpBufferSize * packetCount)
      invariant packetCount <= NumChunks(n)
      invariant 0 <= position <= |incoming| && written == incoming[..position]
      invariant position + Consumed(|incoming| - position, pending, fileLength - readLength)
                == Consumed(|incoming|, grants, fileLength)
      invariant progress == [0] + Cumulative(n, packetCount)
      decreases fileLength - readLength
    {
      ChunkExists(n, packetCount);
      ScheduleStep(n, packetCount);
      ReportStep(n, packetCount);
      var bytesToRead := Min(FtpBufferSize, fileLength - readLength);
      var bytesRead := ReadCount(|incoming| - position, pending, bytesToRead);
      ConsumedRound(|incoming| - position, pending, fileLength - readLength);
      PrefixExtend(incoming, written, position, position + bytesRead);
      written, position := written + incoming[position..position + bytesRead], position + bytesRead;
      pending := Rest(pending);
      readLength := readLength + bytesToRead;
      packetCount := packetCount + 1;
      progress := progress + [readLength];
    }
    ChunkExists(n, packetCount);
    progress := progress + [n];
  }

  /** One round of the receive loop, as Consumed counts it. */
  lemma ConsumedRound(available: nat, pending: seq<nat>, remaining: int)
    requires remaining > 0
    ensures var bytesRead := ReadCount(available, pending, Min(FtpBufferSize, remaining));
            Consumed(available, pending, remaining)
            == bytesRead + Consumed(available - bytesRead, Rest(pending), remaining - Min(FtpBufferSize, remaining))
  {
  }

  lemma PrefixExtend(s: seq<Byte>, prefix: seq<Byte>, p: nat, q: nat)
    requires p <= q <= |s| && prefix == s[..p]
    ensures prefix + s[p..q] == s[..q]
  {
  }

  /** ReceiveFile without the listener: read the information packet, answer,
      and on acceptance copy the declared number of bytes from the stream to
      the file. The source always accepts; `accept` stands for that decision.
      The digest in the packet plays no part. */
  method ReceiveFile(fileInfo: array<Byte>, accept: bool, incoming: seq<Byte>, grants: seq<nat>)
    returns (ok: bool, response: array<Byte>, written: seq<Byte>, progress: seq<nat>)
    requires fileInfo.Length == FileInfoLength
    ensures fresh(response)
    ensures response[..] == ResponsePacket(accept, RejectReason)
    ensures ok == accept
    ensures !accept ==> written == [] && progress == []
    ensures accept ==> written == Receive(incoming, grants, FileInfoOf(fileInfo[..]).fileLength)
    ensures accept ==> progress == Progress(Max(0, FileInfoOf(fileInfo[..]).fileLength))
  {
    var info := ReadFileInfo(fileInfo);
    response := BuildResponse(accept, RejectReason);
    written, progress := [], [];
    if !accept {
      return false, response, written, progress;
    }
    written, progress := ReceiveChunks(incoming, grants, info.fileLength);
    ok := true;
  }

  /** With full reads and a sender that sends at least the declared length,
      the receiver writes exactly the declared bytes. */
  lemma {:induction false} FullReadsConsumeAll(available: nat, grants: seq<nat>, remaining: int)
    requires forall i :: 0 <= i < |grants| ==> grants[i] >= FtpBufferSize
    requires available >= remaining
    ensures Consumed(available, grants, remaining) == Max(0, remaining)
  {
    if remaining > 0 {
      var bytesToRead := Min(FtpBufferSize, remaining);
      assert ReadCount(available, grants, bytesToRead) == bytesToRead;
      FullReadsConsumeAll(available - bytesToRead, Rest(grants), remaining - bytesToRead);
    }
  }

  lemma FullReadsReceiveAll(incoming: seq<Byte>, grants: seq<nat>, remaining: int)
    requires forall i :: 0 <= i < |grants| ==> grants[i] >= FtpBufferSize
    requires |incoming| >= remaining
    ensures Receive(incoming, grants, remaining) == incoming[..Max(0, remaining)]
  {
    FullReadsConsumeAll(|incoming|, grants, remaining);
  }

  /** A 10000-byte file whose first read returns only 100 bytes: the
      receiver counts 8192 as done, asks for the last 1808 and stops, having
      written 1908 bytes while reporting the transfer complete. */
  lemma ShortReadTruncates(incoming: seq<Byte>)
    requires |incoming| == 10000
    ensures |Receive(incoming, [100], 10000)| == 1908
  {
    assert ReadCount(10000, [100], 8192) == 100;
    assert Consumed(9900, [], 1808) == 1808 + Consumed(8092, [], 0);
  }

  /** The receive loop as evidently intended: advance by the bytes actually
      read, and stop when the peer closes (a read of 0). */
  function ConsumedByBytesRead(available: nat, grants: seq<nat>, remaining: int): nat
    decreases Max(0, remaining)
  {
    if remaining <= 0 then 0
    else
      var bytesRead := ReadCount(available, grants, Min(FtpBufferSize, remaining));
      if bytesRead == 0 then 0
      else bytesRead + ConsumedByBytesRead(available - bytesRead, Rest(grants), remaining - bytesRead)
  }

  function ReceiveByBytesRead(incoming: seq<Byte>, grants: seq<nat>, remaining: int): seq<Byte>
    requires ConsumedByBytesRead(|incoming|, grants, remaining) <= |incoming|
  {
    incoming[..ConsumedByBytesRead(|incoming|, grants, remaining)]
  }

  /** However the network splits the stream, the intended loop takes the
      declared number of bytes, or all of them if the peer sends fewer. */
  lemma {:induction false} ConsumedByBytesReadIsExact(available: nat, grants: seq<nat>, remaining: int)
    ensures ConsumedByBytesRead(available, grants, remaining) == Min(Max(0, remaining), available)
  {
    if remaining > 0 {
      var bytesRead := ReadCount(available, grants, Min(FtpBufferSize, remaining));
      if bytesRead > 0 {
        ConsumedByBytesReadIsExact(available - bytesRead, Rest(grants), remaining - bytesRead);
      }
    }
  }

  lemma ReceiveByBytesReadIsExact(incoming: seq<Byte>, grants: seq<nat>, remaining: int)
    ensures ConsumedByBytesRead(|incoming|, grants, remaining) <= |incoming|
    ensures ReceiveByBytesRead(incoming, grants, remaining) == incoming[..Min(Max(0, remaining), |incoming|)]
  {
    ConsumedByBytesReadIsExact(|incoming|, grants, remaining);
  }

  // ------------------------------------------------------------------------
  // Both ends together
  // ------------------------------------------------------------------------

  /** A sender and an accepting receiver joined by a stream that delivers
      full reads: the receiver writes the file, and both report the same
      progress. */
  method Transfer(fileName: array<Byte>, file: seq<Byte>, fileHash: array<Byte>)
    returns (received: seq<Byte>, senderProgress: seq<nat>, receiverProgress: seq<nat>)
    requires fileName.Length <= NameFieldLength && fileHash.Length == 16
    requires |file| < 0x8000_0000_0000_0000
    ensures received == file
    ensures senderProgress == receiverProgress == Progress(|file|)
  {
    var response := ResponsePacket(true, []);
    ResponseFlag(true, []);
    var ok, writes, progress := SendFile(fileName, file, fileHash, response);
    senderProgress := progress;
    var fileInfo := ToArray(writes[0]);
    FileInfoRoundTrip(fileName[..], |file|, fileHash[..]);
    var stream := Flatten(writes[1..]);
    ChunksFlatten(file);
    var accepted, answer, written, progress' := ReceiveFile(fileInfo, true, stream, []);
    assert answer[..] == response;
    FullReadsReceiveAll(stream, [], |file|);
    received := written;
    receiverProgress := progress';
  }

  /** A receiver that rejects: the sender gets 0 in byte 0, gives up after
      the information packet and sends no file bytes. */
  method RejectedTransfer(fileName: array<Byte>, file: seq<Byte>, fileHash: array<Byte>)
    returns (ok: bool, writes: seq<seq<Byte>>)
    requires fileName.Length <= NameFieldLength && fileHash.Length == 16
    requires |file| < 0x8000_0000_0000_0000
    ensures !ok && writes == [FileInfoPacket(fileName[..], |file|, fileHash[..])]
  {
    var response := ResponsePacket(false, RejectReason);
    ResponseFlag(false, RejectReason);
    var progress;
    ok, writes, progress := SendFile(fileName, file, fileHash, response);
  }
}
