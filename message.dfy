/** The names the ControlInfo enum gives to control codes. A control code is
    six bits wide on the wire; codes 17..63 have no name but still decode. */
module ControlInfo {

  const None := 0                     // data message, not a control message
  const ClientRequestConnection := 1
  const ConnectionAccepted := 2
  const ConnectionRejected := 3
  const RequestFileUpload := 4
  const RequestFileDownload := 5
  const RequestFileRemove := 6
  const FileAvailable := 7
  const FtpPortOpened := 8
  const ListOfClients := 9
  const ListOfChatrooms := 10
  const ListOfFiles := 11
  const RequestJoinChatroom := 12
  const RequestLeaveChatroom := 13
  const RequestCreateChatroom := 14
  const ClientJoinedChatroom := 15
  const ClientLeftChatroom := 16
}

/**
 The chat message and its packet (ChatClassLibrary/Protocols/Message.cs):
 a fixed 45-byte header followed by an optional text body.

   byte 0        Type << 6 | ControlInfo
   bytes 1..17   sender id (the 16 bytes of Guid.ToByteArray)
   bytes 17..33  target id
   bytes 33..41  time sent, big-endian 64-bit (DateTime.ToBinary of universal time)
   bytes 41..45  body length, big-endian 32-bit
   bytes 45..    body (UTF-8 bytes of the text)

 A Guid is modelled by its 16 bytes and the text by its UTF-8 bytes, so the
 Guid and text encoders are the identity here; the timestamp is the opaque
 64-bit binary form of the DateTime.
 */
module Protocols {

  import opened Wrappers
  import opened Utility
  import ControlInfo

  datatype MessageType = Control | SystemMessage | UserGroupMessage | UserPrivateMessage

  /** (int) of a MessageType. */
  function TypeCode(t: MessageType): nat
  {
    match t
    case Control => 0
    case SystemMessage => 1
    case UserGroupMessage => 2
    case UserPrivateMessage => 3
  }

  /** (MessageType) of a two-bit code. */
  function TypeOf(code: nat): (t: MessageType)
    requires code < 4
    ensures TypeCode(t) == code
  {
    if code == 0 then Control
    else if code == 1 then SystemMessage
    else if code == 2 then UserGroupMessage
    else UserPrivateMessage
  }

  /** A ControlInfo value that fits the six bits the packet gives it. */
  type ControlCode = c: int | 0 <= c < 64

  type Guid = s: seq<Byte> | |s| == 16
    witness [0, 0, 0, 0, 0, 0, 0, 0, 0, 0, 0, 0, 0, 0, 0, 0]

  /** DateTime.MinValue, the TimeReceived of a freshly decoded message. */
  const MinTime: Int64 := 0

  /** Size of the fixed-length header of every packet. */
  const HeaderLength: nat := 1 + 16 + 16 + 8 + 4

  /** A message; text is None for a null string, otherwise its UTF-8 bytes. */
  datatype Message = Message(
    msgType: MessageType,
    controlInfo: ControlCode,
    senderId: Guid,
    targetId: Guid,
    timeSent: Int64,
    timeReceived: Int64,
    text: Option<seq<Byte>>)

  /** A message is invalid when its first byte would be 0: a control message
      without a control code, as read from an empty or closed stream. */
  predicate IsValid(m: Message): (valid: bool)
    ensures valid <==> FirstByte(m.msgType, m.controlInfo) != 0
  {
    !(m.msgType == Control && m.controlInfo == ControlInfo.None)
  }

  /** string.IsNullOrEmpty(Text). */
  predicate IsNullOrEmpty(text: Option<seq<Byte>>)
  {
    text.None? || text.value == []
  }

  /** The body the packet carries: nothing for a null or empty text. */
  function Body(m: Message): seq<Byte>
  {
    if IsNullOrEmpty(m.text) then [] else m.text.value
  }

  /** (byte) (((int) Type << 6) + (int) ControlInfo); the cast never
      truncates, as the type takes the two high bits and the code the six
      low ones. */
  function FirstByte(t: MessageType, c: ControlCode): (b: Byte)
    ensures b == TypeCode(t) * 64 + c
    ensures b / 64 == TypeCode(t) && b % 64 == c
  {
    (TypeCode(t) * 64 + c) % 256
  }

  /** BuildPacket: the header fields in order, the body length and the body. */
  function BuildPacket(m: Message): (packet: seq<Byte>)
    requires |Body(m)| < 0x8000_0000
    ensures |packet| == HeaderLength + |Body(m)|
    ensures packet[0] == TypeCode(m.msgType) * 64 + m.controlInfo
    ensures packet[1..17] == m.senderId && packet[17..33] == m.targetId
    ensures ReadInt64(packet, 33) == m.timeSent
    ensures ReadInt32(packet, 41) == |Body(m)|
    ensures packet[HeaderLength..] == Body(m)
  {
    var firstByte := [FirstByte(m.msgType, m.controlInfo)];
    var timeSent := EncodeInt64(m.timeSent);
    var packet :=
      if !IsNullOrEmpty(m.text) then
        var data := m.text.value;
        firstByte + m.senderId + m.targetId + timeSent + EncodeInt32(|data|) + data
      else
        firstByte + m.senderId + m.targetId + timeSent + EncodeInt32(0);
    PacketLayout(firstByte, m.senderId, m.targetId, timeSent, EncodeInt32(|Body(m)|), Body(m));
    Int64RoundTrip(m.timeSent);
    Int32RoundTrip(|Body(m)|);
    packet
  }

  /** Where the fields of a concatenated packet lie. */
  lemma PacketLayout(first: seq<Byte>, sender: seq<Byte>, target: seq<Byte>, time: seq<Byte>,
                     length: seq<Byte>, body: seq<Byte>)
    requires |first| == 1 && |sender| == 16 && |target| == 16 && |time| == 8 && |length| == 4
    ensures var p := first + sender + target + time + length + body;
            |p| == HeaderLength + |body| && p[0] == first[0] &&
            p[1..17] == sender && p[17..33] == target && p[33..41] == time &&
            p[41..45] == length && p[HeaderLength..] == body
    ensures body == [] ==> first + sender + target + time + length + body == first + sender + target + time + length
  {
    var p := first + sender + target + time + length + body;
    assert p[1..17] == sender;
    assert p[17..33] == target;
    assert p[33..41] == time;
    assert p[41..45] == length;
    assert p[45..] == body;
  }

  /** FromPacket: None below the header length; otherwise the first byte
      split into its high two bits (>> 6) and low six bits (& 0x3F), the ids,
      the timestamp, and every byte after the header as text. The length
      field at 41..45 is never read. */
  function FromPacket(packet: seq<Byte>): (r: Option<Message>)
    ensures r.None? <==> |packet| < HeaderLength
    ensures r.Some? ==> TypeCode(r.value.msgType) * 64 + r.value.controlInfo == packet[0]
    ensures r.Some? ==> r.value.senderId == packet[1..17] && r.value.targetId == packet[17..33]
    ensures r.Some? ==> EncodeInt64(r.value.timeSent) == packet[33..41]
    ensures r.Some? ==> r.value.timeReceived == MinTime
    ensures r.Some? ==> (r.value.text.None? <==> |packet| == HeaderLength)
    ensures r.Some? && r.value.text.Some? ==> r.value.text.value == packet[HeaderLength..]
  {
    if |packet| < HeaderLength then None
    else
      var messageType := packet[0] / 64;
      var controlCode := packet[0] % 64;
      var text := if |packet| == HeaderLength then None else Some(packet[HeaderLength..]);
      Some(Message(TypeOf(messageType), controlCode, packet[1..17], packet[17..33],
                   ReadInt64(packet, 33), MinTime, text))
  }

  /** What a message looks like after a trip through its packet: the time of
      receipt is reset and an empty text comes back null. */
  function Normalized(m: Message): Message
  {
    m.(timeReceived := MinTime, text := if IsNullOrEmpty(m.text) then None else m.text)
  }

  /** Decoding a built packet restores the message, up to Normalized. */
  lemma RoundTrip(m: Message)
    requires |Body(m)| < 0x8000_0000
    ensures FromPacket(BuildPacket(m)) == Some(Normalized(m))
  {
    var p := BuildPacket(m);
    var r := FromPacket(p).value;
    assert TypeCode(r.msgType) == TypeCode(m.msgType);
    Int64Injective(r.timeSent, m.timeSent);
  }

  lemma Int64Injective(x: Int64, y: Int64)
    requires EncodeInt64(x) == EncodeInt64(y)
    ensures x == y
  {
    Int64RoundTrip(x);
    Int64RoundTrip(y);
  }

  /** A decoded message is valid exactly when its first byte is not 0. */
  lemma DecodedValidity(packet: seq<Byte>)
    requires |packet| >= HeaderLength
    ensures FromPacket(packet).Some?
    ensures IsValid(FromPacket(packet).value) <==> packet[0] != 0
  {
  }

  /** A message is valid exactly when its packet does not start with 0. */
  lemma BuiltValidity(m: Message)
    requires |Body(m)| < 0x8000_0000
    ensures IsValid(m) <==> BuildPacket(m)[0] != 0
  {
  }

  /** The decoder ignores the length field: two packets that differ only in
      bytes 41..45 decode to the same message. */
  lemma LengthFieldIgnored(p: seq<Byte>, q: seq<Byte>)
    requires |p| == |q| >= HeaderLength
    requires p[..41] == q[..41] && p[HeaderLength..] == q[HeaderLength..]
    ensures FromPacket(p) == FromPacket(q)
  {
    assert p[1..17] == p[..41][1..17] == q[..41][1..17] == q[1..17];
    assert p[17..33] == p[..41][17..33] == q[..41][17..33] == q[17..33];
    assert p[33..41] == p[..41][33..41] == q[..41][33..41] == q[33..41];
    assert p[0] == p[..41][0];
  }

  /** The packet with bytes 33..41 replaced by the big-endian time. */
  function PatchTimeStamp(packet: seq<Byte>, time: Int64): (r: seq<Byte>)
    requires |packet| >= 41
    ensures |r| == |packet|
    ensures ReadInt64(r, 33) == time
    ensures forall i :: 0 <= i < |packet| && !(33 <= i < 41) ==> r[i] == packet[i]
  {
    var r := packet[..33] + EncodeInt64(time) + packet[41..];
    assert r[33..41] == EncodeInt64(time);
    Int64RoundTrip(time);
    r
  }

  /** UpdatePacketTimeStamp(packet, time): Array.Copy of the eight time bytes
      over offset 33 of the caller's packet. */
  method UpdatePacketTimeStamp(packet: array<Byte>, time: Int64)
    requires packet.Length >= 41
    modifies packet
    ensures packet[..] == PatchTimeStamp(old(packet[..]), time)
  {
    var timeSent := LongToBytes(time);
    ArrayCopy(timeSent, 0, packet, 33, 8);
  }

  /** Patching the time of a built packet builds the packet of the message
      with that time. */
  lemma PatchIsRebuild(m: Message, time: Int64)
    requires |Body(m)| < 0x8000_0000
    ensures PatchTimeStamp(BuildPacket(m), time) == BuildPacket(m.(timeSent := time))
  {
    var p := PatchTimeStamp(BuildPacket(m), time);
    var q := BuildPacket(m.(timeSent := time));
    Int64Injective(ReadInt64(p, 33), ReadInt64(q, 33));
    assert p[33..41] == q[33..41];
    forall i | 0 <= i < |p|
      ensures p[i] == q[i]
    {
      if 33 <= i < 41 {
        assert p[i] == p[33..41][i - 33];
      } else if 1 <= i < 17 {
        assert p[i] == m.senderId[i - 1];
      } else if 17 <= i < 33 {
        assert p[i] == m.targetId[i - 17];
      } else if 41 <= i < 45 {
        assert p[i] == p[41..45][i - 41];
        assert q[i] == q[41..45][i - 41];
        Int32Encodings(p[41..45]);
        Int32Encodings(q[41..45]);
      } else if i >= 45 {
        assert p[i] == p[45..][i - 45];
        assert q[i] == q[45..][i - 45];
      }
    }
  }

  /** Encoding, patching the time and decoding yields exactly the new time and
      leaves every other field (text included) as a plain round trip would. */
  lemma PatchThenDecode(m: Message, time: Int64)
    requires |Body(m)| < 0x8000_0000
    ensures FromPacket(PatchTimeStamp(BuildPacket(m), time)) == Some(Normalized(m).(timeSent := time))
  {
    PatchIsRebuild(m, time);
    RoundTrip(m.(timeSent := time));
  }
}
