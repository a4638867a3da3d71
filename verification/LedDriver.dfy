/** The driver of the LED board: packet assembly in place, and the host's record of what is displayed. */
module LedDriver {
  import opened Text
  import opened Packets

  const PACKET_LENGTH: nat := 69
  const CHECKSUM_AT: nat := 68

  // running total of a checksum, in eight bits
  function Sum(s: seq<Byte>): Byte {
    if s == [] then 0 else (Sum(s[..|s| - 1]) + s[|s| - 1]) % 256
  }

  // where the text of a part begins, and how many of its bytes a part takes
  function PartStart(part: nat): nat
    requires 1 <= part <= 4
  {
    if part == 1 then 0 else 64 * part - 68
  }

  function PartSize(part: nat, length: nat): nat
    requires 1 <= part <= 4
  {
    var room := if part == 1 then 60 else 65;
    var start := PartStart(part);
    if length < start then 0 else if length - start < room then length - start else room
  }

  /** The bytes of a packet before its checksum: byte j carries payload offset 64 * (part - 1) + j - 4. */
  function BodyByte(part: nat, slot: Byte, m: seq<Byte>, j: nat): Byte
    requires 1 <= part <= 4 && |m| <= 255
  {
    if j == 0 then 0x02
    else if j == 1 then 0x31
    else if j == 2 then slot
    else if j == 3 then 64 * (part - 1)
    else PayloadByte(m, 64 * (part - 1) + j - 4)
  }

  /** The 256 payload bytes of a message: three fixed ones, its length, its text, and zeros. */
  function PayloadByte(m: seq<Byte>, k: nat): Byte
    requires |m| <= 255
  {
    if k == 0 then 0x35
    else if k == 2 then 0x42
    else if k == 3 then |m|
    else if 4 <= k < 4 + |m| then m[k - 4]
    else 0
  }

  function Body(part: nat, slot: Byte, m: seq<Byte>): (body: seq<Byte>)
    requires 1 <= part <= 4 && |m| <= 255
    ensures |body| == CHECKSUM_AT
  {
    seq(CHECKSUM_AT, j requires 0 <= j < CHECKSUM_AT => BodyByte(part, slot, m, j))
  }

  function Packet(part: nat, slot: Byte, m: seq<Byte>): (packet: seq<Byte>)
    requires 1 <= part <= 4 && |m| <= 255
    ensures |packet| == PACKET_LENGTH
  {
    var body := Body(part, slot, m);
    body + [Sum(body[1..])]
  }

  // ----- packet assembly -----

  /** doChkSum */
  method DoChkSum(data: array<Byte>, length: nat)
    requires 1 <= length < data.Length
    modifies data
    ensures data[length] == Sum(old(data[1..length]))
    ensures forall j :: 0 <= j < data.Length && j != length ==> data[j] == old(data[j])
  {
    var csum: Byte := 0;
    var i := 1;
    while i < length
      invariant 1 <= i <= length && csum == Sum(data[1..i])
    {
      assert data[1..i + 1][..i - 1] == data[1..i];
      csum := (csum + data[i]) % 256;
      i := i + 1;
    }
    data[i] := csum;
  }

  /**
   insertMessage: the size of the part is found by an unsigned subtraction that wraps when the message is shorter than
   where the part starts; a part then takes nothing. A later part takes 65 bytes, the last of them where the checksum
   will go.
   */
  method InsertMessage(part: nat, data: array<Byte>, message: seq<Byte>)
    requires 1 <= part <= 4 && data.Length == PACKET_LENGTH && |message| < 0x1_0000_0000_0000_0000
    modifies data
    ensures var at := if part == 1 then 8 else 4;
            forall j :: 0 <= j < PACKET_LENGTH ==>
              data[j] == if part == 1 && j == 7 then |message| % 256
                         else if at <= j < at + PartSize(part, |message|) then message[PartStart(part) + j - at]
                         else old(data[j])
  {
    var startpos, size, messagestart := 4, 60, 0;
    if part == 1 {
      startpos := 8;
      data[7] := |message| % 256;
    } else if part == 2 {
      messagestart := 60;
      size := 65;
    } else if part == 3 {
      messagestart := 124;
      size := 65;
    } else if part == 4 {
      messagestart := 188;
      size := 65;
    }
    var left := (|message| - messagestart) % 0x1_0000_0000_0000_0000;
    if left < size {
      size := left;
    }
    if size > |message| {
      return;
    }
    if messagestart > |message| {
      return;
    }
    CopyPart(data, startpos, size, message, messagestart);
  }

  method CopyPart(data: array<Byte>, at: nat, size: nat, message: seq<Byte>, messagestart: nat)
    requires at + size <= data.Length <= 255 && messagestart + size <= |message|
    modifies data
    ensures forall j :: 0 <= j < data.Length ==>
              data[j] == if at <= j < at + size then message[messagestart + j - at] else old(data[j])
  {
    var startpos := at;
    for i := 0 to size
      invariant startpos == at + i
      invariant forall j :: 0 <= j < data.Length ==>
                  data[j] == if at <= j < at + i then message[messagestart + j - at] else old(data[j])
    {
      data[startpos] := message[i + messagestart];
      startpos := (startpos + 1) % 256;
    }
  }

  // one of the four header arrays of setMessage, filled in
  method MakePacket(part: nat, pos: nat, message: seq<Byte>) returns (packet: seq<Byte>)
    requires 1 <= part <= 4 && |message| <= 250
    ensures packet == Packet(part, (5 + pos) % 256, message)
  {
    hide Sum, Packet;
    var data := new Byte[PACKET_LENGTH](_ => 0);
    data[0], data[1], data[2], data[3] := 0x02, 0x31, 0x06, 64 * (part - 1);
    if part == 1 {
      data[4], data[6], data[CHECKSUM_AT] := 0x35, 0x42, 0x72;
    } else {
      data[CHECKSUM_AT] := if part == 2 then 0x71 else if part == 3 then 0xB7 else 0xF7;
    }
    InsertMessage(part, data, message);
    data[2] := (5 + pos) % 256;
    assert forall j :: 0 <= j < CHECKSUM_AT ==> data[j] == BodyByte(part, (5 + pos) % 256, message, j);
    ghost var summed := data[1..CHECKSUM_AT];
    DoChkSum(data, CHECKSUM_AT);
    packet := data[..];
    assert packet[1..CHECKSUM_AT] == summed;
    PacketIs(part, (5 + pos) % 256, message, packet);
  }

  lemma PacketIs(part: nat, slot: Byte, m: seq<Byte>, packet: seq<Byte>)
    requires 1 <= part <= 4 && |m| <= 255 && |packet| == PACKET_LENGTH
    requires forall j :: 0 <= j < CHECKSUM_AT ==> packet[j] == BodyByte(part, slot, m, j)
    requires packet[CHECKSUM_AT] == Sum(packet[1..CHECKSUM_AT])
    ensures packet == Packet(part, slot, m)
  {
    var body := Body(part, slot, m);
    assert packet[1..CHECKSUM_AT] == body[1..];
    assert packet == body + [packet[CHECKSUM_AT]];
  }

  function Total(s: seq<Byte>): nat {
    if s == [] then 0 else Total(s[..|s| - 1]) + s[|s| - 1]
  }

  /** The running total in a byte is the sum of all the bytes, modulo 256. */
  lemma {:induction false} SumIsTotal(s: seq<Byte>)
    ensures Sum(s) == Total(s) % 256
  {
    if s != [] {
      SumIsTotal(s[..|s| - 1]);
    }
  }

  /**
   What goes over the wire for each part of a message, byte by byte: the header, with the slot 5 beyond the position and
   the offset of the part, then in the first part 35, 0, 42 and the length, then the text, zeros, and the checksum.
   */
  lemma PacketBytes(part: nat, pos: nat, m: seq<Byte>)
    requires 1 <= part <= 4 && 1 <= pos <= 64 && |m| <= 250
    ensures var packet := Packet(part, (5 + pos) % 256, m);
            var from := if part == 1 then 8 else 4;
            var start := if part == 1 then 0 else if part == 2 then 60 else if part == 3 then 124 else 188;
            && |packet| == 69 && packet[..4] == [0x02, 0x31, 5 + pos, [0x00, 0x40, 0x80, 0xC0][part - 1]]
            && (part == 1 ==> packet[4..8] == [0x35, 0x00, 0x42, |m|])
            && (forall j :: from <= j < 68 ==>
                  packet[j] == if start + j - from < |m| then m[start + j - from] else 0)
            && packet[68] == Total(packet[1..68]) % 256
  {
    hide Sum, Total;
    var slot := (5 + pos) % 256;
    var body, packet := Body(part, slot, m), Packet(part, slot, m);
    SumIsTotal(body[1..]);
    assert packet[1..68] == body[1..];
    assert forall j :: 0 <= j < 68 ==> packet[j] == body[j] == BodyByte(part, slot, m, j);
  }

  // ----- the driver -----

  /** The host's side: which messages exist, what each slot displays, and which are enabled. */
  datatype Host = Host(messages: nat, displayed: map<int, seq<Byte>>, enabled: seq<bool>)

  // reading a std::map: an absent message is empty
  function Displayed(h: Host, pos: int): seq<Byte> {
    if pos in h.displayed then h.displayed[pos] else []
  }

  // dynamic_bitset::to_ulong
  function ToUlong(bits: seq<bool>): nat {
    if bits == [] then 0 else (if bits[0] then 1 else 0) + 2 * ToUlong(bits[1..])
  }

  function RunPacket(h: Host): seq<Byte> {
    [0x02, 0x33, ToUlong(h.enabled) % 256]
  }

  function MessagePackets(pos: nat, m: seq<Byte>): seq<seq<Byte>>
    requires |m| <= 250
  {
    var slot := (5 + pos) % 256;
    [Packet(1, slot, m), Packet(2, slot, m), Packet(3, slot, m), Packet(4, slot, m)]
  }

  // the host after slot `pos` has been given the trimmed message m
  function AfterSet(h: Host, pos: nat, m: seq<Byte>): Host
    requires 1 <= pos <= |h.enabled|
  {
    h.(displayed := h.displayed[pos := m], enabled := h.enabled[pos - 1 := m != []])
  }

  /** What is sent for it: the four packets of the message, if there is one, and the mask of messages to run. */
  function SetPackets(h: Host, pos: nat, m: seq<Byte>): seq<seq<Byte>>
    requires 1 <= pos <= |h.enabled| && |m| <= 250
  {
    (if m == [] then [] else MessagePackets(pos, Translate(m))) + [RunPacket(AfterSet(h, pos, m))]
  }

  /** The parts of a message go over the wire in order, to the slot of its position, and the mask after them. */
  lemma SetSends(h: Host, pos: nat, m: seq<Byte>)
    requires 1 <= pos <= |h.enabled| <= 64 && |m| <= 250
    ensures var sent := SetPackets(h, pos, m);
            && |sent| == (if m == [] then 1 else 5)
            && (m != [] ==> forall i :: 0 <= i < 4 ==>
                  |sent[i]| == 69 && sent[i][..4] == [0x02, 0x31, 5 + pos, [0x00, 0x40, 0x80, 0xC0][i]])
            && |sent[|sent| - 1]| == 3 && sent[|sent| - 1][..2] == [0x02, 0x33]
  {
    hide Packet, Translate, ToUlong;
    if m != [] {
      var t := Translate(m);
      var parts := MessagePackets(pos, t);
      forall i | 0 <= i < 4
        ensures |parts[i]| == 69 && parts[i][..4] == [0x02, 0x31, 5 + pos, [0x00, 0x40, 0x80, 0xC0][i]]
      {
        PacketBytes(i + 1, pos, t);
        assert parts[i] == Packet(i + 1, (5 + pos) % 256, t);
      }
      assert forall i :: 0 <= i < 4 ==> SetPackets(h, pos, m)[i] == parts[i];
    }
  }

  // messages < (unsigned) pos is refused
  predicate PassesGuard(messages: nat, pos: int) {
    pos % 0x1_0000_0000 <= messages
  }

  /** The guard lets position 0 through as well, for which there is no message and no bit. */
  lemma GuardMeaning(messages: nat, pos: int)
    requires messages <= 64 && -0x8000_0000 <= pos < 0x8000_0000
    ensures PassesGuard(messages, pos) <==> 0 <= pos <= messages
  {
  }

  class DriverDX {
    const messages: nat
    var displayedmsgs: map<int, seq<Byte>>
    var msgdisplay: seq<bool>
    var wire: seq<seq<Byte>>

    ghost predicate Valid()
      reads this
    {
      |msgdisplay| == messages <= 64
    }

    ghost function View(): Host
      reads this
    {
      Host(messages, displayedmsgs, msgdisplay)
    }

    constructor (messages: nat)
      requires messages <= 64
      ensures Valid() && View() == Host(messages, map[], seq(messages, _ => false)) && wire == []
    {
      this.messages := messages;
      displayedmsgs := map[];
      msgdisplay := seq(messages, _ => false);
      wire := [];
    }

    // a write to the serial port, assumed to send the whole packet
    method Write(packet: seq<Byte>)
      modifies this`wire
      ensures wire == old(wire) + [packet]
    {
      wire := wire + [packet];
    }

    method SendMessage(pos: nat, m: seq<Byte>)
      requires |m| <= 250
      modifies this`wire
      ensures wire == old(wire) + MessagePackets(pos, m)
    {
      ghost var slot := (5 + pos) % 256;
      var header1 := MakePacket(1, pos, m);
      var header2 := MakePacket(2, pos, m);
      var header3 := MakePacket(3, pos, m);
      var header4 := MakePacket(4, pos, m);
      Write(header1);
      Write(header2);
      Write(header3);
      Write(header4);
    }

    // the bits of every enabled message, in one byte
    method SendRun()
      modifies this`wire
      ensures wire == old(wire) + [RunPacket(View())]
    {
      Write(RunPacket(Host(messages, displayedmsgs, msgdisplay)));
    }

    method Show(pos: nat, m: seq<Byte>)
      requires Valid() && 1 <= pos <= messages && 0 < |m| <= 250
      modifies this
      ensures Valid() && View() == AfterSet(old(View()), pos, m)
      ensures wire == old(wire) + MessagePackets(pos, Translate(m))
    {
      displayedmsgs := displayedmsgs[pos := m];
      msgdisplay := msgdisplay[pos - 1 := true];
      SendMessage(pos, Passes(m, ESCAPES));
    }

    method Hide(pos: nat)
      requires Valid() && 1 <= pos <= messages
      modifies this`displayedmsgs, this`msgdisplay
      ensures Valid() && View() == AfterSet(old(View()), pos, [])
    {
      displayedmsgs := displayedmsgs[pos := []];
      msgdisplay := msgdisplay[pos - 1 := false];
    }

    // everything setMessage does once the position and the length are in order
    method Update(pos: nat, m: seq<Byte>)
      requires Valid() && 1 <= pos <= messages && |m| <= 250
      modifies this
      ensures Valid() && View() == AfterSet(old(View()), pos, m)
      ensures wire == old(wire) + SetPackets(old(View()), pos, m)
    {
      ghost var run := RunPacket(AfterSet(View(), pos, m));
      if |m| > 0 {
        Show(pos, m);
        Assoc(old(wire), MessagePackets(pos, Translate(m)), [run]);
      } else {
        Hide(pos);
        Assoc(wire, [], [run]);
        assert wire + [] == wire;
      }
      SendRun();
    }

    /** setMessage */
    method SetMessage(pos: int, message: seq<Byte>) returns (ok: bool)
      requires Valid() && pos != 0 && -0x8000_0000 <= pos < 0x8000_0000
      modifies this
      ensures Valid() && (ok <==> PassesGuard(messages, pos)) && (ok <==> 1 <= pos <= messages)
      ensures !ok ==> View() == old(View()) && wire == old(wire)
      ensures ok ==> View() == AfterSet(old(View()), pos, Trim(message))
                     && wire == old(wire) + SetPackets(old(View()), pos, Trim(message))
      ensures ok ==> displayedmsgs == old(displayedmsgs)[pos := if |message| <= 250 then message else message[..250]]
                     && msgdisplay == old(msgdisplay)[pos - 1 := message != []]
    {
      if !PassesGuard(messages, pos) {
        return false;
      }
      var m := message;
      if |m| > 250 {
        m := m[..250];
      }
      Update(pos, m);
      ok := true;
    }
  }
}
