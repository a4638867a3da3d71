/**
 The LED board at the other end of the serial line, as its protocol notes describe it, and the agreement between what
 the host records and what the board shows.
 */
module LedBoard {
  import opened Text
  import opened Wrappers
  import opened Packets
  import opened LedDriver

  // 256 bytes of memory for every slot number, and the mask of messages being run
  datatype Board = Board(memory: seq<seq<Byte>>, mask: Byte)

  ghost predicate ValidBoard(b: Board) {
    |b.memory| == 256 && forall s :: 0 <= s < 256 ==> |b.memory[s]| == 256
  }

  function Stored(memory: seq<Byte>, offset: nat, payload: seq<Byte>): seq<Byte>
    requires offset + |payload| <= |memory|
  {
    memory[..offset] + payload + memory[offset + |payload|..]
  }

  /** A program packet with a good checksum is stored at its slot and offset; a run packet sets the mask. */
  function Receive(b: Board, packet: seq<Byte>): (b': Board)
    requires ValidBoard(b)
    ensures ValidBoard(b')
  {
    if && |packet| == PACKET_LENGTH && packet[0] == 0x02 && packet[1] == 0x31
       && packet[CHECKSUM_AT] == Sum(packet[..CHECKSUM_AT][1..]) && packet[3] <= 0xC0
    then
      var slot := packet[2];
      b.(memory := b.memory[slot := Stored(b.memory[slot], packet[3], packet[4..CHECKSUM_AT])])
    else if |packet| == 3 && packet[0] == 0x02 && packet[1] == 0x33 then b.(mask := packet[2])
    else b
  }

  function ReceiveAll(b: Board, packets: seq<seq<Byte>>): (b': Board)
    requires ValidBoard(b)
    ensures ValidBoard(b')
    decreases packets
  {
    if packets == [] then b else ReceiveAll(Receive(b, packets[0]), packets[1..])
  }

  predicate BitOf(n: nat, i: nat) {
    if i == 0 then n % 2 == 1 else BitOf(n / 2, i - 1)
  }

  // the text a slot's memory holds: as many bytes as its length byte says
  function TextIn(memory: seq<Byte>): seq<Byte>
    requires |memory| == 256
  {
    var n: nat := memory[3];
    memory[4..if n <= 252 then 4 + n else 256]
  }

  /** What the board shows for message `pos`: its text, if its bit is set in the run mask. */
  function Shown(b: Board, pos: nat): Option<seq<Byte>>
    requires ValidBoard(b) && 1 <= pos <= 250
  {
    if BitOf(b.mask, pos - 1) then Some(TextIn(b.memory[5 + pos])) else None
  }

  // ----- packets -----

  /** The whole payload of a message: 256 bytes of it. */
  function Payload(m: seq<Byte>): (s: seq<Byte>)
    requires |m| <= 250
    ensures |s| == 256
  {
    seq(256, k requires 0 <= k < 256 => PayloadByte(m, k))
  }

  lemma ReceivePacket(b: Board, part: nat, slot: Byte, m: seq<Byte>)
    requires ValidBoard(b) && 1 <= part <= 4 && |m| <= 250
    ensures var b' := Receive(b, Packet(part, slot, m));
            var from := 64 * (part - 1);
            && b'.mask == b.mask
            && (forall s :: 0 <= s < 256 && s != slot ==> b'.memory[s] == b.memory[s])
            && b'.memory[slot] == Stored(b.memory[slot], from, Payload(m)[from..from + 64])
  {
    var packet, body, from := Packet(part, slot, m), Body(part, slot, m), 64 * (part - 1);
    assert packet[..CHECKSUM_AT] == body && packet[4..CHECKSUM_AT] == body[4..];
    assert packet[0] == body[0] && packet[1] == body[1] && packet[2] == body[2] && packet[3] == body[3];
    forall j | 0 <= j < 64 ensures body[4..][j] == Payload(m)[from..from + 64][j] {
      assert body[4..][j] == body[j + 4] && Payload(m)[from..from + 64][j] == Payload(m)[from + j];
    }
    assert body[4..] == Payload(m)[from..from + 64];
  }

  lemma FourQuarters(memory: seq<Byte>, payload: seq<Byte>)
    requires |memory| == 256 == |payload|
    ensures var halfway := Stored(Stored(memory, 0, payload[0..64]), 64, payload[64..128]);
            Stored(Stored(halfway, 128, payload[128..192]), 192, payload[192..256]) == payload
  {
    var a := Stored(memory, 0, payload[0..64]);
    var b := Stored(a, 64, payload[64..128]);
    var c := Stored(b, 128, payload[128..192]);
    assert a[..64] == payload[..64];
    assert b[..128] == payload[..128] by { assert b[..64] == a[..64]; assert b[..128] == b[..64] + payload[64..128]; }
    assert c[..192] == payload[..192] by {
      assert c[..128] == b[..128];
      assert c[..192] == c[..128] + payload[128..192];
    }
    assert payload == payload[..192] + payload[192..256];
  }

  /**
   The four packets rebuild the message exactly: whatever the slot held before, it then holds the length and every
   byte of the text, once and in order, and zeros after it; no other slot changes.
   */
  lemma PacketRoundTrip(b: Board, pos: nat, m: seq<Byte>)
    requires ValidBoard(b) && 1 <= pos <= 250 && |m| <= 250
    ensures var b' := ReceiveAll(b, MessagePackets(pos, m));
            && b'.mask == b.mask
            && (forall s :: 0 <= s < 256 && s != 5 + pos ==> b'.memory[s] == b.memory[s])
            && b'.memory[5 + pos] == Payload(m) && TextIn(b'.memory[5 + pos]) == m
  {
    hide Receive, ReceiveAll, Packet, Payload, Stored, TextIn;
    var slot := 5 + pos;
    var packets := MessagePackets(pos, m);
    var b1 := Receive(b, Packet(1, slot, m));
    var b2 := Receive(b1, Packet(2, slot, m));
    var b3 := Receive(b2, Packet(3, slot, m));
    var b4 := Receive(b3, Packet(4, slot, m));
    ReceivePacket(b, 1, slot, m);
    ReceivePacket(b1, 2, slot, m);
    ReceivePacket(b2, 3, slot, m);
    ReceivePacket(b3, 4, slot, m);
    FourQuarters(b.memory[slot], Payload(m));
    ReceiveFour(b, packets);
    PayloadHolds(m);
  }

  lemma PayloadHolds(m: seq<Byte>)
    requires |m| <= 250
    ensures TextIn(Payload(m)) == m
  {
    assert Payload(m)[3] == |m|;
  }

  lemma ReceiveFour(b: Board, packets: seq<seq<Byte>>)
    requires ValidBoard(b) && |packets| == 4
    ensures ReceiveAll(b, packets) == Receive(Receive(Receive(Receive(b, packets[0]), packets[1]), packets[2]),
        packets[3])
  {
    var b1 := Receive(b, packets[0]);
    var b2 := Receive(b1, packets[1]);
    var b3 := Receive(b2, packets[2]);
    assert packets[1..][0] == packets[1] && packets[1..][1..][0] == packets[2]
        && packets[1..][1..][1..][0] == packets[3];
    assert packets[1..][1..][1..][1..] == [];
    assert ReceiveAll(b3, packets[1..][1..][1..]) == Receive(b3, packets[3]);
    assert ReceiveAll(b2, packets[1..][1..]) == Receive(b3, packets[3]);
  }

  lemma {:induction false} ReceiveAllConcat(b: Board, p: seq<seq<Byte>>, q: seq<seq<Byte>>)
    requires ValidBoard(b)
    ensures ReceiveAll(b, p + q) == ReceiveAll(ReceiveAll(b, p), q)
    decreases p
  {
    if p == [] {
      assert p + q == q;
    } else {
      assert (p + q)[0] == p[0] && (p + q)[1..] == p[1..] + q;
      ReceiveAllConcat(Receive(b, p[0]), p[1..], q);
    }
  }

  // ----- the mask -----

  lemma Doubled(b: nat, rest: nat)
    requires b < 2
    ensures (b + 2 * rest) % 2 == b && (b + 2 * rest) / 2 == rest
  {
  }

  lemma {:induction false} BitOfUlong(bits: seq<bool>, i: nat)
    ensures BitOf(ToUlong(bits), i) <==> i < |bits| && bits[i]
    decreases i
  {
    if bits == [] {
      BitOfZero(i);
    } else {
      Doubled(if bits[0] then 1 else 0, ToUlong(bits[1..]));
      if i > 0 {
        BitOfUlong(bits[1..], i - 1);
      }
    }
  }

  lemma {:induction false} BitOfZero(i: nat)
    ensures !BitOf(0, i)
  {
    if i > 0 {
      BitOfZero(i - 1);
    }
  }

  // the low k bits of a number
  function Low(n: nat, k: nat): nat {
    if k == 0 then 0 else n % 2 + 2 * Low(n / 2, k - 1)
  }

  lemma {:induction false} BitOfLow(n: nat, k: nat, i: nat)
    ensures BitOf(Low(n, k), i) <==> i < k && BitOf(n, i)
    decreases i
  {
    if k == 0 {
      BitOfZero(i);
    } else {
      var rest := Low(n / 2, k - 1);
      Doubled(n % 2, rest);
      if i > 0 {
        BitOfLow(n / 2, k - 1, i - 1);
      }
    }
  }

  lemma LowPair(n: nat, k: nat)
    ensures Low(n, k + 2) == n % 4 + 4 * Low(n / 4, k)
  {
    assert Low(n, k + 2) == n % 2 + 2 * Low(n / 2, k + 1);
    assert Low(n / 2, k + 1) == (n / 2) % 2 + 2 * Low(n / 2 / 2, k);
    assert n / 2 / 2 == n / 4;
  }

  lemma Nibble(n: nat)
    ensures n % 16 == n % 4 + 4 * (n / 4 % 4) && n / 4 / 4 == n / 16
  {
  }

  lemma TwoNibbles(n: nat)
    ensures n % 256 == n % 16 + 16 * (n / 16 % 16)
  {
    Digits(n % 16, n / 16 % 16, n / 16 / 16);
  }

  lemma Digits(a: nat, b: nat, c: nat)
    requires a < 16 && b < 16
    ensures (a + 16 * b + 256 * c) % 256 == a + 16 * b
  {
  }

  lemma ByteIsLowBits(n: nat)
    ensures Low(n, 8) == n % 256
  {
    var a, b, c := n / 4, n / 4 / 4, n / 4 / 4 / 4;
    assert Low(n, 8) == n % 4 + 4 * (a % 4) + 16 * (b % 4) + 64 * (c % 4) by {
      LowPair(n, 6);
      LowPair(a, 4);
      LowPair(b, 2);
      LowPair(c, 0);
      assert Low(c / 4, 0) == 0;
    }
    Nibble(n);
    Nibble(b);
    TwoNibbles(n);
  }

  lemma MaskBit(bits: seq<bool>, i: nat)
    ensures BitOf(ToUlong(bits) % 256, i) <==> i < 8 && i < |bits| && bits[i]
  {
    ByteIsLowBits(ToUlong(bits));
    BitOfLow(ToUlong(bits), 8, i);
    BitOfUlong(bits, i);
  }

  // ----- agreement over whole runs -----

  // setMessage indexes bit pos - 1 unguarded, so 0 is not a position to ask for
  datatype Request = Request(pos: int, message: seq<Byte>)

  predicate Accepted(h: Host, r: Request) {
    1 <= r.pos <= h.messages
  }

  function HostAfter(h: Host, r: Request): Host
    requires |h.enabled| == h.messages
  {
    if Accepted(h, r) then AfterSet(h, r.pos, Trim(r.message)) else h
  }

  function SentFor(h: Host, r: Request): seq<seq<Byte>>
    requires |h.enabled| == h.messages
  {
    if Accepted(h, r) then SetPackets(h, r.pos, Trim(r.message)) else []
  }

  /** A run: the requests change the host, and the packets sent for each reach the board. */
  function Run(h: Host, b: Board, rs: seq<Request>): (r: (Host, Board))
    requires |h.enabled| == h.messages && ValidBoard(b)
    ensures ValidBoard(r.1) && r.0.messages == h.messages == |r.0.enabled|
    decreases rs
  {
    if rs == [] then (h, b) else Run(HostAfter(h, rs[0]), ReceiveAll(b, SentFor(h, rs[0])), rs[1..])
  }

  // the enabled bits are those of the non-empty messages, and their slots hold their texts
  ghost predicate Loaded(h: Host, b: Board)
    requires ValidBoard(b)
  {
    && h.messages <= 64 && |h.enabled| == h.messages
    && forall p :: 1 <= p <= h.messages ==> SlotLoaded(h, b, p)
  }

  ghost predicate SlotLoaded(h: Host, b: Board, p: nat)
    requires ValidBoard(b) && 1 <= p <= |h.enabled| <= 64
  {
    && (h.enabled[p - 1] <==> Displayed(h, p) != [])
    && |Displayed(h, p)| <= 250
    && (Displayed(h, p) != [] ==> TextIn(b.memory[5 + p]) == Translate(Displayed(h, p)))
  }

  ghost predicate MaskSent(h: Host, b: Board) {
    b.mask == ToUlong(h.enabled) % 256
  }

  lemma SetKeepsLoaded(h: Host, b: Board, pos: nat, m: seq<Byte>)
    requires ValidBoard(b) && Loaded(h, b) && 1 <= pos <= h.messages && |m| <= 250
    ensures var b' := ReceiveAll(b, SetPackets(h, pos, m));
            Loaded(AfterSet(h, pos, m), b') && MaskSent(AfterSet(h, pos, m), b')
  {
    var h' := AfterSet(h, pos, m);
    var first := if m == [] then [] else MessagePackets(pos, Translate(m));
    var b1 := ReceiveAll(b, first);
    if m != [] {
      PacketRoundTrip(b, pos, Translate(m));
    }
    ReceiveAllConcat(b, first, [RunPacket(h')]);
    RunIsReceived(b1, h');
    SlotsKeepLoaded(h, b, pos, m, b1.(mask := ToUlong(h'.enabled) % 256));
  }

  lemma SlotsKeepLoaded(h: Host, b: Board, pos: nat, m: seq<Byte>, b': Board)
    requires ValidBoard(b) && ValidBoard(b') && Loaded(h, b) && 1 <= pos <= h.messages && |m| <= 250
    requires forall s :: 0 <= s < 256 && s != 5 + pos ==> b'.memory[s] == b.memory[s]
    requires m != [] ==> TextIn(b'.memory[5 + pos]) == Translate(m)
    ensures Loaded(AfterSet(h, pos, m), b')
  {
    var h' := AfterSet(h, pos, m);
    forall p | 1 <= p <= h.messages ensures SlotLoaded(h', b', p) {
      assert SlotLoaded(h, b, p);
      assert Displayed(h', p) == if p == pos then m else Displayed(h, p);
    }
  }

  lemma RunIsReceived(b: Board, h: Host)
    requires ValidBoard(b)
    ensures ReceiveAll(b, [RunPacket(h)]) == b.(mask := ToUlong(h.enabled) % 256)
  {
    assert [RunPacket(h)][1..] == [];
  }

  lemma {:induction false} RunKeepsLoaded(h: Host, b: Board, rs: seq<Request>)
    requires ValidBoard(b) && Loaded(h, b)
    ensures var (h', b') := Run(h, b, rs);
            Loaded(h', b')
            && (MaskSent(h, b) || (exists i :: 0 <= i < |rs| && Accepted(h, rs[i])) ==> MaskSent(h', b'))
    decreases rs
  {
    if rs != [] {
      if Accepted(h, rs[0]) {
        SetKeepsLoaded(h, b, rs[0].pos, Trim(rs[0].message));
      }
      RunKeepsLoaded(HostAfter(h, rs[0]), ReceiveAll(b, SentFor(h, rs[0])), rs[1..]);
      if i :| 0 <= i < |rs| && Accepted(h, rs[i]) {
        if i > 0 { assert rs[i] == rs[1..][i - 1]; }
      }
    }
  }

  // message p is shown as the host has it
  ghost predicate Agrees(h: Host, b: Board, p: nat)
    requires ValidBoard(b) && 1 <= p <= 250
  {
    Shown(b, p) == if Displayed(h, p) == [] then None else Some(Translate(Displayed(h, p)))
  }

  predicate SomeAccepted(h: Host, rs: seq<Request>) {
    exists i :: 0 <= i < |rs| && Accepted(h, rs[i])
  }

  /**
   Host and board agree: from a host with nothing displayed and a board in any state whatever, after any requests of
   which one at least was accepted, the board shows a message exactly when the host has one, and as the host has it.
   The mask is one byte, so this holds of a non-empty message if and only if it is among the first eight. If none was
   accepted nothing is displayed, and they agree if and only if the board was not running that message already.
   */
  lemma HostAndBoardAgree(h: Host, b: Board, rs: seq<Request>, p: nat)
    requires ValidBoard(b) && h.messages <= 64 && h == Host(h.messages, map[], seq(h.messages, _ => false))
    requires (forall i :: 0 <= i < |rs| ==> rs[i].pos != 0) && 1 <= p <= h.messages
    ensures var (h', b') := Run(h, b, rs);
            && (Agrees(h', b', p) <==>
                if SomeAccepted(h, rs) then p <= 8 || Displayed(h', p) == [] else !BitOf(b.mask, p - 1))
            && (p <= 8 && Displayed(h', p) != [] && MARK !in Displayed(h', p) ==>
                  Shown(b', p).Some? && Unescape(Shown(b', p).value, ESCAPES) == Displayed(h', p))
  {
    hide Run, Unescape, Translate, Rewrite, BitOf, ToUlong, TextIn;
    assert forall p :: 1 <= p <= h.messages ==> SlotLoaded(h, b, p);
    var (h', b') := Run(h, b, rs);
    if SomeAccepted(h, rs) {
      RunKeepsLoaded(h, b, rs);
      assert SlotLoaded(h', b', p);
      MaskBit(h'.enabled, p - 1);
      TranslationIsFaithful(Displayed(h', p));
    } else {
      NoneAccepted(h, b, rs);
    }
  }

  // request i is the last for message p
  predicate LastFor(rs: seq<Request>, p: int, i: nat) {
    i < |rs| && rs[i].pos == p && forall j :: i < j < |rs| ==> rs[j].pos != p
  }

  /** What the host displays for a message is what was asked for it last, 250 bytes of it at most. */
  lemma {:induction false} DisplayedIsLast(h: Host, b: Board, rs: seq<Request>, p: nat, i: nat)
    requires |h.enabled| == h.messages && ValidBoard(b) && 1 <= p <= h.messages
    ensures LastFor(rs, p, i) ==>
              var m := rs[i].message;
              Displayed(Run(h, b, rs).0, p) == if |m| <= 250 then m else m[..250]
    ensures (forall j :: 0 <= j < |rs| ==> rs[j].pos != p) ==> Displayed(Run(h, b, rs).0, p) == Displayed(h, p)
    decreases rs
  {
    hide ReceiveAll, SetPackets, ToUlong;
    if rs != [] {
      var h', b', rest := HostAfter(h, rs[0]), ReceiveAll(b, SentFor(h, rs[0])), rs[1..];
      assert forall j :: 0 <= j < |rest| ==> rest[j] == rs[j + 1];
      assert forall j :: 0 < j < |rs| ==> rs[j] == rest[j - 1];
      DisplayedIsLast(h', b', rest, p, if i > 0 then i - 1 else 0);
    }
  }

  /**
   The board shows what was asked for: from a host with nothing displayed and a board in any state whatever, after any
   requests each of the first eight messages is shown with the text last asked for it, cut to 250 bytes, escapes
   rewritten, unless that was empty or nothing was.
   */
  lemma BoardShowsLast(h: Host, b: Board, rs: seq<Request>, p: nat, i: nat)
    requires ValidBoard(b) && h.messages <= 64 && h == Host(h.messages, map[], seq(h.messages, _ => false))
    requires (forall i :: 0 <= i < |rs| ==> rs[i].pos != 0) && 1 <= p <= h.messages && p <= 8
    requires exists j :: 0 <= j < |rs| && 1 <= rs[j].pos <= h.messages
    ensures LastFor(rs, p, i) ==>
              var m := if |rs[i].message| <= 250 then rs[i].message else rs[i].message[..250];
              Shown(Run(h, b, rs).1, p) == if m == [] then None else Some(Rewrite(m, ESCAPES))
    ensures (forall j :: 0 <= j < |rs| ==> rs[j].pos != p) ==> Shown(Run(h, b, rs).1, p) == None
  {
    hide Run, Shown, Rewrite, Translate;
    var j :| 0 <= j < |rs| && 1 <= rs[j].pos <= h.messages;
    assert Accepted(h, rs[j]);
    HostAndBoardAgree(h, b, rs, p);
    DisplayedIsLast(h, b, rs, p, i);
    TranslationIsFaithful(Displayed(Run(h, b, rs).0, p));
  }

  lemma {:induction false} NoneAccepted(h: Host, b: Board, rs: seq<Request>)
    requires |h.enabled| == h.messages && ValidBoard(b) && !SomeAccepted(h, rs)
    ensures Run(h, b, rs) == (h, b)
    decreases rs
  {
    if rs != [] {
      assert !Accepted(h, rs[0]) && forall i :: 0 <= i < |rs| - 1 ==> rs[1..][i] == rs[i + 1];
      NoneAccepted(h, b, rs[1..]);
    }
  }

  /** Clearing hides a message without touching its memory; a later message replaces all of it. */
  lemma ClearHides(h: Host, b: Board, pos: nat)
    requires ValidBoard(b) && Loaded(h, b) && 1 <= pos <= h.messages
    ensures var b' := ReceiveAll(b, SetPackets(h, pos, []));
            b'.memory == b.memory && Shown(b', pos) == None
  {
    var h' := AfterSet(h, pos, []);
    RunIsReceived(b, h');
    assert SetPackets(h, pos, []) == [RunPacket(h')];
    MaskBit(h'.enabled, pos - 1);
  }
}
