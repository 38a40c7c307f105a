/** IPv4 and ICMP echo (section 3.1 of RFC 791): building packets, and accepting them. */
module Ip {
  import opened Prelude
  import opened Checksum

  const IP_PROTO_ICMP: byte := 1
  const MAX_PAYLOAD: nat := 1480
  const HEADER: nat := 20

  function Word(b: seq<byte>, k: nat): nat
    requires k + 1 < |b|
  {
    b[k] as int * 256 + b[k + 1] as int
  }

  /** A 32-bit address in network order. */
  function Address(b: seq<byte>, k: nat): nat
    requires k + 3 < |b|
  {
    Word(b, k) * 0x10000 + Word(b, k + 2)
  }

  function AddressBytes(a: nat): seq<byte>
    requires a < U32
  {
    [a / 0x1000000, a / 0x10000 % 0x100, a / 0x100 % 0x100, a % 0x100]
  }

  /** The header that ip_send() builds, with the checksum field still 0. */
  function BlankHeader(src: nat, dst: nat, proto: byte, plen: nat): (h: seq<byte>)
    requires src < U32 && dst < U32 && plen <= MAX_PAYLOAD
    ensures |h| == HEADER
  {
    [0x45, 0, (HEADER + plen) / 256, (HEADER + plen) % 256, 0, 0, 0, 0, 64, proto, 0, 0]
    + AddressBytes(src) + AddressBytes(dst)
  }

  function Header(src: nat, dst: nat, proto: byte, plen: nat): seq<byte>
    requires src < U32 && dst < U32 && plen <= MAX_PAYLOAD
  {
    var blank := BlankHeader(src, dst, proto, plen);
    FoldComplement(WordSum(blank) % U32);
    Stored(blank, 10, ONES - Fold(WordSum(blank) % U32))
  }

  /** Where a valid packet for us has its payload. */
  datatype Accepted = Accepted(proto: byte, src: nat, at: nat, len: nat)

  /** The sum over the header, wherever its length says it ends. */
  function HeaderSum(pkt: seq<byte>): nat
    requires |pkt| >= 60
  {
    Fold(WordSum(pkt[..(pkt[0] as int % 16) * 4]) % U32)
  }

  /** ip_input() at the host `netIp`; the receive buffer `pkt` holds a packet of `len` bytes. */
  function Input(pkt: seq<byte>, len: nat, netIp: nat): Option<Accepted>
    requires len <= |pkt| && |pkt| >= 60
  {
    var ihl := (pkt[0] as int % 16) * 4;
    var total := Word(pkt, 2);
    if len < HEADER || pkt[0] as int / 16 != 4 || ihl < HEADER then None
    else if total < HEADER || total > len then None
    else if HeaderSum(pkt) != ONES then None
    else if Address(pkt, 16) != netIp then None
    else Some(Accepted(pkt[9], Address(pkt, 12), ihl, (total - ihl) % 0x10000))
  }

  /** Network order: the first byte is the highest. */
  lemma NetworkOrder(a: nat)
    requires a < U32
    ensures var b := AddressBytes(a);
            |b| == 4 && a == b[0] as int * 0x1000000 + b[1] as int * 0x10000 + b[2] as int * 0x100 + b[3] as int
  {
    var h, l := a / 0x10000, a % 0x10000;
    assert a == h * 0x10000 + l;
    assert a / 0x1000000 == h / 0x100 && a / 0x100 % 0x100 == l / 0x100 && a % 0x100 == l % 0x100;
  }

  lemma FourBytes(w: byte, x: byte, y: byte, z: byte)
    ensures var a := w as int * 0x1000000 + x as int * 0x10000 + y as int * 0x100 + z as int;
            a < U32 && AddressBytes(a) == [w, x, y, z]
  {
    var a := w as int * 0x1000000 + x as int * 0x10000 + y as int * 0x100 + z as int;
    assert a / 0x10000 == w as int * 0x100 + x as int;
    assert a / 0x100 == w as int * 0x10000 + x as int * 0x100 + y as int;
  }

  /**
   What is accepted is a packet of version 4 with a header of at least 20 bytes, which folds to all ones,
   for this host; its total length is at least 20 and not more than what was received. Nothing else is.
   */
  lemma AcceptedIff(pkt: seq<byte>, len: nat, netIp: nat)
    requires len <= |pkt| && |pkt| >= 60
    ensures Input(pkt, len, netIp).Some? <==>
              && 0x45 <= pkt[0] <= 0x4F
              && HEADER <= Word(pkt, 2) <= len
              && Fold(WordSum(pkt[..4 * (pkt[0] as int - 0x40)]) % U32) == ONES
              && pkt[16..20] == AddressBytes(netIp % U32) && netIp < U32
    ensures Input(pkt, len, netIp).Some? ==>
              var r := Input(pkt, len, netIp).value;
              r.proto == pkt[9] && r.src < U32 && pkt[12..16] == AddressBytes(r.src) && r.at == 4 * (pkt[0] as int - 0x40)
  {
    hide Fold, WordSum, Address, AddressBytes;
    FirstByte(pkt[0]);
    AddressIs(pkt, 16, 0);
    AddressIs(pkt, 12, 0);
    AddressIs(pkt, 12, Address(pkt, 12));
    if netIp < U32 { AddressIs(pkt, 16, netIp); }
  }

  /** Version and header length share the first byte. */
  lemma FirstByte(b: byte)
    ensures b as int / 16 == 4 && (b as int % 16) * 4 >= HEADER <==> 0x45 <= b <= 0x4F
    ensures b as int / 16 == 4 ==> (b as int % 16) * 4 == 4 * (b as int - 0x40)
  {
  }

  lemma AddressIs(b: seq<byte>, k: nat, a: nat)
    requires k + 3 < |b| && a < U32
    ensures Address(b, k) < U32
    ensures Address(b, k) == a <==> b[k..k + 4] == AddressBytes(a)
  {
    FourBytes(b[k], b[k + 1], b[k + 2], b[k + 3]);
    hide AddressBytes;
    assert b[k..k + 4] == [b[k], b[k + 1], b[k + 2], b[k + 3]];
    NetworkOrder(a);
  }

  /**
   ip_input() never compares the total length with the header length. The payload it hands on lies
   within the packet if and only if the header does; otherwise its length has wrapped around.
   */
  lemma PayloadInsideIff(pkt: seq<byte>, len: nat, netIp: nat)
    requires len <= |pkt| && |pkt| >= 60 && Input(pkt, len, netIp).Some?
    ensures var r := Input(pkt, len, netIp).value;
            && (r.at + r.len <= Word(pkt, 2) <==> (pkt[0] as int % 16) * 4 <= Word(pkt, 2))
            && (r.at > Word(pkt, 2) ==> r.len == 0x10000 + Word(pkt, 2) - r.at)
  {
    hide HeaderSum;
  }

  /** A header of 24 bytes in a packet of 20, with a checksum that verifies. */
  function ShortBlank(netIp: nat): (h: seq<byte>)
    requires netIp < U32
    ensures |h| == 24
  {
    [0x46, 0, 0, 20, 0, 0, 0, 0, 64, IP_PROTO_ICMP, 0, 0, 0, 0, 0, 0] + AddressBytes(netIp) + [0, 0, 0, 0]
  }

  lemma ShortTotalIsAccepted(netIp: nat) returns (pkt: seq<byte>)
    requires netIp < U32
    ensures |pkt| == 60 && Word(pkt, 2) == 20
    ensures Input(pkt, 20, netIp) == Some(Accepted(IP_PROTO_ICMP, 0, 24, 65532))
  {
    var blank := ShortBlank(netIp);
    StoredChecksumVerifies(blank, 10);
    hide Fold, WordSum;
    var h := Stored(blank, 10, ONES - Fold(WordSum(blank) % U32));
    pkt := h + seq(36, _ => 0);
    assert pkt[..24] == h;
    assert pkt[16..20] == AddressBytes(netIp);
    AddressIs(pkt, 16, netIp);
    hide AddressBytes;
  }

  lemma HeaderVerifies(src: nat, dst: nat, proto: byte, plen: nat)
    requires src < U32 && dst < U32 && plen <= MAX_PAYLOAD
    ensures var h := Header(src, dst, proto, plen);
            && |h| == HEADER && h[0] == 0x45 && Word(h, 2) == HEADER + plen && h[8] == 64 && h[9] == proto
            && h[1] == 0 && (forall k :: 4 <= k < 8 ==> h[k] == 0)
            && h[12..16] == AddressBytes(src) && h[16..20] == AddressBytes(dst)
            && Fold(WordSum(h) % U32) == ONES
  {
    var blank := BlankHeader(src, dst, proto, plen);
    StoredChecksumVerifies(blank, 10);
    hide Fold, WordSum;
  }

  lemma SentFields(pkt: seq<byte>, src: nat, dst: nat, proto: byte, plen: nat)
    requires src < U32 && dst < U32 && plen <= MAX_PAYLOAD && |pkt| >= 60 && pkt[..HEADER] == Header(src, dst, proto, plen)
    ensures pkt[0] == 0x45 && Word(pkt, 2) == HEADER + plen && pkt[9] == proto
    ensures Address(pkt, 12) == src && Address(pkt, 16) == dst && HeaderSum(pkt) == ONES
  {
    hide Fold, WordSum, Header, Address, AddressBytes;
    var h := Header(src, dst, proto, plen);
    HeaderVerifies(src, dst, proto, plen);
    assert h[0] == pkt[0] && h[2] == pkt[2] && h[3] == pkt[3] && h[9] == pkt[9];
    assert pkt[12..16] == h[12..16] && pkt[16..20] == h[16..20];
    AddressIs(pkt, 12, src);
    AddressIs(pkt, 16, dst);
  }

  /**
   Every packet that ip_send() builds is accepted by the host it is addressed to, and by no other; and
   what that host sees is the protocol, the sender and the payload that were sent.
   */
  lemma SentIsAccepted(pkt: seq<byte>, src: nat, dst: nat, proto: byte, payload: seq<byte>, netIp: nat)
    requires src < U32 && dst < U32 && |payload| <= MAX_PAYLOAD && |pkt| >= 60 && |pkt| >= HEADER + |payload|
    requires pkt[..HEADER] == Header(src, dst, proto, |payload|) && pkt[HEADER..HEADER + |payload|] == payload
    ensures var r := Input(pkt, HEADER + |payload|, netIp);
            if netIp == dst then
              r == Some(Accepted(proto, src, HEADER, |payload|)) && pkt[r.value.at..r.value.at + r.value.len] == payload
            else r == None
  {
    SentFields(pkt, src, dst, proto, |payload|);
    hide Fold, WordSum, Header, Address, HeaderSum;
  }

  /** A packet that ip_send() built, with any one byte of its header behind the first damaged, is not accepted. */
  lemma DamagedIsRejected(pkt: seq<byte>, src: nat, dst: nat, proto: byte, plen: nat, len: nat, netIp: nat, k: nat, b: byte)
    requires src < U32 && dst < U32 && plen <= MAX_PAYLOAD && 60 <= |pkt| && len <= |pkt|
    requires pkt[..HEADER] == Header(src, dst, proto, plen) && 1 <= k < HEADER && b != pkt[k]
    ensures Input(pkt[k := b], len, netIp).None?
  {
    HeaderVerifies(src, dst, proto, plen);
    var h := Header(src, dst, proto, plen);
    hide Header, WordSum, Fold, Address, AddressBytes;
    assert h[k] == pkt[k] && h[0] == pkt[0] == 0x45;
    OneBadByteShows(h, k, b);
    assert pkt[k := b][..HEADER] == h[k := b];
  }

  /** The four bytes of an address, in network order. */
  method PutAddress(pkt: array<byte>, k: nat, a: nat)
    requires a < U32 && k + 4 <= pkt.Length
    modifies pkt
    ensures pkt[..] == old(pkt[..k]) + AddressBytes(a) + old(pkt[k + 4..])
  {
    pkt[k], pkt[k + 1], pkt[k + 2], pkt[k + 3] := a / 0x1000000, a / 0x10000 % 0x100, a / 0x100 % 0x100, a % 0x100;
  }

  method FillHeader(pkt: array<byte>, src: nat, dst: nat, proto: byte, plen: nat)
    requires src < U32 && dst < U32 && plen <= MAX_PAYLOAD && pkt.Length >= HEADER
    modifies pkt
    ensures pkt[..HEADER] == BlankHeader(src, dst, proto, plen)
  {
    var total := HEADER + plen;
    pkt[0], pkt[1] := 0x45, 0;
    pkt[2], pkt[3] := total / 256, total % 256;
    pkt[4], pkt[5], pkt[6], pkt[7] := 0, 0, 0, 0;
    pkt[8], pkt[9] := 64, proto;
    pkt[10], pkt[11] := 0, 0;
    ghost var front := pkt[..12];
    PutAddress(pkt, 12, src);
    assert pkt[..16] == front + AddressBytes(src);
    PutAddress(pkt, 16, dst);
    assert pkt[..HEADER] == front + AddressBytes(src) + AddressBytes(dst);
  }

  /** The part of ip_send() that builds the packet in its static buffer; None is the answer -1. */
  method Send(pkt: array<byte>, src: nat, dst: nat, proto: byte, payload: seq<byte>, resolved: bool) returns (r: Option<nat>)
    requires src < U32 && dst < U32 && pkt.Length == 1500
    modifies pkt
    ensures r.Some? <==> |payload| <= MAX_PAYLOAD && resolved
    ensures r.Some? ==>
              && r.value == HEADER + |payload| && pkt[..HEADER] == Header(src, dst, proto, |payload|)
              && pkt[HEADER..HEADER + |payload|] == payload
  {
    if |payload| > MAX_PAYLOAD { return None; }
    if !resolved { return None; }
    hide Fold, WordSum;
    FillHeader(pkt, src, dst, proto, |payload|);
    ghost var blank := pkt[..HEADER];
    for k := 0 to |payload|
      invariant pkt[..HEADER] == blank && pkt[HEADER..HEADER + k] == payload[..k]
    {
      pkt[HEADER + k] := payload[k];
    }
    var csum := Final(pkt[..HEADER]);
    pkt[10], pkt[11] := csum / 256, csum % 256;
    assert pkt[..HEADER] == Stored(blank, 10, csum);
    r := Some(HEADER + |payload|);
  }

  // ---------------------------------------------------------------- echo

  /** icmp_input(): the reply to an echo request, if the message is one. */
  method EchoReply(msg: seq<byte>) returns (r: Option<seq<byte>>)
    ensures r.Some? <==> |msg| >= 8 && msg[0] == 8 && msg[1] == 0
    ensures r.Some? ==>
              && |r.value| == (if |msg| > MAX_PAYLOAD then MAX_PAYLOAD else |msg|)
              && r.value[0] == 0 && r.value[1] == 0 && r.value[4..] == msg[4..|r.value|]
              && Fold(WordSum(r.value) % U32) == ONES
  {
    if |msg| < 8 { return None; }
    if msg[0] != 8 || msg[1] != 0 { return None; }
    hide Fold, WordSum;
    var n := if |msg| > MAX_PAYLOAD then MAX_PAYLOAD else |msg|;
    var reply := msg[..n];
    reply := reply[0 := 0];
    reply := reply[2 := 0][3 := 0];
    StoredChecksumVerifies(reply, 2);
    var csum := Final(reply);
    r := Some(Stored(reply, 2, csum));
  }
}
