/**
 The registration packet on the wire: the packed layout of libs/protocol/protocol.h:168-215 filled by
 libs/protocol/protocol.cpp:21-39 and libs/protocol/discovery.cpp:212-244.
 */
module Registration {
  import opened Ticks
  import opened ByteOrder

  const SIGNATURE: bv32 := 0x0EF4192A
  const VERSION: byte := 100
  const HEADER_SIZE: nat := 20
  const INTERFACE_SIZE: nat := 24
  const REGISTRATION_SIZE: nat := 68 // with one interface
  const FIXED_SIZE: nat := 44        // without interfaces
  const MAX_PACKET_SIZE: nat := 1400

  type AddressBytes = s: seq<byte> | |s| == 16 witness seq(16, _ => 0)

  datatype Interface = Interface(kind: byte, capBits: bv32, address: AddressBytes)

  /** The values a registration packet carries besides its signature and its length. */
  datatype Packet = Packet(
    sequence: u16, packetType: byte, retry: byte,
    version: byte, packetId: byte,
    nodeType: byte, nodeId: bv16,
    appVersion: bv16, appType: byte,
    publicIp: Four, featureBits: bv32, storageSize: bv64,
    interfaces: seq<Interface>)

  /** A packet that fits the buffer: 56 interfaces are the most. */
  predicate Valid(p: Packet) { 1 <= |p.interfaces| <= 56 }

  /** Narrowing to eight and to sixteen bits: counting up from zero with wrap-around. */
  function ToU8(x: nat): byte { if x == 0 then 0 else ToU8(x - 1) + 1 }

  function ToU16(x: nat): bv16 { if x == 0 then 0 else ToU16(x - 1) + 1 }

  function FromU16(v: bv16): u16 {
    var b := Network16(v);
    (b.0 as int) * 256 + (b.1 as int)
  }

  lemma ByteSucc(b: byte)
    ensures (b + 1) as int == if b == 255 then 0 else b as int + 1
  {}

  lemma BytesOfSucc(v: bv16)
    ensures var (h, l) := Network16(v); Network16(v + 1) == (if l == 255 then h + 1 else h, l + 1)
  {}

  lemma FromU16Succ(v: bv16)
    ensures FromU16(v + 1) == (FromU16(v) + 1) % U16
  {
    hide Network16;
    BytesOfSucc(v);
    CarrySucc(Network16(v).0, Network16(v).1);
  }

  lemma CarrySucc(h: byte, l: byte)
    ensures ((if l == 255 then h + 1 else h) as int) * 256 + ((l + 1) as int)
            == ((h as int) * 256 + (l as int) + 1) % U16
  {
    ByteSucc(h);
    ByteSucc(l);
    Carry(h as int, l as int);
  }

  lemma Carry(h: int, l: int)
    requires 0 <= h < 256 && 0 <= l < 256
    ensures (h * 256 + l + 1) % U16
            == (if l == 255 then (if h == 255 then 0 else h + 1) else h) * 256 + (if l == 255 then 0 else l + 1)
  {}

  /** Narrowing keeps the value modulo the width. */
  lemma {:induction false} FromToU8(x: nat)
    ensures ToU8(x) as int == x % 256
  {
    if x > 0 {
      FromToU8(x - 1);
      ByteSucc(ToU8(x - 1));
      ByteWraps(x - 1);
    }
  }

  lemma ByteWraps(n: nat)
    ensures (n + 1) % 256 == if n % 256 == 255 then 0 else n % 256 + 1
  {}

  lemma {:induction false} FromToU16(x: nat)
    ensures FromU16(ToU16(x)) == x % U16
  {
    if x > 0 {
      FromToU16(x - 1);
      FromU16Succ(ToU16(x - 1));
      WrapSucc(x - 1, U16);
    }
  }

  /** The packet length, computed from the number of interfaces already narrowed to eight bits. */
  function PacketLength(total: byte): u16 { (REGISTRATION_SIZE + (total as int - 1) * INTERFACE_SIZE) % U16 }

  /** One past the last byte of n interfaces. */
  function End(n: nat): nat { FIXED_SIZE + n * INTERFACE_SIZE }

  /**
   What becomes of n interfaces: the packet buffer takes 56. The length announced is that of n % 256
   interfaces, at most 6164, so it is never cut to sixteen bits; it is one past the last interface's last
   byte exactly up to 255 interfaces, as long as their number survives its narrowing.
   */
  lemma PacketFitsIff(n: nat)
    ensures End(n) <= MAX_PACKET_SIZE <==> n <= 56
    ensures PacketLength(ToU8(n)) == End(n % 256) <= 6164
    ensures FromU16(ToU16(PacketLength(ToU8(n)))) == PacketLength(ToU8(n))
    ensures PacketLength(ToU8(n)) == End(n) <==> n <= 255
    ensures ToU8(n) as int == n <==> n <= 255
  {
    hide ToU8, ToU16, FromU16;
    FromToU8(n);
    FromToU16(PacketLength(ToU8(n)));
  }

  /** The signature narrowed to 16 bits, swapped, and stored as a 32-bit integer. */
  function SignatureBytes(m: Machine): Four {
    Memory32(m, CheckAndSwap16(m, (SIGNATURE & 0xffff) as bv16) as bv32)
  }

  /** The packed header, given the bytes of its fields; the reserved fields are zero. */
  function Header(signature: Four, s: Two, packetType: byte, retry: byte, l: Two, version: byte, packetId: byte,
                  nodeType: byte, n: Two): (h: seq<byte>)
    ensures |h| == HEADER_SIZE
  {
    [signature.0, signature.1, signature.2, signature.3,
     s.0, s.1, packetType, retry,
     l.0, l.1, version, packetId,
     nodeType, n.0, n.1, 0,
     0, 0, 0, 0]
  }

  /** The packed registration after its header, up to the interfaces; the reserved fields are zero. */
  function Body(v: Two, appType: byte, i: Four, f: Four, t: Eight, total: byte): (b: seq<byte>)
    ensures |b| == FIXED_SIZE - HEADER_SIZE
  {
    [v.0, v.1, appType, 0,
     i.0, i.1, i.2, i.3,
     f.0, f.1, f.2, f.3,
     t.0, t.1, t.2, t.3, t.4, t.5, t.6, t.7,
     total, 0, 0, 0]
  }

  function InterfaceBytes(i: Interface): (b: seq<byte>)
    ensures |b| == INTERFACE_SIZE
  {
    var c := Network32(i.capBits);
    [i.kind, 0, 0, 0, c.0, c.1, c.2, c.3] + i.address
  }

  function AllInterfaceBytes(l: seq<Interface>): (b: seq<byte>)
    ensures |b| == INTERFACE_SIZE * |l|
  {
    if l == [] then [] else AllInterfaceBytes(l[..|l| - 1]) + InterfaceBytes(l[|l| - 1])
  }

  function PacketHeader(m: Machine, p: Packet): (h: seq<byte>)
    requires Valid(p)
    ensures |h| == HEADER_SIZE
  {
    Header(SignatureBytes(m), Network16(ToU16(p.sequence)), p.packetType, p.retry,
           Network16(ToU16(PacketLength(ToU8(|p.interfaces|)))), p.version, p.packetId, p.nodeType, Network16(p.nodeId))
  }

  function PacketBody(p: Packet): (b: seq<byte>)
    requires Valid(p)
    ensures |b| == FIXED_SIZE - HEADER_SIZE
  {
    Body(Network16(p.appVersion), p.appType, p.publicIp, Network32(p.featureBits), Network64(p.storageSize),
         ToU8(|p.interfaces|))
  }

  /** The packet that machine m puts on the wire. */
  function Wire(m: Machine, p: Packet): (b: seq<byte>)
    requires Valid(p)
    ensures |b| == End(|p.interfaces|)
  {
    PacketHeader(m, p) + PacketBody(p) + AllInterfaceBytes(p.interfaces)
  }

  // ---------------------------------------------------------------- Reading back

  /** The receiver's view of the same packed structure: each field loaded by machine m and swapped. */
  function ReadInterface(m: Machine, b: seq<byte>): Interface
    requires |b| == INTERFACE_SIZE
  {
    Interface(b[0], CheckAndSwap32(m, Load32(m, (b[4], b[5], b[6], b[7]))), b[8..])
  }

  function ReadInterfaces(m: Machine, b: seq<byte>, n: nat): seq<Interface>
    requires |b| >= INTERFACE_SIZE * n
  {
    if n == 0 then [] else
      ReadInterfaces(m, b, n - 1) + [ReadInterface(m, b[INTERFACE_SIZE * (n - 1)..INTERFACE_SIZE * n])]
  }

  function Read16(m: Machine, b: seq<byte>, k: nat): bv16
    requires k + 2 <= |b|
  {
    CheckAndSwap16(m, Load16(m, (b[k], b[k + 1])))
  }

  function Read32(m: Machine, b: seq<byte>, k: nat): bv32
    requires k + 4 <= |b|
  {
    CheckAndSwap32(m, Load32(m, (b[k], b[k + 1], b[k + 2], b[k + 3])))
  }

  function Read64(m: Machine, b: seq<byte>, k: nat): bv64
    requires k + 8 <= |b|
  {
    CheckAndSwap64(m, Load64(m, (b[k], b[k + 1], b[k + 2], b[k + 3], b[k + 4], b[k + 5], b[k + 6], b[k + 7])))
  }

  function Read(m: Machine, b: seq<byte>): Packet
    requires |b| >= FIXED_SIZE && |b| >= FIXED_SIZE + INTERFACE_SIZE * b[40] as int
  {
    Packet(FromU16(Read16(m, b, 4)), b[6], b[7], b[10], b[11], b[12], Read16(m, b, 13),
           Read16(m, b, 20), b[22], (b[24], b[25], b[26], b[27]), Read32(m, b, 28), Read64(m, b, 32),
           ReadInterfaces(m, b[FIXED_SIZE..], b[40] as int))
  }

  /** The length field, as the sender itself swaps it back before sending (libs/protocol/discovery.cpp:258). */
  function ReadLength(m: Machine, b: seq<byte>): u16
    requires |b| >= HEADER_SIZE
  {
    FromU16(Read16(m, b, 8))
  }

  /** The signature, undoing PrepareHeader's store, swap and narrowing on machine m. */
  function ReadSignature(m: Machine, b: seq<byte>): bv16
    requires |b| >= 4
  {
    CheckAndSwap16(m, (Load32(m, (b[0], b[1], b[2], b[3])) & 0xffff) as bv16)
  }

  lemma {:induction false} InterfaceAt(l: seq<Interface>, k: nat)
    requires k < |l|
    ensures AllInterfaceBytes(l)[INTERFACE_SIZE * k..INTERFACE_SIZE * (k + 1)] == InterfaceBytes(l[k])
  {
    var front := l[..|l| - 1];
    if k < |l| - 1 {
      InterfaceAt(front, k);
      assert AllInterfaceBytes(l)[24 * k..24 * k + 24] == AllInterfaceBytes(front)[24 * k..24 * k + 24];
    }
  }

  lemma ReadInterfaceBack(m: Machine, i: Interface)
    ensures ReadInterface(m, InterfaceBytes(i)) == i
  {
    ReadBack32(m, i.capBits);
  }

  lemma {:induction false} ReadInterfacesBack(m: Machine, l: seq<Interface>, n: nat)
    requires n <= |l|
    ensures ReadInterfaces(m, AllInterfaceBytes(l), n) == l[..n]
  {
    hide InterfaceBytes, AllInterfaceBytes, ReadInterface;
    if n > 0 {
      ReadInterfacesBack(m, l, n - 1);
      InterfaceAt(l, n - 1);
      ReadInterfaceBack(m, l[n - 1]);
    }
  }

  lemma Read16Back(m: Machine, b: seq<byte>, k: nat, v: bv16)
    requires k + 2 <= |b| && (b[k], b[k + 1]) == Network16(v)
    ensures Read16(m, b, k) == v
  {
    ReadBack16(m, v);
  }

  lemma Read32Back(m: Machine, b: seq<byte>, k: nat, v: bv32)
    requires k + 4 <= |b| && (b[k], b[k + 1], b[k + 2], b[k + 3]) == Network32(v)
    ensures Read32(m, b, k) == v
  {
    ReadBack32(m, v);
  }

  lemma Read64Back(m: Machine, b: seq<byte>, k: nat, v: bv64)
    requires k + 8 <= |b|
    requires (b[k], b[k + 1], b[k + 2], b[k + 3], b[k + 4], b[k + 5], b[k + 6], b[k + 7]) == Network64(v)
    ensures Read64(m, b, k) == v
  {
    ReadBack64(m, v);
  }

  /** The bytes of the packet outside the interfaces, as they lie on the wire. */
  predicate FixedLayout(b: seq<byte>, s: Two, l: Two, n: Two, v: Two, f: Four, t: Eight) {
    && |b| >= FIXED_SIZE
    && (b[4], b[5]) == s && (b[8], b[9]) == l && (b[13], b[14]) == n && (b[20], b[21]) == v
    && (b[28], b[29], b[30], b[31]) == f
    && (b[32], b[33], b[34], b[35], b[36], b[37], b[38], b[39]) == t
  }

  lemma ReadFixedBack(m: Machine, b: seq<byte>, s: bv16, l: bv16, n: bv16, v: bv16, f: bv32, t: bv64)
    requires FixedLayout(b, Network16(s), Network16(l), Network16(n), Network16(v), Network32(f), Network64(t))
    ensures Read16(m, b, 4) == s && Read16(m, b, 8) == l && Read16(m, b, 13) == n && Read16(m, b, 20) == v
    ensures Read32(m, b, 28) == f && Read64(m, b, 32) == t
  {
    Read16Back(m, b, 4, s);
    Read16Back(m, b, 8, l);
    Read16Back(m, b, 13, n);
    Read16Back(m, b, 20, v);
    Read32Back(m, b, 28, f);
    Read64Back(m, b, 32, t);
  }

  lemma PartsAt(b: seq<byte>, h: seq<byte>, d: seq<byte>, rest: seq<byte>)
    requires b == h + d + rest && |h| == HEADER_SIZE && |d| == FIXED_SIZE - HEADER_SIZE
    ensures forall k :: 0 <= k < 20 ==> b[k] == h[k]
    ensures forall k :: 20 <= k < 44 ==> b[k] == d[k - 20]
    ensures b[FIXED_SIZE..] == rest
  {}

  lemma LayoutOfHeader(b: seq<byte>, h: seq<byte>, sig: Four, s: Two, packetType: byte, retry: byte, l: Two,
                       version: byte, packetId: byte, nodeType: byte, n: Two)
    requires |b| >= 20 && h == Header(sig, s, packetType, retry, l, version, packetId, nodeType, n)
    requires forall k :: 0 <= k < 20 ==> b[k] == h[k]
    ensures (b[0], b[1], b[2], b[3]) == sig && (b[4], b[5]) == s && b[6] == packetType && b[7] == retry
    ensures (b[8], b[9]) == l && b[10] == version && b[11] == packetId && b[12] == nodeType && (b[13], b[14]) == n
  {
    assert b[0] == sig.0 && b[1] == sig.1 && b[2] == sig.2 && b[3] == sig.3;
    assert b[4] == s.0 && b[5] == s.1 && b[8] == l.0 && b[9] == l.1 && b[13] == n.0 && b[14] == n.1;
  }

  lemma LayoutOfBody(b: seq<byte>, d: seq<byte>, v: Two, appType: byte, i: Four, f: Four, t: Eight, total: byte)
    requires |b| >= 44 && d == Body(v, appType, i, f, t, total)
    requires forall k :: 20 <= k < 44 ==> b[k] == d[k - 20]
    ensures (b[20], b[21]) == v && b[22] == appType && (b[24], b[25], b[26], b[27]) == i
    ensures (b[28], b[29], b[30], b[31]) == f && (b[32], b[33], b[34], b[35], b[36], b[37], b[38], b[39]) == t
    ensures b[40] == total
  {
    assert b[20] == v.0 && b[21] == v.1 && b[22] == appType;
    assert b[24] == i.0 && b[25] == i.1 && b[26] == i.2 && b[27] == i.3;
    assert b[28] == f.0 && b[29] == f.1 && b[30] == f.2 && b[31] == f.3 && b[40] == total;
    assert b[32] == t.0 && b[33] == t.1 && b[34] == t.2 && b[35] == t.3;
    assert b[36] == t.4 && b[37] == t.5 && b[38] == t.6 && b[39] == t.7;
  }

  lemma ReadParts(m: Machine, b: seq<byte>, sig: Four, s: bv16, l: bv16, p: Packet, total: byte)
    requires Valid(p)
    requires b == Header(sig, Network16(s), p.packetType, p.retry, Network16(l), p.version, p.packetId, p.nodeType,
                         Network16(p.nodeId))
                  + Body(Network16(p.appVersion), p.appType, p.publicIp, Network32(p.featureBits),
                         Network64(p.storageSize), total)
                  + AllInterfaceBytes(p.interfaces)
    requires total as int == |p.interfaces|
    ensures |b| >= FIXED_SIZE && |b| == FIXED_SIZE + INTERFACE_SIZE * b[40] as int
    ensures (b[0], b[1], b[2], b[3]) == sig && Read16(m, b, 8) == l
    ensures Read(m, b) == p.(sequence := FromU16(s))
  {
    hide Network16, Network32, Network64, Header, Body, AllInterfaceBytes, Read16, Read32, Read64, ReadInterfaces;
    var rest := AllInterfaceBytes(p.interfaces);
    var n, v, f, t := Network16(p.nodeId), Network16(p.appVersion), Network32(p.featureBits), Network64(p.storageSize);
    var h := Header(sig, Network16(s), p.packetType, p.retry, Network16(l), p.version, p.packetId, p.nodeType, n);
    var d := Body(v, p.appType, p.publicIp, f, t, total);
    PartsAt(b, h, d, rest);
    LayoutOfHeader(b, h, sig, Network16(s), p.packetType, p.retry, Network16(l), p.version, p.packetId, p.nodeType, n);
    LayoutOfBody(b, d, v, p.appType, p.publicIp, f, t, total);
    ReadFixedBack(m, b, s, l, p.nodeId, p.appVersion, p.featureBits, p.storageSize);
    ReadInterfacesBack(m, p.interfaces, |p.interfaces|);
    assert p.interfaces[..|p.interfaces|] == p.interfaces;
  }

  /**
   Wire round trip: whatever machine prepared the packet, a machine of either kind reads back every
   field, every interface and the length.
   */
  lemma WireRoundTrip(sender: Machine, receiver: Machine, p: Packet)
    requires Valid(p)
    ensures var b := Wire(sender, p);
            && |b| == FIXED_SIZE + INTERFACE_SIZE * b[40] as int
            && Read(receiver, b) == p
            && ReadLength(receiver, b) == |b|
  {
    hide Network16, Network32, Network64, Header, Body, SignatureBytes, AllInterfaceBytes, ToU8, ToU16, FromU16, Read,
         Read16, PacketLength, Wire;
    var n := |p.interfaces|;
    WireParts(sender, p);
    FromToU8(n);
    var length := ToU16(PacketLength(ToU8(n)));
    ReadParts(receiver, Wire(sender, p), SignatureBytes(sender), ToU16(p.sequence), length, p, ToU8(n));
    FromToU16(p.sequence);
    PacketFitsIff(n);
  }

  lemma WireParts(m: Machine, p: Packet)
    requires Valid(p)
    ensures Wire(m, p)
            == Header(SignatureBytes(m), Network16(ToU16(p.sequence)), p.packetType, p.retry,
                      Network16(ToU16(PacketLength(ToU8(|p.interfaces|)))), p.version, p.packetId, p.nodeType,
                      Network16(p.nodeId))
               + Body(Network16(p.appVersion), p.appType, p.publicIp, Network32(p.featureBits),
                      Network64(p.storageSize), ToU8(|p.interfaces|))
               + AllInterfaceBytes(p.interfaces)
  {}

  /** Where the fields of the header lie on the wire. */
  predicate HeaderLayout(b: seq<byte>, p: Packet) {
    && |b| >= 44
    && (b[4] as int) * 256 + b[5] as int == p.sequence && b[6] == p.packetType && b[7] == p.retry
    && (b[8] as int) * 256 + b[9] as int == |b| && b[10] == p.version && b[11] == p.packetId
    && b[12] == p.nodeType && ((b[13] as bv16) << 8) | (b[14] as bv16) == p.nodeId
    && b[15] == 0 && b[16] == 0 && b[17] == 0 && b[18] == 0 && b[19] == 0
  }

  /** Where the fields between the header and the interfaces lie. */
  predicate BodyLayout(b: seq<byte>, p: Packet) {
    && |b| >= 44
    && ((b[20] as bv16) << 8) | (b[21] as bv16) == p.appVersion && b[22] == p.appType && b[23] == 0
    && (b[24], b[25], b[26], b[27]) == p.publicIp && Join32((b[28], b[29], b[30], b[31])) == p.featureBits
    && Join64((b[32], b[33], b[34], b[35], b[36], b[37], b[38], b[39])) == p.storageSize
    && b[40] as int == |p.interfaces| && b[41] == 0 && b[42] == 0 && b[43] == 0
  }

  lemma WireHeader(m: Machine, p: Packet)
    requires Valid(p)
    ensures HeaderLayout(Wire(m, p), p)
  {
    hide Network16, Network32, Network64, Header, Body, SignatureBytes, AllInterfaceBytes, ToU8, ToU16, Wire;
    hide PacketLength, Join16;
    var b, g, s, l := Wire(m, p), SignatureBytes(m), ToU16(p.sequence), ToU16(PacketLength(ToU8(|p.interfaces|)));
    var n := Network16(p.nodeId);
    var h := Header(g, Network16(s), p.packetType, p.retry, Network16(l), p.version, p.packetId, p.nodeType, n);
    WireParts(m, p);
    PartsAt(b, h, PacketBody(p), AllInterfaceBytes(p.interfaces));
    LayoutOfHeader(b, h, g, Network16(s), p.packetType, p.retry, Network16(l), p.version, p.packetId, p.nodeType, n);
    ReservedHeader(b, h, g, Network16(s), p.packetType, p.retry, Network16(l), p.version, p.packetId, p.nodeType, n);
    FromToU16(p.sequence);
    PacketFitsIff(|p.interfaces|);
    JoinedShifts((b[13], b[14]));
    JoinNetwork16(p.nodeId);
  }

  lemma WireBody(m: Machine, p: Packet)
    requires Valid(p)
    ensures BodyLayout(Wire(m, p), p)
  {
    hide Network16, Network32, Network64, Body, PacketHeader, AllInterfaceBytes, ToU8, Join16, Join32, Join64;
    var b, total := Wire(m, p), ToU8(|p.interfaces|);
    var v, f, t := Network16(p.appVersion), Network32(p.featureBits), Network64(p.storageSize);
    var d := Body(v, p.appType, p.publicIp, f, t, total);
    PartsAt(b, PacketHeader(m, p), d, AllInterfaceBytes(p.interfaces));
    LayoutOfBody(b, d, v, p.appType, p.publicIp, f, t, total);
    ReservedBody(b, d, v, p.appType, p.publicIp, f, t, total);
    PacketFitsIff(|p.interfaces|);
    JoinedShifts((b[20], b[21]));
    JoinNetwork16(p.appVersion);
    JoinNetwork32(p.featureBits);
    JoinNetwork64(p.storageSize);
  }

  lemma JoinedShifts(b: Two)
    ensures ((b.0 as bv16) << 8) | (b.1 as bv16) == Join16(b)
  {}

  lemma ReservedHeader(b: seq<byte>, h: seq<byte>, g: Four, s: Two, packetType: byte, retry: byte, l: Two,
                       version: byte, packetId: byte, nodeType: byte, n: Two)
    requires |b| >= 20 && h == Header(g, s, packetType, retry, l, version, packetId, nodeType, n)
    requires forall k :: 0 <= k < 20 ==> b[k] == h[k]
    ensures b[15] == 0 && b[16] == 0 && b[17] == 0 && b[18] == 0 && b[19] == 0
  {}

  lemma ReservedBody(b: seq<byte>, d: seq<byte>, v: Two, appType: byte, i: Four, f: Four, t: Eight, total: byte)
    requires |b| >= 44 && d == Body(v, appType, i, f, t, total)
    requires forall k :: 20 <= k < 44 ==> b[k] == d[k - 20]
    ensures b[23] == 0 && b[41] == 0 && b[42] == 0 && b[43] == 0
  {}

  /** Where the fields of an interface lie. */
  predicate InterfaceLayout(b: seq<byte>, at: nat, i: Interface) {
    && at + 24 <= |b|
    && b[at] == i.kind && b[at + 1] == 0 && b[at + 2] == 0 && b[at + 3] == 0
    && Join32((b[at + 4], b[at + 5], b[at + 6], b[at + 7])) == i.capBits
    && forall j :: 0 <= j < 16 ==> b[at + 8 + j] == i.address[j]
  }

  lemma WireInterface(m: Machine, p: Packet, k: nat)
    requires Valid(p) && k < |p.interfaces|
    ensures InterfaceLayout(Wire(m, p), 44 + 24 * k, p.interfaces[k])
  {
    hide PacketHeader, PacketBody, AllInterfaceBytes, InterfaceBytes, Join32;
    var i, b, at := p.interfaces[k], Wire(m, p), 44 + 24 * k;
    var all := AllInterfaceBytes(p.interfaces);
    InterfaceAt(p.interfaces, k);
    assert forall j :: 0 <= j < |all| ==> b[44 + j] == all[j];
    assert b[at..at + 24] == all[24 * k..24 * k + 24];
    InterfaceFieldsAt(b, at, i);
  }

  lemma InterfaceFieldsAt(b: seq<byte>, at: nat, i: Interface)
    requires at + 24 <= |b| && b[at..at + 24] == InterfaceBytes(i)
    ensures InterfaceLayout(b, at, i)
  {
    hide Network32, Join32;
    var s := b[at..at + 24];
    assert s[8..] == i.address;
    forall j | 0 <= j < 16 ensures b[at + 8 + j] == i.address[j] { assert b[at + (8 + j)] == s[8 + j] == s[8..][j]; }
    assert b[at] == s[0] && b[at + 1] == s[1] && b[at + 2] == s[2] && b[at + 3] == s[3];
    assert b[at + 4] == s[4] && b[at + 5] == s[5] && b[at + 6] == s[6] && b[at + 7] == s[7];
    JoinNetwork32(i.capBits);
  }

  /** Machine independence: outside the four signature bytes the two machine kinds prepare the same packet. */
  lemma WireMachineIndependent(p: Packet)
    requires Valid(p)
    ensures Wire(LittleEndian, p)[4..] == Wire(BigEndian, p)[4..]
  {
    var s, n := Network16(ToU16(p.sequence)), Network16(p.nodeId);
    var l := Network16(ToU16(PacketLength(ToU8(|p.interfaces|))));
    SameAfterSignature(SignatureBytes(LittleEndian), SignatureBytes(BigEndian), s, p.packetType, p.retry, l, p.version,
                       p.packetId, p.nodeType, n, PacketBody(p), AllInterfaceBytes(p.interfaces));
  }

  /** The narrowed signature is the exception: it is recognised exactly by machines of the sender's kind. */
  lemma SignatureNamesMachine(p: Packet, sender: Machine, receiver: Machine)
    requires Valid(p)
    ensures Wire(sender, p)[..4] == if sender.LittleEndian? then [0x19, 0x2A, 0, 0] else [0, 0, 0x19, 0x2A]
    ensures ReadSignature(receiver, Wire(sender, p)) == (SIGNATURE & 0xffff) as bv16 <==> sender == receiver
  {
    hide Network16, Network32, Network64, ToU8, ToU16, Body, AllInterfaceBytes, SignatureBytes;
    var g, b := SignatureBytes(sender), Wire(sender, p);
    SignatureOnWire();
    SignatureRecognised(sender, receiver);
    assert b[..20] == PacketHeader(sender, p);
    assert b[0] == g.0 && b[1] == g.1 && b[2] == g.2 && b[3] == g.3;
  }

  lemma SameAfterSignature(g: Four, h: Four, s: Two, packetType: byte, retry: byte, l: Two, version: byte,
                           packetId: byte, nodeType: byte, n: Two, body: seq<byte>, rest: seq<byte>)
    ensures var b := Header(g, s, packetType, retry, l, version, packetId, nodeType, n) + body + rest;
            var c := Header(h, s, packetType, retry, l, version, packetId, nodeType, n) + body + rest;
            b[..4] == [g.0, g.1, g.2, g.3] && b[4..] == c[4..]
  {
    var x := Header(g, s, packetType, retry, l, version, packetId, nodeType, n);
    var y := Header(h, s, packetType, retry, l, version, packetId, nodeType, n);
    assert x[4..] == y[4..];
    assert (x + body + rest)[4..] == x[4..] + body + rest;
    assert (y + body + rest)[4..] == y[4..] + body + rest;
  }

  lemma SignatureOnWire()
    ensures SignatureBytes(LittleEndian) == (0x19, 0x2A, 0, 0) && SignatureBytes(BigEndian) == (0, 0, 0x19, 0x2A)
  {}

  lemma SignatureRecognised(sender: Machine, receiver: Machine)
    ensures var seen := Load32(receiver, SignatureBytes(sender));
            CheckAndSwap16(receiver, (seen & 0xffff) as bv16) == (SIGNATURE & 0xffff) as bv16 <==> sender == receiver
  {}
}
