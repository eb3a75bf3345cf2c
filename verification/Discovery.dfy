/**
 The discovery thread's own code: choosing an interface, filling the packet, and the ticks
 (libs/protocol/discovery.cpp:41-118 and 183-274, libs/base/ip.h:76-85 and 242-246).
 */
module Discovery {
  import opened Ticks
  import opened ByteOrder
  import opened Registration
  import opened PacketMemory

  datatype IpAddressType = Unknown | Loopback | LinkLocal | ClassA | ClassB | ClassC | Multicast

  function FindIpAddressType(ip: Four): IpAddressType {
    if ip.0 == 127 then Loopback
    else if ip.0 == 169 && ip.1 == 254 then LinkLocal
    else if ip.0 == 224 && ip.1 == 239 then Multicast
    else if ip.0 == 10 then ClassA
    else if ip.0 == 172 && (ip.1 & 0xF0) == 0x10 then ClassB
    else if ip.0 == 192 && ip.1 == 168 then ClassC
    else Unknown
  }

  /** The three classes are the private address blocks of section 3 of RFC 1918; and which addresses the others are. */
  lemma ClassesArePrivateBlocks(ip: Four)
    ensures FindIpAddressType(ip).Loopback? <==> 0x7F00_0000 <= Join32(ip) <= 0x7FFF_FFFF
    ensures FindIpAddressType(ip).LinkLocal? <==> 0xA9FE_0000 <= Join32(ip) <= 0xA9FE_FFFF
    ensures FindIpAddressType(ip).Multicast? <==> 0xE0EF_0000 <= Join32(ip) <= 0xE0EF_FFFF
    ensures FindIpAddressType(ip).ClassA? <==> 0x0A00_0000 <= Join32(ip) <= 0x0AFF_FFFF
    ensures FindIpAddressType(ip).ClassB? <==> 0xAC10_0000 <= Join32(ip) <= 0xAC1F_FFFF
    ensures FindIpAddressType(ip).ClassC? <==> 0xC0A8_0000 <= Join32(ip) <= 0xC0A8_FFFF
  {}

  /** An entry of the interface map; only IPv4 entries have flags the thread looks at. */
  datatype Address = Ipv4(octets: Four, flags: bv32) | OtherAddress

  const IFF_UP: bv32 := 0x1
  const IFF_RUNNING: bv32 := 0x40
  const IFF_MULTICAST: bv32 := 0x1000

  predicate IsActive(flags: bv32) {
    var checkBits := IFF_UP | IFF_RUNNING | IFF_MULTICAST;
    (flags & checkBits) == checkBits
  }

  predicate Chosen(a: Address) {
    && a.Ipv4?
    && (var t := FindIpAddressType(a.octets); t.ClassA? || t.ClassB? || t.ClassC?)
    && IsActive(a.flags)
  }

  /** Lan, Isl, Wan and Ethernet1g. */
  const CAPABILITIES: bv32 := (1 << 1) | (1 << 2) | (1 << 3) | (1 << 16)

  /** The usable-list entry for an address; the last twelve address bytes are never assigned. */
  function UsableEntry(octets: Four, rest: seq<byte>): Interface
    requires |rest| == 12
  {
    Interface(1, CAPABILITIES, [octets.0, octets.1, octets.2, octets.3] + rest)
  }

  /** A 64-bit counter after n increments. */
  function Counted(n: nat): bv64 { if n == 0 then 0 else Counted(n - 1) + 1 }

  lemma CountedUp(n: nat)
    ensures Counted(0) == 0 && Counted(1) == 1 && Counted(2) == 2 && Counted(n + 1) == Counted(n) + 1
  {}

  /** An IPv4 address in one of the three private blocks on an interface that is up, running and multicast. */
  predicate Eligible(a: Address) {
    && a.Ipv4?
    && (var ip := Join32(a.octets);
        || 0x0A00_0000 <= ip <= 0x0AFF_FFFF || 0xAC10_0000 <= ip <= 0xAC1F_FFFF || 0xC0A8_0000 <= ip <= 0xC0A8_FFFF)
    && a.flags & 0x1 != 0 && a.flags & 0x40 != 0 && a.flags & 0x1000 != 0
  }

  /** The entries the loop takes are the eligible ones. */
  lemma ChosenIff(a: Address)
    ensures Chosen(a) <==> Eligible(a)
    ensures Chosen(a) ==> a.Ipv4?
  {
    hide Join32, FindIpAddressType;
    if a.Ipv4? {
      ClassesArePrivateBlocks(a.octets);
      ActiveIff(a.flags);
    }
  }

  lemma ActiveIff(flags: bv32)
    ensures IsActive(flags) <==> flags & 0x1 != 0 && flags & 0x40 != 0 && flags & 0x1000 != 0
  {}

  predicate IsFirstEligible(interfaceMap: seq<(string, Address)>, k: nat) {
    && k < |interfaceMap| && Eligible(interfaceMap[k].1)
    && forall i :: 0 <= i < k ==> !Eligible(interfaceMap[i].1)
  }

  class IpMulticast {
    const device: string
    const address: Four
    var sent: seq<seq<byte>>

    constructor (device: string, address: Four)
      ensures this.device == device && this.address == address && sent == []
    {
      this.device, this.address, sent := device, address, [];
    }

    method Send(packet: seq<byte>, length: nat)
      requires length <= |packet|
      modifies this`sent
      ensures sent == old(sent) + [packet[..length]]
    {
      sent := sent + [packet[..length]];
    }
  }

  // ---------------------------------------------------------------- Heartbeats of a run

  /** The public address in force when tick n begins: the last one looked up in a minute tick. */
  function CurrentIp(ip: Four, lookups: seq<Four>, n: nat): Four
    requires n <= |lookups|
  {
    if n == 0 then ip else if (n - 1) % 60 == 0 then lookups[n - 1] else CurrentIp(ip, lookups, n - 1)
  }

  /** The contents of the heartbeat a node sends in tick n. */
  function HeartbeatIn(p: Packet, lookups: seq<Four>, n: nat): Packet
    requires n <= |lookups|
  {
    p.(sequence := (PreparedAfter(n) + 1) % U16, publicIp := CurrentIp(p.publicIp, lookups, n))
  }

  /** What the first n ticks of a node with the given packet contents send. */
  function Heartbeats(p: Packet, lookups: seq<Four>, n: nat): (sent: seq<Packet>)
    requires n <= |lookups|
    ensures |sent| == TenSecondTicks(n)
    ensures forall i :: 0 <= i < |sent| ==> sent[i].interfaces == p.interfaces
  {
    if n == 0 then []
    else Heartbeats(p, lookups, n - 1) + (if (n - 1) % 10 == 0 then [HeartbeatIn(p, lookups, n - 1)] else [])
  }

  lemma {:induction false} HeartbeatAt(p: Packet, lookups: seq<Four>, n: nat, k: nat)
    requires n <= |lookups| && 10 * k < n
    ensures k < TenSecondTicks(n)
    ensures Heartbeats(p, lookups, n)[k]
            == p.(sequence := HeartbeatSequence(k), publicIp := CurrentIp(p.publicIp, lookups, 10 * k))
  {
    hide TenSecondTicks, MinuteTicks, PreparedAfter, HeartbeatSequence, CurrentIp;
    TicksAreCeilings(n);
    TicksAreCeilings(n - 1);
    if 10 * k < n - 1 {
      HeartbeatAt(p, lookups, n - 1, k);
    } else {
      HeartbeatIsNext(n - 1);
    }
  }

  lemma NoSequences()
    ensures HeartbeatSequences(0) == []
  {}

  /** The interleaved worker's log and the packets sent here carry the same sequence numbers. */
  lemma SequencesAgree(p: Packet, lookups: seq<Four>, n: nat)
    requires n <= |lookups|
    ensures HeartbeatSequences(TenSecondTicks(n))
            == seq(TenSecondTicks(n), k requires 0 <= k < TenSecondTicks(n) => Heartbeats(p, lookups, n)[k].sequence)
  {
    hide Heartbeats, TenSecondTicks, HeartbeatSequences, HeartbeatSequence;
    var count := TenSecondTicks(n);
    TicksAreCeilings(n);
    NoSequences();
    if count > 0 { HeartbeatSequenceAt(count, 0); }
    forall k | 0 <= k < count
      ensures HeartbeatSequences(count)[k] == Heartbeats(p, lookups, n)[k].sequence
    {
      HeartbeatSequenceAt(count, k);
      HeartbeatAt(p, lookups, n, k);
    }
  }

  /**
   In a run of n ticks the k-th heartbeat, sent by a machine of either kind and read on a machine of
   either kind, has the sequence number HeartbeatSequence(k), the last public address looked up, and
   everything else the node set; and it fits the packet buffer.
   */
  lemma HeartbeatReadable(sender: Machine, receiver: Machine, p: Packet, lookups: seq<Four>, k: nat)
    requires Valid(p) && 10 * k < |lookups|
    ensures k < |Heartbeats(p, lookups, |lookups|)|
    ensures var b := Wire(sender, Heartbeats(p, lookups, |lookups|)[k]);
            && b[40] as int == |p.interfaces|
            && |b| == End(|p.interfaces|) <= MAX_PACKET_SIZE
            && Read(receiver, b)
               == p.(sequence := HeartbeatSequence(k), publicIp := CurrentIp(p.publicIp, lookups, 10 * k))
  {
    HeartbeatAt(p, lookups, |lookups|, k);
    var sent := p.(sequence := HeartbeatSequence(k), publicIp := CurrentIp(p.publicIp, lookups, 10 * k));
    WireRoundTrip(sender, receiver, sent);
  }

  lemma TicksBegin(m: Machine, p: Packet, lookups: seq<Four>)
    ensures PreparedAfter(0) == 0 && CurrentIp(p.publicIp, lookups, 0) == p.publicIp
    ensures Heartbeats(p, lookups, 0) == [] && WireAll(m, Heartbeats(p, lookups, 0)) == []
  {}

  /** The address in force is the one looked up in the last minute tick, the given one before the first. */
  lemma {:induction false} CurrentIpIs(ip: Four, lookups: seq<Four>, n: nat)
    requires n <= |lookups|
    ensures CurrentIp(ip, lookups, n) == if n == 0 then ip else lookups[(n - 1) / 60 * 60]
  {
    if n > 0 && (n - 1) % 60 != 0 {
      CurrentIpIs(ip, lookups, n - 1);
      assert (n - 1) / 60 == (n - 2) / 60;
    }
  }

  /** How one tick moves the specification: sequence counter, public address and heartbeats. */
  lemma TickAdvances(p: Packet, lookups: seq<Four>, n: nat)
    requires n < |lookups| && n < U32
    ensures n % U32 == n
    ensures var drawn := (if n % 10 == 0 then 1 else 0) + (if n % 60 == 0 then 1 else 0);
            (PreparedAfter(n) % U16 + drawn) % U16 == PreparedAfter(n + 1) % U16
    ensures CurrentIp(p.publicIp, lookups, n + 1)
            == if n % 60 == 0 then lookups[n] else CurrentIp(p.publicIp, lookups, n)
    ensures HeartbeatIn(p, lookups, n)
            == p.(sequence := (PreparedAfter(n) % U16 + 1) % U16, publicIp := CurrentIp(p.publicIp, lookups, n))
    ensures Heartbeats(p, lookups, n + 1)
            == Heartbeats(p, lookups, n) + (if n % 10 == 0 then [HeartbeatIn(p, lookups, n)] else [])
  {
    hide Heartbeats, PreparedAfter;
    PreparedAdvances(n);
    HeartbeatsAdvance(p, lookups, n);
    WrapSucc(PreparedAfter(n), U16);
    WrapSucc(PreparedAfter(n) + 1, U16);
  }

  lemma PreparedAdvances(n: nat)
    ensures PreparedAfter(n + 1)
            == PreparedAfter(n) + (if n % 10 == 0 then 1 else 0) + (if n % 60 == 0 then 1 else 0)
  {}

  lemma HeartbeatsAdvance(p: Packet, lookups: seq<Four>, n: nat)
    requires n < |lookups|
    ensures Heartbeats(p, lookups, n + 1)
            == Heartbeats(p, lookups, n) + (if n % 10 == 0 then [HeartbeatIn(p, lookups, n)] else [])
  {
    hide HeartbeatIn;
  }

  /** The bytes of a list of packets. */
  function WireAll(m: Machine, l: seq<Packet>): (b: seq<seq<byte>>)
    requires forall i :: 0 <= i < |l| ==> Valid(l[i])
    ensures |b| == |l| && forall i :: 0 <= i < |l| ==> b[i] == Wire(m, l[i])
  {
    if l == [] then [] else WireAll(m, l[..|l| - 1]) + [Wire(m, l[|l| - 1])]
  }

  lemma WireAllSnoc(m: Machine, l: seq<Packet>, p: Packet)
    requires Valid(p) && forall i :: 0 <= i < |l| ==> Valid(l[i])
    ensures WireAll(m, l + [p]) == WireAll(m, l) + [Wire(m, p)]
  {
    hide Wire;
    assert (l + [p])[..|l|] == l;
  }

  // ---------------------------------------------------------------- Raw bytes and wire bytes

  /** A usable interface as its slot of the packet holds it. */
  function SlotOf(m: Machine, i: Interface): InterfaceFields {
    InterfaceFields(i.kind, (0, 0, 0), CheckAndSwap32(m, i.capBits), i.address)
  }

  lemma {:induction false} SlotsAreWire(m: Machine, slots: seq<InterfaceFields>, l: seq<Interface>)
    requires |slots| == |l|
    requires forall i :: 0 <= i < |l| ==> slots[i] == SlotOf(m, l[i])
    ensures RawInterfaces(m, slots) == AllInterfaceBytes(l)
  {
    if l != [] {
      SlotsAreWire(m, slots[..|l| - 1], l[..|l| - 1]);
      Swapped32(m, l[|l| - 1].capBits);
    }
  }

  class DiscoveryThread {
    const protocol: Protocol
    const packet: RegistrationFields
    var mc: IpMulticast?
    var usable: seq<Interface>
    var secondCounter: u32
    var storageSize: bv64
    var featureBits: bv32
    var publicIp: Four

    ghost predicate Valid()
      reads this
    {
      packet.Valid()
    }

    /** The invariant Initialize establishes and every tick relies on. */
    ghost predicate Ready()
      reads this
    {
      Valid() && |usable| <= 1 && (usable != [] ==> mc != null)
    }

    /** What a packet prepared now with the given sequence number says. */
    function Contents(sequence: u16): Packet
      reads this, protocol
    {
      Packet(sequence, 4, 0, VERSION, 0, protocol.nodeType, protocol.nodeId, protocol.appVersion, protocol.appType,
             publicIp, featureBits, storageSize, usable)
    }

    /** Bytes that receivers of both kinds read as this node's registration under the given sequence number. */
    ghost predicate Announces(b: seq<byte>, sequence: u16)
      reads this, protocol
    {
      && |b| >= 44 && |b| == 44 + 24 * b[40] as int
      && Says(Read(LittleEndian, b), sequence) && Says(Read(BigEndian, b), sequence)
    }

    ghost predicate Says(p: Packet, sequence: u16)
      reads this, protocol
    {
      && p.packetType == 4 && p.retry == 0 && p.version == 100 && p.packetId == 0
      && p.sequence == sequence
      && p.nodeType == protocol.nodeType && p.nodeId == protocol.nodeId
      && p.appVersion == protocol.appVersion && p.appType == protocol.appType
      && p.publicIp == publicIp && p.featureBits == featureBits && p.storageSize == storageSize
      && p.interfaces == usable
    }

    lemma WireAnnounces(sequence: u16)
      requires 1 <= |usable| <= 56
      ensures Announces(Wire(protocol.machine, Contents(sequence)), sequence)
    {
      hide Wire, Read;
      WireRoundTrip(protocol.machine, LittleEndian, Contents(sequence));
      WireRoundTrip(protocol.machine, BigEndian, Contents(sequence));
    }

    constructor (protocol: Protocol)
      ensures Ready() && this.protocol == protocol && fresh(packet) && fresh(packet.header) && fresh(packet.interfaces)
      ensures usable == [] && mc == null && secondCounter == 0 && featureBits == 0
    {
      this.protocol := protocol;
      packet := new RegistrationFields();
      mc, usable, secondCounter, featureBits := null, [], 0, 0;
      storageSize, publicIp := 0, (0, 0, 0, 0);
    }

    predicate Uses(entry: (string, Address), unassigned: seq<byte>)
      requires entry.1.Ipv4? && |unassigned| == 12
      reads this, mc
    {
      && (var o := entry.1.octets; usable == [Interface(1, 0x1_000E, [o.0, o.1, o.2, o.3] + unassigned)])
      && mc != null && mc.device == entry.0 && mc.address == entry.1.octets
    }

    /**
     The one Initialize, on any interface map in its iteration order: the first eligible entry, if there
     is one, becomes the only usable interface and gets the multicast channel; otherwise there is neither.
     */
    method Initialize(interfaceMap: seq<(string, Address)>, driveList: seq<string>, unassigned: seq<byte>)
      requires Valid() && mc == null && |unassigned| == 12
      modifies this, protocol`nodeId
      ensures Ready() && protocol.nodeId == 1 && storageSize == Counted(|driveList|)
      ensures secondCounter == old(secondCounter) && publicIp == old(publicIp) && featureBits == old(featureBits)
      ensures usable == [] <==> mc == null
      ensures usable == [] <==> forall i :: 0 <= i < |interfaceMap| ==> !Eligible(interfaceMap[i].1)
      ensures usable != [] ==> fresh(mc) && mc.sent == []
      ensures usable != [] ==> exists k: nat :: IsFirstEligible(interfaceMap, k) && Uses(interfaceMap[k], unassigned)
    {
      hide Chosen, Eligible, Counted;
      CountedUp(0);
      usable := [];
      storageSize := 0;
      for i := 0 to |driveList|
        invariant usable == [] && Valid() && mc == null && secondCounter == old(secondCounter)
        invariant publicIp == old(publicIp) && featureBits == old(featureBits)
        invariant storageSize == Counted(i)
      {
        CountedUp(i);
        storageSize := storageSize + 1;
      }
      protocol.nodeId := 1;
      var it := 0;
      while it < |interfaceMap|
        invariant 0 <= it <= |interfaceMap|
        invariant Valid() && usable == [] && mc == null && protocol.nodeId == 1 && storageSize == Counted(|driveList|)
        invariant secondCounter == old(secondCounter) && publicIp == old(publicIp) && featureBits == old(featureBits)
        invariant forall i :: 0 <= i < it ==> !Eligible(interfaceMap[i].1)
      {
        var (name, address) := interfaceMap[it];
        ChosenIff(address);
        if Chosen(address) {
          usable := usable + [UsableEntry(address.octets, unassigned)];
          mc := new IpMulticast(name, address.octets);
          assert IsFirstEligible(interfaceMap, it) && Uses(interfaceMap[it], unassigned);
          break;
        }
        it := it + 1;
      }
    }

    /** A packet whose three parts are filled is the wire form of the contents, and announces the node. */
    lemma FilledPacket(sequence: u16)
      requires Valid() && 1 <= |usable| <= 56
      requires var m, total := protocol.machine, ToU8(|usable|);
               && packet.header.Raw(m)
                  == Header(SignatureBytes(m), Network16(ToU16(sequence)), 4, 0, Network16(ToU16(PacketLength(total))),
                            VERSION, 0, protocol.nodeType, Network16(protocol.nodeId))
               && packet.RawBody(m)
                  == Body(Network16(protocol.appVersion), protocol.appType, publicIp, Network32(featureBits),
                          Network64(storageSize), total)
      requires forall i :: 0 <= i < |usable| ==> packet.interfaces[i] == SlotOf(protocol.machine, usable[i])
      ensures packet.Raw(protocol.machine, |usable|) == Wire(protocol.machine, Contents(sequence))
      ensures Announces(packet.Raw(protocol.machine, |usable|), sequence)
    {
      hide Network16, Network32, Network64, ToU8, ToU16, SignatureBytes, Header, Body, RawInterfaces, AllInterfaceBytes,
           PacketLength, Announces, SlotOf;
      SlotsAreWire(protocol.machine, packet.interfaces[..|usable|], usable);
      WireAnnounces(sequence);
    }

    /**
     Afterwards the packet's bytes are the wire form of the current contents under the next sequence number,
     and any receiver reads from them what this node is and has.
     */
    method PrepareRegistrationPacket()
      requires Valid() && 1 <= |usable| <= 56
      modifies packet, packet.header, packet.interfaces, protocol`sequence
      ensures protocol.sequence == (old(protocol.sequence) + 1) % U16
      ensures packet.Raw(protocol.machine, |usable|) == Wire(protocol.machine, Contents(protocol.sequence))
      ensures Announces(packet.Raw(protocol.machine, |usable|), protocol.sequence)
      ensures FromU16(CheckAndSwap16(protocol.machine, packet.header.length)) == End(|usable|)
    {
      hide Network16, Network32, Network64, Memory16, Memory32, CheckAndSwap16, CheckAndSwap32, ToU8, ToU16, FromU16,
           SignatureBytes, Header, Body, PacketLength, Announces, Contents, Wire, SlotOf,
           HeaderFields.Raw, RegistrationFields.Raw, RegistrationFields.RawBody, RegistrationFields.Cleared;
      var m := protocol.machine;
      var totalInterfaces := ToU8(|usable|);
      var packetLength := PacketLength(totalInterfaces);
      PacketFitsIff(|usable|);
      var sequence := protocol.GetNextSequence();
      packet.Clear(totalInterfaces as nat);
      protocol.PrepareHeader(packet.header, 0, 4, sequence, 0, packetLength);
      packet.FillBody(m, protocol.appType, protocol.appVersion, storageSize, featureBits, publicIp, totalInterfaces);
      FillInterfaces();
      FilledPacket(sequence);
    }

    method FillInterfaces()
      requires Valid() && |usable| <= 56
      requires forall i :: 0 <= i < |usable| ==> packet.interfaces[i] == ZERO_INTERFACE
      modifies packet.interfaces
      ensures forall i :: 0 <= i < |usable| ==> packet.interfaces[i] == SlotOf(protocol.machine, usable[i])
    {
      var idx := 0;
      while idx < |usable|
        invariant 0 <= idx <= |usable|
        invariant forall i :: 0 <= i < idx ==> packet.interfaces[i] == SlotOf(protocol.machine, usable[i])
        invariant forall i :: idx <= i < |usable| ==> packet.interfaces[i] == ZERO_INTERFACE
      {
        var intf := usable[idx];
        packet.interfaces[idx] := packet.interfaces[idx].(address := intf.address);
        packet.interfaces[idx] := packet.interfaces[idx].(kind := intf.kind);
        packet.interfaces[idx] := packet.interfaces[idx].(capBits := CheckAndSwap32(protocol.machine, intf.capBits));
        idx := idx + 1;
      }
    }
  
    method SendHeartbeatToMcGroup()
      requires Ready()
      modifies packet, packet.header, packet.interfaces, protocol`sequence, mc
      ensures usable == [] ==> unchanged(protocol) && (mc != null ==> unchanged(mc))
      ensures usable != [] ==> protocol.sequence == (old(protocol.sequence) + 1) % U16
      ensures usable != [] ==> mc.sent == old(mc.sent) + [Wire(protocol.machine, Contents(protocol.sequence))]
      ensures usable != [] ==> Announces(mc.sent[|mc.sent| - 1], protocol.sequence)
    {
      hide Wire, CheckAndSwap16, FromU16, Announces, HeaderFields.Raw, RegistrationFields.RawBody;
      if usable == [] { return; }
      PrepareRegistrationPacket();
      var m := protocol.machine;
      var length := FromU16(CheckAndSwap16(m, packet.header.length));
      packet.RawPrefix(m, |usable|);
      mc.Send(packet.Raw(m, 56), length);
    }

    method SendHeartbeatToRemoteOffice()
      requires Ready()
      modifies packet, packet.header, packet.interfaces, protocol`sequence
      ensures protocol.sequence == if usable == [] then old(protocol.sequence) else (old(protocol.sequence) + 1) % U16
      ensures usable != [] ==>
                packet.Raw(protocol.machine, |usable|) == Wire(protocol.machine, Contents(protocol.sequence))
      ensures usable != [] ==> Announces(packet.Raw(protocol.machine, |usable|), protocol.sequence)
    {
      hide Wire, Announces, HeaderFields.Raw, RegistrationFields.Raw, RegistrationFields.RawBody;
      if usable == [] { return; }
      PrepareRegistrationPacket();
    }
  
    method ProcessTenSecondTick()
      requires Ready()
      modifies packet, packet.header, packet.interfaces, protocol`sequence, mc
      ensures usable == [] ==> protocol.sequence == old(protocol.sequence) && (mc != null ==> mc.sent == old(mc.sent))
      ensures usable != [] ==> protocol.sequence == (old(protocol.sequence) + 1) % U16
      ensures usable != [] ==> mc.sent == old(mc.sent) + [Wire(protocol.machine, Contents(protocol.sequence))]
    {
      hide Wire, Announces, HeaderFields.Raw, RegistrationFields.Raw, RegistrationFields.RawBody;
      SendHeartbeatToMcGroup();
    }

    /** The lookup is the public address EthHandler::GetPublicIp finds. */
    method ProcessOneMinuteTick(lookup: Four)
      requires Ready()
      modifies this`publicIp, packet, packet.header, packet.interfaces, protocol`sequence
      ensures publicIp == lookup
      ensures protocol.sequence == if usable == [] then old(protocol.sequence) else (old(protocol.sequence) + 1) % U16
    {
      hide Wire, Announces, HeaderFields.Raw, RegistrationFields.Raw, RegistrationFields.RawBody;
      publicIp := lookup;
      SendHeartbeatToRemoteOffice();
    }

    /** One tick; lookup is the public address a minute tick finds. */
    method ProcessSecondTick(lookup: Four)
      requires Ready()
      modifies this`secondCounter, this`publicIp, packet, packet.header, packet.interfaces, protocol`sequence, mc
      ensures secondCounter == (old(secondCounter) + 1) % U32
      ensures publicIp == if old(secondCounter) % 60 == 0 then lookup else old(publicIp)
      ensures var drawn := if usable == [] then 0
                           else (if old(secondCounter) % 10 == 0 then 1 else 0)
                                + (if old(secondCounter) % 60 == 0 then 1 else 0);
              protocol.sequence == (old(protocol.sequence) + drawn) % U16
      ensures usable == [] && mc != null ==> mc.sent == old(mc.sent)
      ensures usable != [] && old(secondCounter) % 10 != 0 ==> mc.sent == old(mc.sent)
      ensures usable != [] && old(secondCounter) % 10 == 0 ==>
                mc.sent == old(mc.sent) + [Wire(protocol.machine, old(Contents((protocol.sequence + 1) % U16)))]
    {
      hide Wire, Announces, HeaderFields.Raw, RegistrationFields.Raw, RegistrationFields.RawBody;
      WrapSucc(protocol.sequence, U16);
      if secondCounter % 10 == 0 { ProcessTenSecondTick(); }
      if secondCounter % 60 == 0 { ProcessOneMinuteTick(lookup); }
      secondCounter := (secondCounter + 1) % U32;
    }

    /** The ticks of a fresh node's worker, up to the wrap of the 32-bit second counter. */
    method RunTicks(lookups: seq<Four>)
      requires Ready() && |lookups| <= U32
      requires secondCounter == 0 && protocol.sequence == 0
      modifies this`secondCounter, this`publicIp, packet, packet.header, packet.interfaces, protocol`sequence, mc
      ensures Ready() && secondCounter == |lookups| % U32
      ensures publicIp == CurrentIp(old(publicIp), lookups, |lookups|)
      ensures protocol.sequence == if usable == [] then 0 else PreparedAfter(|lookups|) % U16
      ensures usable == [] && mc != null ==> mc.sent == old(mc.sent)
      ensures usable != [] ==>
                mc.sent == old(mc.sent) + WireAll(protocol.machine, Heartbeats(old(Contents(0)), lookups, |lookups|))
    {
      hide Wire, WireAll, Heartbeats, HeartbeatIn, CurrentIp, PreparedAfter;
      ghost var p := Contents(0);
      ghost var some := usable != [];
      TicksBegin(protocol.machine, p, lookups);
      var n := 0;
      while n < |lookups|
        invariant 0 <= n <= |lookups|
        invariant Ready() && mc == old(mc)
        invariant secondCounter == n % U32
        invariant protocol.sequence == if some then PreparedAfter(n) % U16 else 0
        invariant publicIp == CurrentIp(p.publicIp, lookups, n)
        invariant Contents(0) == p.(publicIp := publicIp)
        invariant !some && mc != null ==> mc.sent == old(mc.sent)
        invariant some ==> mc.sent == old(mc.sent) + WireAll(protocol.machine, Heartbeats(p, lookups, n))
      {
        TickAdvances(p, lookups, n);
        if some && n % 10 == 0 { WireAllSnoc(protocol.machine, Heartbeats(p, lookups, n), HeartbeatIn(p, lookups, n)); }
        ProcessSecondTick(lookups[n]);
        n := n + 1;
      }
    }
  }
}
