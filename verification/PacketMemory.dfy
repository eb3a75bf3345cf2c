/**
 The packet structures in memory: fields hold integers in the machine's own representation
 (libs/protocol/protocol.h:168-215 and 282-287), assigned one by one by libs/protocol/protocol.cpp:21-39.
 */
module PacketMemory {
  import opened Ticks
  import opened ByteOrder
  import opened Registration

  /** struct Protocol::Header. */
  class HeaderFields {
    var signature: bv32
    var sequence: bv16
    var packetType: byte
    var retryCount: byte
    var length: bv16
    var version: byte
    var packetId: byte
    var nodeType: byte
    var nodeId: bv16
    var reserved: byte
    var reserved2: bv32

    /** The structure's bytes on machine m. */
    function Raw(m: Machine): (h: seq<byte>)
      reads this
      ensures |h| == HEADER_SIZE
    {
      var g, s, l := Memory32(m, signature), Memory16(m, sequence), Memory16(m, length);
      var n, z := Memory16(m, nodeId), Memory32(m, reserved2);
      [g.0, g.1, g.2, g.3,
       s.0, s.1, packetType, retryCount,
       l.0, l.1, version, packetId,
       nodeType, n.0, n.1, reserved,
       z.0, z.1, z.2, z.3]
    }

    predicate Cleared()
      reads this
    {
      && signature == 0 && sequence == 0 && packetType == 0 && retryCount == 0 && length == 0 && version == 0
      && packetId == 0 && nodeType == 0 && nodeId == 0 && reserved == 0 && reserved2 == 0
    }

    method Clear()
      modifies this
      ensures Cleared()
    {
      signature, sequence, packetType, retryCount, length, version := 0, 0, 0, 0, 0, 0;
      packetId, nodeType, nodeId, reserved, reserved2 := 0, 0, 0, 0, 0;
    }

    lemma ClearedBytes(m: Machine)
      requires Cleared()
      ensures Raw(m) == Zeros(HEADER_SIZE)
    {
      hide Memory16, Memory32;
      ZeroInMemory(m);
    }
  }

  /** struct Protocol::Interface in the packet. */
  datatype InterfaceFields =
    InterfaceFields(kind: byte, reserved: (byte, byte, byte), capBits: bv32, address: AddressBytes)
  {
    function Raw(m: Machine): (b: seq<byte>)
      ensures |b| == INTERFACE_SIZE
    {
      var c := Memory32(m, capBits);
      [kind, reserved.0, reserved.1, reserved.2, c.0, c.1, c.2, c.3] + address
    }
  }

  function RawInterfaces(m: Machine, l: seq<InterfaceFields>): (b: seq<byte>)
    ensures |b| == INTERFACE_SIZE * |l|
  {
    if l == [] then [] else RawInterfaces(m, l[..|l| - 1]) + l[|l| - 1].Raw(m)
  }

  lemma {:induction false} RawInterfacesPrefix(m: Machine, l: seq<InterfaceFields>, n: nat)
    requires n <= |l|
    ensures RawInterfaces(m, l[..n]) == RawInterfaces(m, l)[..INTERFACE_SIZE * n]
  {
    if n < |l| {
      RawInterfacesPrefix(m, l[..|l| - 1], n);
      assert l[..|l| - 1][..n] == l[..n];
    } else {
      assert l[..n] == l;
    }
  }

  function Zeros(n: nat): (z: seq<byte>)
    ensures |z| == n && forall i :: 0 <= i < n ==> z[i] == 0
  {
    seq(n, _ => 0)
  }

  lemma {:induction false} ZeroInterfaces(m: Machine, l: seq<InterfaceFields>)
    requires forall i :: 0 <= i < |l| ==> l[i] == ZERO_INTERFACE
    ensures RawInterfaces(m, l) == Zeros(INTERFACE_SIZE * |l|)
  {
    if l != [] {
      ZeroInterfaces(m, l[..|l| - 1]);
      ZeroInMemory(m);
      assert ZERO_INTERFACE.Raw(m) == Zeros(INTERFACE_SIZE);
    }
  }

  const ZERO_INTERFACE := InterfaceFields(0, (0, 0, 0), 0, seq(16, _ => 0))

  /** struct Protocol::Registration over the 1400-byte scratch pad, which has room for 56 interfaces. */
  class RegistrationFields {
    const header: HeaderFields
    var appVersion: bv16
    var appType: byte
    var reserved1: byte
    var publicIp: Four
    var featureBits: bv32
    var storageSize: bv64
    var totalInterfaces: byte
    var reserved2: (byte, byte, byte)
    const interfaces: array<InterfaceFields>

    ghost predicate Valid()
    {
      interfaces.Length == 56
    }

    constructor ()
      ensures Valid() && fresh(header) && fresh(interfaces)
    {
      header := new HeaderFields;
      interfaces := new InterfaceFields[56](_ => ZERO_INTERFACE);
    }

    function RawBody(m: Machine): (b: seq<byte>)
      reads this
      ensures |b| == FIXED_SIZE - HEADER_SIZE
    {
      var v, i, f, t := Memory16(m, appVersion), publicIp, Memory32(m, featureBits), Memory64(m, storageSize);
      [v.0, v.1, appType, reserved1,
       i.0, i.1, i.2, i.3,
       f.0, f.1, f.2, f.3,
       t.0, t.1, t.2, t.3, t.4, t.5, t.6, t.7,
       totalInterfaces, reserved2.0, reserved2.1, reserved2.2]
    }

    /** The scratch pad's bytes up to and including the n-th interface. */
    function Raw(m: Machine, n: nat): (b: seq<byte>)
      requires n <= interfaces.Length
      reads this, header, interfaces
      ensures |b| == FIXED_SIZE + INTERFACE_SIZE * n
    {
      header.Raw(m) + RawBody(m) + RawInterfaces(m, interfaces[..n])
    }

    lemma RawPrefix(m: Machine, n: nat)
      requires n <= interfaces.Length
      ensures Raw(m, n) == Raw(m, interfaces.Length)[..FIXED_SIZE + INTERFACE_SIZE * n]
    {
      var all := interfaces[..interfaces.Length];
      RawInterfacesPrefix(m, all, n);
      assert all[..n] == interfaces[..n];
    }

    /** The structure is zero up to and including the n-th interface. */
    ghost predicate Cleared(n: nat)
      requires n <= interfaces.Length
      reads this, header, interfaces
    {
      && header.Cleared()
      && appVersion == 0 && appType == 0 && reserved1 == 0 && publicIp == (0, 0, 0, 0)
      && featureBits == 0 && storageSize == 0 && totalInterfaces == 0 && reserved2 == (0, 0, 0)
      && forall i :: 0 <= i < n ==> interfaces[i] == ZERO_INTERFACE
    }

    /** That is to say, its bytes are zero. */
    lemma ClearedBytes(m: Machine, n: nat)
      requires n <= interfaces.Length && Cleared(n)
      ensures Raw(m, n) == Zeros(End(n))
    {
      hide Memory16, Memory32, Memory64;
      ZeroInMemory(m);
      header.ClearedBytes(m);
      assert RawBody(m) == Zeros(FIXED_SIZE - HEADER_SIZE);
      ZeroInterfaces(m, interfaces[..n]);
    }

    /** memset(reqPacket, 0, packetLength) for n interfaces. */
    method Clear(n: nat)
      requires Valid() && n <= 56
      modifies this, header, interfaces
      ensures Cleared(n) && reserved1 == 0 && reserved2 == (0, 0, 0)
      ensures forall i :: 0 <= i < n ==> interfaces[i] == ZERO_INTERFACE
      ensures forall i :: n <= i < interfaces.Length ==> interfaces[i] == old(interfaces[i])
    {
      header.Clear();
      appVersion, appType, reserved1, publicIp := 0, 0, 0, (0, 0, 0, 0);
      featureBits, storageSize, totalInterfaces, reserved2 := 0, 0, 0, (0, 0, 0);
      forall i | 0 <= i < n { interfaces[i] := ZERO_INTERFACE; }
    }

    /** The assignments of PrepareRegistrationPacket between the header and the interfaces. */
    method FillBody(m: Machine, appType: byte, appVersion: bv16, storageSize: bv64, featureBits: bv32, publicIp: Four,
                    total: byte)
      requires reserved1 == 0 && reserved2 == (0, 0, 0)
      modifies this
      ensures RawBody(m)
              == Body(Network16(appVersion), appType, publicIp, Network32(featureBits), Network64(storageSize), total)
    {
      hide Network16, Network32, Network64, Memory16, Memory32, Memory64;
      hide CheckAndSwap16, CheckAndSwap32, CheckAndSwap64;
      this.appType := appType;
      this.appVersion := CheckAndSwap16(m, appVersion);
      this.storageSize := CheckAndSwap64(m, storageSize);
      this.featureBits := CheckAndSwap32(m, featureBits);
      this.publicIp := publicIp;
      this.totalInterfaces := total;
      Swapped16(m, appVersion);
      Swapped32(m, featureBits);
      Swapped64(m, storageSize);
    }
  }

  /** The protocol singleton: who the sending node is, and the sequence counter (libs/protocol/protocol.h:222-276). */
  class Protocol {
    const machine: Machine
    var sequence: u16
    var nodeId: bv16
    var nodeType: byte
    var appType: byte
    var appVersion: bv16

    constructor (machine: Machine)
      ensures this.machine == machine
      ensures sequence == 0 && nodeId == 0 && nodeType == 0 && appType == 0 && appVersion == 0
    {
      this.machine := machine;
      sequence, nodeId, nodeType, appType, appVersion := 0, 0, 0, 0, 0;
    }

    method GetNextSequence() returns (s: u16)
      modifies this`sequence
      ensures s == sequence == (old(sequence) + 1) % U16
    {
      sequence := (sequence + 1) % U16;
      s := sequence;
    }

    /** The version goes out as the major byte, then the minor byte. */
    method SetAppVersion(major: byte, minor: byte)
      modifies this`appVersion
      ensures Network16(appVersion) == (major, minor)
    {
      appVersion := ((major as bv16) << 8) + (minor as bv16);
      VersionBytes(major, minor);
    }

    static lemma VersionBytes(major: byte, minor: byte)
      ensures Network16(((major as bv16) << 8) + (minor as bv16)) == (major, minor)
    {}

    /** Whatever the header held, its bytes are then the network-order header. */
    method PrepareHeader(header: HeaderFields, packetId: byte, packetType: byte, sequence: u16, retry: byte,
                         packetLength: u16)
      modifies header
      ensures header.Raw(machine)
              == Header(SignatureBytes(machine), Network16(ToU16(sequence)), packetType, retry,
                        Network16(ToU16(packetLength)), VERSION, packetId, nodeType, Network16(nodeId))
      ensures FromU16(CheckAndSwap16(machine, header.length)) == packetLength
    {
      hide Network16, Memory16, Memory32, CheckAndSwap16, ToU16, FromU16;
      header.signature := CheckAndSwap16(machine, (SIGNATURE & 0xffff) as bv16) as bv32;
      header.version := VERSION;
      header.length := CheckAndSwap16(machine, ToU16(packetLength));
      header.nodeId := CheckAndSwap16(machine, nodeId);
      header.nodeType := nodeType;
      header.sequence := CheckAndSwap16(machine, ToU16(sequence));
      header.retryCount := retry;
      header.packetId := packetId;
      header.packetType := packetType;
      header.reserved := 0;
      header.reserved2 := 0;
      Swapped16(machine, ToU16(packetLength));
      Swapped16(machine, nodeId);
      Swapped16(machine, ToU16(sequence));
      CheckAndSwapTwice16(machine, ToU16(packetLength));
      FromToU16(packetLength);
      ZeroInMemory(machine);
    }
  }
}
