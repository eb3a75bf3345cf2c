/** Arithmetic of the heartbeat schedule (libs/protocol/discovery.cpp:183-207, libs/protocol/protocol.h:261). */
module Ticks {
  const U16: nat := 0x1_0000
  const U32: nat := 0x1_0000_0000

  type u16 = x: int | 0 <= x < U16
  type u32 = x: int | 0 <= x < U32

  /** How many of the ticks 0, 1, ..., n - 1 are ten-second ticks. */
  function TenSecondTicks(n: nat): nat {
    if n == 0 then 0 else TenSecondTicks(n - 1) + (if (n - 1) % 10 == 0 then 1 else 0)
  }

  /** How many of the ticks 0, 1, ..., n - 1 are minute ticks. */
  function MinuteTicks(n: nat): nat {
    if n == 0 then 0 else MinuteTicks(n - 1) + (if (n - 1) % 60 == 0 then 1 else 0)
  }

  /** They are n/10 and n/60 rounded up. */
  lemma {:induction false} TicksAreCeilings(n: nat)
    ensures TenSecondTicks(n) == (n + 9) / 10
    ensures MinuteTicks(n) == (n + 59) / 60
  {
    if n > 0 { TicksAreCeilings(n - 1); }
  }

  /** Packets prepared by the first n ticks: one in each ten-second tick and one in each minute tick. */
  function PreparedAfter(n: nat): nat { TenSecondTicks(n) + MinuteTicks(n) }

  /** Sequence number of the k-th multicast heartbeat, the one sent in tick 10k. */
  function HeartbeatSequence(k: nat): u16 { (k + (k + 5) / 6 + 1) % U16 }

  /** The first `count` heartbeat sequence numbers, in sending order. */
  function HeartbeatSequences(count: nat): seq<u16> {
    if count == 0 then [] else HeartbeatSequences(count - 1) + [HeartbeatSequence(count - 1)]
  }

  lemma {:induction false} HeartbeatSequenceAt(count: nat, k: nat)
    requires k < count
    ensures |HeartbeatSequences(count)| == count && HeartbeatSequences(count)[k] == HeartbeatSequence(k)
  {
    if count > 1 { HeartbeatSequenceAt(count - 1, if k < count - 1 then k else 0); }
  }

  /** A packet prepared in tick n, after every earlier one, is the (PreparedAfter(n) + 1)-th. */
  lemma HeartbeatIsNext(n: nat)
    requires n % 10 == 0
    ensures HeartbeatSequence(TenSecondTicks(n)) == (PreparedAfter(n) + 1) % U16
  {
    var k := n / 10;
    TicksAreCeilings(n);
    SixTimesTen(k);
  }

  lemma SixTimesTen(k: nat)
    ensures (10 * k + 59) / 60 == (k + 5) / 6
  {}

  /**
   Two heartbeats carry the same number exactly when a multiple of 2^16 packets was prepared between
   them; in particular never when they are fewer than 2^16 preparations apart.
   */
  lemma SameSequenceIff(j: nat, k: nat)
    requires j < k
    ensures var apart := PreparedAfter(10 * k) - PreparedAfter(10 * j);
            && apart > 0
            && (HeartbeatSequence(j) == HeartbeatSequence(k) <==> apart % U16 == 0)
            && (apart < U16 ==> HeartbeatSequence(j) != HeartbeatSequence(k))
  {
    hide TenSecondTicks, MinuteTicks, HeartbeatSequence;
    TicksAreCeilings(10 * j);
    TicksAreCeilings(10 * k);
    HeartbeatIsNext(10 * j);
    HeartbeatIsNext(10 * k);
    assert TenSecondTicks(10 * j) == j && TenSecondTicks(10 * k) == k;
    hide PreparedAfter;
    SameRemainder(PreparedAfter(10 * j) + 1, PreparedAfter(10 * k) + 1);
  }

  lemma SameRemainder(a: nat, b: nat)
    requires a < b
    ensures a % U16 == b % U16 <==> (b - a) % U16 == 0
  {}

  /** Incrementing a wrapped counter wraps the incremented count. */
  lemma WrapSucc(n: nat, m: nat)
    requires m == U16 || m == U32
    ensures (n % m + 1) % m == (n + 1) % m
  {}
}
