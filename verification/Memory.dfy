/** Tracked memory objects (libs/base/memory.cpp:36-60, libs/base/memory.h:73-81). */
module TrackedMemory {
  import opened Ticks
  import opened MemAlign
  import opened Registry

  /** Every object in the map is there under its own index. */
  ghost predicate KeyedByOwnIndex(table: LiveTable<Memory>)
    reads table, table.entries.Values
  {
    forall k :: k in table.entries ==> table.entries[k].index == k
  }

  class Memory {
    const requestedLength: u32
    const adjustedLength: u32
    const isAligned: bool
    const address: u64
    var index: nat

    /** The address is where operator new put the bytes. */
    constructor (table: LiveTable<Memory>, length: u32, isAligned: bool, address: u64)
      requires table.Valid() && table.width == U32 && KeyedByOwnIndex(table)
      modifies table
      ensures table.Valid() && table.events == old(table.events) + [Born(this)] && KeyedByOwnIndex(table)
      ensures index == |Births(table.events)| % U32 && index in table.entries && table.entries[index] == this
      ensures requestedLength == length && this.isAligned == isAligned && this.address == address
      ensures adjustedLength == if isAligned then MemAlignRoundedUpExtra(length) else length
    {
      requestedLength, this.isAligned, this.address := length, isAligned, address;
      adjustedLength := if isAligned then MemAlignRoundedUpExtra(length) else length;
      index := 0;
      new;
      var key := table.Register(this);
      index := key;
    }

    /** The destructor. */
    method Delete(table: LiveTable<Memory>)
      requires table.Valid() && KeyedByOwnIndex(table)
      modifies table
      ensures table.Valid() && table.events == old(table.events) + [Died(index)] && KeyedByOwnIndex(table)
    {
      table.Unregister(index);
    }

    /** The block the user of an aligned object works in, as offsets from the start of the allocation. */
    function AlignedBlock(): (int, int) {
      var start := MemAlignPointer(address) - address;
      (start, start + requestedLength)
    }
  }

  /** An aligned object's block lies inside its allocation exactly under the condition of FitsIff. */
  lemma BlockInAllocation(m: Memory)
    requires m.isAligned && m.adjustedLength == MemAlignRoundedUpExtra(m.requestedLength)
    requires m.address + 127 < U32 && m.requestedLength + 128 < U32
    ensures var (start, end) := m.AlignedBlock();
            0 <= start && end <= m.adjustedLength <==> m.address % 64 == 0 || m.address % 64 >= m.requestedLength % 64
  {
    hide MemAlignPointer, MemAlignRoundedUpExtra;
    AlignedIff(m.address);
    FitsIff(m.address, m.requestedLength);
  }
}
