/** What the region table keeps over every sequence of registrations, failing ones included. */
module RegionTable {
  import opened Bits
  import opened Regions

  /** Two entries hold equal-sized copies and point at each other. */
  ghost predicate Mutual(a: Region, b: Region) {
    a.redundant && b.redundant && a.partner == b.start && b.partner == a.start && a.size == b.size
  }

  /** A redundant entry is next to the entry it points to. */
  ghost predicate PairedAt(table: seq<Region>, i: nat)
    requires i < |table|
  {
    (i + 1 < |table| && Mutual(table[i], table[i + 1])) || (i > 0 && Mutual(table[i - 1], table[i]))
  }

  /** Regions are pairwise disjoint and redundant entries come in pairs. */
  ghost predicate Layout(table: seq<Region>) {
    && (forall i, j | 0 <= i < j < |table| :: !Overlap(table[i].start, table[i].size, table[j].start, table[j].size))
    && (forall i | 0 <= i < |table| && table[i].redundant :: PairedAt(table, i))
  }

  ghost predicate Aligned(table: seq<Region>) {
    forall r <- table :: IsAligned(r.start, PAGE_SIZE)
  }

  ghost predicate TableInv(table: seq<Region>) {
    |table| <= MAX_PROTECTED_REGIONS && Aligned(table) && Layout(table)
  }

  lemma ProtectKeepsTable(crc: Crc, table: seq<Region>, mem: seq<byte>, address: nat, size: nat, flags: uint32)
    requires TableInv(table) && address + size <= |mem|
    ensures var p := Protect(crc, table, mem, address, size, flags);
            && TableInv(p.table)
            && (p.ret != 0 ==> p.table == table)
            && (p.ret == 0 ==> |p.table| == |table| + 1 && p.table[..|table|] == table)
  {
    var p := Protect(crc, table, mem, address, size, flags);
    if p.ret == 0 { AppendKeepsLayout(table, p.table[|table|]); }
  }

  lemma AppendKeepsLayout(table: seq<Region>, r: Region)
    requires Layout(table) && !OverlapsTable(table, r.start, r.size) && !r.redundant
    ensures Layout(table + [r])
  {
    var grown := table + [r];
    forall i | 0 <= i < |grown| && grown[i].redundant ensures PairedAt(grown, i) {
      assert PairedAt(table, i);
    }
    forall i, j | 0 <= i < j < |grown|
      ensures !Overlap(grown[i].start, grown[i].size, grown[j].start, grown[j].size)
    {
      if j == |table| { assert table[i] in table; }
    }
  }

  /** The bytes of the new pair, and only they, decide whether it is registered. */
  ghost predicate PairFits(table: seq<Region>, primary: nat, secondary: nat, size: nat) {
    && |table| + 2 <= MAX_PROTECTED_REGIONS
    && IsAligned(primary, PAGE_SIZE) && IsAligned(secondary, PAGE_SIZE)
    && !OverlapsTable(table, primary, size) && !OverlapsTable(table, secondary, size)
    && !Overlap(primary, size, secondary, size)
  }

  lemma OverlapsAppended(table: seq<Region>, r: Region, address: nat, size: nat)
    ensures OverlapsTable(table + [r], address, size)
       <==> OverlapsTable(table, address, size) || Overlap(address, size, r.start, r.size)
  {
    if Overlap(address, size, r.start, r.size) { assert (table + [r])[|table|] == r; }
    assert forall q <- table :: q in table + [r];
  }

  /** What a redundant setup registers, on any table. */
  lemma RedundantOutcome(crc: Crc, table: seq<Region>, mem: seq<byte>, primary: nat, secondary: nat, size: nat)
    requires primary + size <= |mem| && secondary + size <= |mem|
    ensures var s, flags := SetupRedundant(crc, table, mem, primary, secondary, size), PROT_READ + PROT_WRITE;
            var lone := Region(primary, size, flags, crc(Slice(mem, primary, size)), false, 0);
            && (s.ret == 0 <==> PairFits(table, primary, secondary, size))
            && (s.ret == 0 ==> s.table == table + [
                  Region(primary, size, flags, crc(Slice(mem, primary, size)), true, secondary),
                  Region(secondary, size, flags, crc(Slice(mem, secondary, size)), true, primary)])
            && (s.ret != 0 ==> s.table == table || s.table == table + [lone])
  {
    var first := Protect(crc, table, mem, primary, size, PROT_READ + PROT_WRITE);
    if first.ret == 0 { OverlapsAppended(table, first.table[|table|], secondary, size); }
  }

  /** A redundant setup succeeds exactly when both copies fit. It then appends the pair; when it
      fails it leaves the table as it was or with the primary alone, unpaired. */
  lemma RedundantKeepsTable(crc: Crc, table: seq<Region>, mem: seq<byte>, primary: nat, secondary: nat, size: nat)
    requires TableInv(table) && primary + size <= |mem| && secondary + size <= |mem|
    ensures var s, flags := SetupRedundant(crc, table, mem, primary, secondary, size), PROT_READ + PROT_WRITE;
            var lone := Region(primary, size, flags, crc(Slice(mem, primary, size)), false, 0);
            && TableInv(s.table)
            && (s.ret == 0 <==> PairFits(table, primary, secondary, size))
            && (s.ret == 0 ==> s.table == table + [
                  Region(primary, size, flags, crc(Slice(mem, primary, size)), true, secondary),
                  Region(secondary, size, flags, crc(Slice(mem, secondary, size)), true, primary)])
            && (s.ret != 0 ==> s.table == table || s.table == table + [lone])
  {
    RedundantOutcome(crc, table, mem, primary, secondary, size);
    RedundantKeepsInv(crc, table, mem, primary, secondary, size);
  }

  lemma RedundantKeepsInv(crc: Crc, table: seq<Region>, mem: seq<byte>, primary: nat, secondary: nat, size: nat)
    requires TableInv(table) && primary + size <= |mem| && secondary + size <= |mem|
    ensures TableInv(SetupRedundant(crc, table, mem, primary, secondary, size).table)
  {
    ProtectKeepsTable(crc, table, mem, primary, size, PROT_READ + PROT_WRITE);
    var first := Protect(crc, table, mem, primary, size, PROT_READ + PROT_WRITE);
    if first.ret == 0 {
      ProtectKeepsTable(crc, first.table, mem, secondary, size, PROT_READ + PROT_WRITE);
      var second := Protect(crc, first.table, mem, secondary, size, PROT_READ + PROT_WRITE);
      if second.ret == 0 { MarkPairKeepsTable(second.table, primary, secondary, size); }
    }
  }

  lemma MarkPairKeepsTable(table: seq<Region>, primary: nat, secondary: nat, size: nat)
    requires TableInv(table) && |table| >= 2
    requires !table[|table| - 2].redundant && !table[|table| - 1].redundant
    requires table[|table| - 2].start == primary && table[|table| - 1].start == secondary
    requires table[|table| - 2].size == table[|table| - 1].size == size
    ensures TableInv(MarkPair(table, primary, secondary))
  {
    MarkPairKeepsLayout(table, primary, secondary, size);
    MarkPairKeepsAligned(table, primary, secondary);
  }

  lemma MarkPairKeepsLayout(table: seq<Region>, primary: nat, secondary: nat, size: nat)
    requires Layout(table) && |table| >= 2
    requires !table[|table| - 2].redundant && !table[|table| - 1].redundant
    requires table[|table| - 2].start == primary && table[|table| - 1].start == secondary
    requires table[|table| - 2].size == table[|table| - 1].size == size
    ensures Layout(MarkPair(table, primary, secondary))
  {
    var n, marked := |table|, MarkPair(table, primary, secondary);
    assert Mutual(marked[n - 2], marked[n - 1]);
    forall i | 0 <= i < n && marked[i].redundant ensures PairedAt(marked, i) {
      if i < n - 2 {
        assert PairedAt(table, i);
      }
    }
  }

  lemma MarkPairKeepsAligned(table: seq<Region>, primary: nat, secondary: nat)
    requires Aligned(table) && |table| >= 2
    ensures Aligned(MarkPair(table, primary, secondary))
  {
    var n, marked := |table|, MarkPair(table, primary, secondary);
    forall r | r in marked ensures IsAligned(r.start, PAGE_SIZE) {
      var i :| 0 <= i < n && marked[i] == r;
      assert table[i] in table && table[i].start == r.start;
    }
  }

  lemma StackKeepsTable(crc: Crc, table: seq<Region>, mem: seq<byte>, stack: nat, stackSize: nat)
    requires TableInv(table) && StackInMemory(mem, stack, stackSize)
    ensures TableInv(ProtectStack(crc, table, mem, stack, stackSize).table)
  {
    ProtectKeepsTable(crc, table, mem, stack, STACK_GUARD_SIZE, 0);
    var low := Protect(crc, table, mem, stack, STACK_GUARD_SIZE, 0);
    ProtectKeepsTable(crc, low.table, mem, stack + stackSize - STACK_GUARD_SIZE, STACK_GUARD_SIZE, 0);
  }

  // ---------------------------------------------------------------- whole runs

  datatype Request =
    | ProtectRequest(address: nat, size: nat, flags: uint32)
    | StackRequest(stack: nat, stackSize: nat)
    | RedundantRequest(primary: nat, secondary: nat, copySize: nat)

  /** A request, and the memory as it is when the request is made. */
  datatype Call = Call(mem: seq<byte>, request: Request)

  predicate Addressable(c: Call) {
    match c.request
    case ProtectRequest(address, size, _) => address + size <= |c.mem|
    case StackRequest(stack, stackSize) => StackInMemory(c.mem, stack, stackSize)
    case RedundantRequest(primary, secondary, size) => primary + size <= |c.mem| && secondary + size <= |c.mem|
  }

  function Apply(crc: Crc, table: seq<Region>, c: Call): Registered
    requires Addressable(c)
  {
    match c.request
    case ProtectRequest(address, size, flags) => Protect(crc, table, c.mem, address, size, flags)
    case StackRequest(stack, stackSize) => ProtectStack(crc, table, c.mem, stack, stackSize)
    case RedundantRequest(primary, secondary, size) => SetupRedundant(crc, table, c.mem, primary, secondary, size)
  }

  function TableAfter(crc: Crc, calls: seq<Call>): seq<Region>
    requires forall c <- calls :: Addressable(c)
  {
    if calls == [] then []
    else Apply(crc, TableAfter(crc, calls[..|calls| - 1]), calls[|calls| - 1]).table
  }

  /** Table safety: whatever is registered, in whatever order and with whatever failures, the
      regions stay page-aligned, pairwise disjoint and at most 16, and redundant entries form
      adjacent, equal-sized, mutually pointing pairs. */
  lemma {:induction false} EveryTable(crc: Crc, calls: seq<Call>)
    requires forall c <- calls :: Addressable(c)
    ensures TableInv(TableAfter(crc, calls))
  {
    if calls != [] {
      var last, table := calls[|calls| - 1], TableAfter(crc, calls[..|calls| - 1]);
      EveryTable(crc, calls[..|calls| - 1]);
      assert last in calls;
      match last.request
      case ProtectRequest(address, size, flags) => ProtectKeepsTable(crc, table, last.mem, address, size, flags);
      case StackRequest(stack, stackSize) => StackKeepsTable(crc, table, last.mem, stack, stackSize);
      case RedundantRequest(primary, secondary, size) =>
        RedundantKeepsTable(crc, table, last.mem, primary, secondary, size);
    }
  }

  lemma ApplyAppends(crc: Crc, table: seq<Region>, c: Call)
    requires Addressable(c)
    ensures table <= Apply(crc, table, c).table
  {
    match c.request
    case ProtectRequest(_, _, _) =>
    case StackRequest(_, _) =>
    case RedundantRequest(primary, secondary, size) => RedundantOutcome(crc, table, c.mem, primary, secondary, size);
  }

  /** An entry once registered never changes: later requests, failing or not, only append. */
  lemma {:induction false} TableOnlyGrows(crc: Crc, calls: seq<Call>, n: nat)
    requires (forall c <- calls :: Addressable(c)) && n <= |calls|
    ensures TableAfter(crc, calls[..n]) <= TableAfter(crc, calls)
  {
    if n == |calls| {
      assert calls[..n] == calls;
    } else {
      var init := calls[..|calls| - 1];
      TableOnlyGrows(crc, init, n);
      assert init[..n] == calls[..n];
      ApplyAppends(crc, TableAfter(crc, init), calls[|calls| - 1]);
    }
  }
}
