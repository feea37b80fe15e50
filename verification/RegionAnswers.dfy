/** How every registration is answered, and what the check of a region reports. */
module RegionAnswers {
  import opened Bits
  import opened Regions
  import opened RegionTable
  import opened RegionRepair

  ghost predicate Within(x: nat, a: nat, n: nat) {
    a <= x < a + n
  }

  /** Two regions overlap when they have a byte in common. */
  lemma OverlapShares(a: nat, n: nat, b: nat, m: nat)
    requires n > 0 && m > 0
    ensures Overlap(a, n, b, m) <==> exists x: nat :: Within(x, a, n) && Within(x, b, m)
  {
    if Overlap(a, n, b, m) {
      var x := if a < b then b else a;
      assert Within(x, a, n) && Within(x, b, m);
    }
  }

  /** Why a region is refused, the tests being made in this order; 0 when it is not. */
  ghost function Refusal(table: seq<Region>, address: nat, size: nat): int {
    if address % 4096 != 0 then -5
    else if |table| >= 16 then -2
    else if exists i | 0 <= i < |table| ::
              address < table[i].start + table[i].size && table[i].start < address + size then -4
    else 0
  }

  /** A region as it is recorded: with the CRC of what it holds now, and not as a copy. */
  function Recorded(crc: Crc, mem: seq<byte>, address: nat, size: nat, flags: uint32): Region
    requires address + size <= |mem|
  {
    Region(address, size, flags, crc(mem[address..address + size]), false, 0)
  }

  lemma ProtectAnswered(crc: Crc, table: seq<Region>, mem: seq<byte>, address: nat, size: nat, flags: uint32)
    requires address + size <= |mem|
    ensures var p, why := Protect(crc, table, mem, address, size, flags), Refusal(table, address, size);
            p.ret == why && p.table == if why == 0 then table + [Recorded(crc, mem, address, size, flags)] else table
  {
    if OverlapsTable(table, address, size) {
      var r :| r in table && Overlap(address, size, r.start, r.size);
      var i :| 0 <= i < |table| && table[i] == r;
    } else {
      forall i | 0 <= i < |table| ensures !Overlap(address, size, table[i].start, table[i].size) {
        assert table[i] in table;
      }
    }
  }

  /** A stack gets a page without access at its low end, and, if that was registered, one at its high end. */
  lemma StackAnswered(crc: Crc, table: seq<Region>, mem: seq<byte>, stack: nat, stackSize: nat)
    requires StackInMemory(mem, stack, stackSize)
    ensures var p, top := ProtectStack(crc, table, mem, stack, stackSize), stack + stackSize - 4096;
            var low, high := Recorded(crc, mem, stack, 4096, 0), Recorded(crc, mem, top, 4096, 0);
            if Refusal(table, stack, 4096) != 0 then p == Registered(table, Refusal(table, stack, 4096))
            else if Refusal(table + [low], top, 4096) != 0 then
              p == Registered(table + [low], Refusal(table + [low], top, 4096))
            else p == Registered(table + [low, high], 0)
  {
    var low := Recorded(crc, mem, stack, 4096, 0);
    ProtectAnswered(crc, table, mem, stack, 4096, 0);
    ProtectAnswered(crc, table + [low], mem, stack + stackSize - 4096, 4096, 0);
  }

  /** A pair is refused when the table has no two entries left, and otherwise as its first copy that is. */
  lemma RedundantAnswered(crc: Crc, table: seq<Region>, mem: seq<byte>, primary: nat, secondary: nat, size: nat)
    requires primary + size <= |mem| && secondary + size <= |mem|
    ensures var s := SetupRedundant(crc, table, mem, primary, secondary, size);
            var first, second := Recorded(crc, mem, primary, size, 3), Recorded(crc, mem, secondary, size, 3);
            var why := Refusal(table + [first], secondary, size);
            if |table| >= 15 then s == Registered(table, -2)
            else if Refusal(table, primary, size) != 0 then s == Registered(table, Refusal(table, primary, size))
            else if why != 0 then s == Registered(table + [first], why)
            else s == Registered(table + [first.(redundant := true, partner := secondary),
                                          second.(redundant := true, partner := primary)], 0)
  {
    var first := Recorded(crc, mem, primary, size, 3);
    ProtectAnswered(crc, table, mem, primary, size, 3);
    ProtectAnswered(crc, table + [first], mem, secondary, size, 3);
  }

  // ---------------------------------------------------------------- reports

  /** The check of one region reports it once, by its start, exactly when it is not sound. */
  lemma EntryReports(crc: Crc, mem: seq<byte>, r: Region)
    requires r.start + r.size <= |mem| && (r.redundant ==> r.partner + r.size <= |mem|)
    ensures CheckRegion(crc, mem, r).violations == if Sound(crc, mem, r) then [] else [r.start]
  {}

  /** The first report of a pass is the first region that is not sound. */
  lemma {:induction false} FirstReport(crc: Crc, table: seq<Region>, mem: seq<byte>, i: nat, k: nat)
    requires InMemory(table, |mem|) && i <= k < |table| && !Sound(crc, mem, table[k])
    requires forall j | i <= j < k :: Sound(crc, mem, table[j])
    ensures var reports := CheckFrom(crc, table, mem, i).violations;
            reports != [] && reports[0] == table[k].start
    decreases k - i
  {
    EntryReports(crc, mem, table[i]);
    if i < k { FirstReport(crc, table, mem, i + 1, k); }
  }

  /** A pass reports at most one violation an entry, each the start of one. */
  lemma {:induction false} ReportsAreStarts(crc: Crc, table: seq<Region>, mem: seq<byte>, i: nat)
    requires InMemory(table, |mem|) && i <= |table|
    ensures var reports := CheckFrom(crc, table, mem, i).violations;
            |reports| <= |table| - i && forall a <- reports :: exists j | i <= j < |table| :: table[j].start == a
    decreases |table| - i
  {
    if i < |table| {
      var mid := CheckRegion(crc, mem, table[i]).mem;
      EntryReports(crc, mem, table[i]);
      ReportsAreStarts(crc, table, mid, i + 1);
      forall a | a in CheckFrom(crc, table, mem, i).violations
        ensures exists j | i <= j < |table| :: table[j].start == a
      {
        if a in CheckFrom(crc, table, mid, i + 1).violations {
          var j :| i + 1 <= j < |table| && table[j].start == a;
        } else {
          assert table[i].start == a;
        }
      }
    }
  }

  /** A region that is not redundant is reported in a pass whenever its CRC is wrong before it. */
  lemma PlainReported(crc: Crc, table: seq<Region>, mem: seq<byte>, m: nat)
    requires Layout(table) && InMemory(table, |mem|) && m < |table| && !table[m].redundant
    requires table[m].start != 0 && !Intact(crc, mem, table[m])
    ensures table[m].start in CheckPass(crc, table, mem).violations
  {
    PlainReportedFrom(crc, table, mem, m, 0);
  }

  lemma {:induction false} PlainReportedFrom(crc: Crc, table: seq<Region>, mem: seq<byte>, m: nat, i: nat)
    requires Layout(table) && InMemory(table, |mem|) && i <= m < |table| && !table[m].redundant
    requires table[m].start != 0 && !Intact(crc, mem, table[m])
    ensures table[m].start in CheckFrom(crc, table, mem, i).violations
    decreases m - i
  {
    if i < m {
      NothingWritesPlain(table, i, m);
      CheckKeepsOthers(crc, table, mem, i, m);
      PlainReportedFrom(crc, table, CheckRegion(crc, mem, table[i]).mem, m, i + 1);
    }
  }
}
