/** What one pass of `periodic_memory_check` does to memory. */
module RegionRepair {
  import opened Bits
  import opened Regions
  import opened RegionTable

  function Content(mem: seq<byte>, r: Region): seq<byte>
    requires r.start + r.size <= |mem|
  {
    Slice(mem, r.start, r.size)
  }

  /** Entries `i` and `i + 1` are a pair, neither copy at address 0. */
  ghost predicate ActivePair(table: seq<Region>, i: nat) {
    i + 1 < |table| && Mutual(table[i], table[i + 1]) && table[i].start != 0 && table[i + 1].start != 0
  }

  // ---------------------------------------------------------------- framing

  lemma OverwriteElsewhere(mem: seq<byte>, a: nat, bytes: seq<byte>, b: nat, n: nat)
    requires a + |bytes| <= |mem| && b + n <= |mem|
    requires b + n <= a || a + |bytes| <= b || |bytes| == 0 || n == 0
    ensures Slice(Overwritten(mem, a, bytes), b, n) == Slice(mem, b, n)
  {
    var r := Overwritten(mem, a, bytes);
    forall k | b <= k < b + n ensures r[k] == mem[k] {
      if k >= a { assert r[k] == mem[a + |bytes|..][k - a - |bytes|]; }
    }
  }

  lemma OverwriteHere(mem: seq<byte>, a: nat, bytes: seq<byte>)
    requires a + |bytes| <= |mem|
    ensures Slice(Overwritten(mem, a, bytes), a, |bytes|) == bytes
  {}

  /** The entry a redundant entry is paired with. */
  lemma Partner(table: seq<Region>, j: nat) returns (k: nat)
    requires Layout(table) && j < |table| && table[j].redundant
    ensures k < |table| && (k == j + 1 || k + 1 == j)
    ensures table[k].redundant && table[j].partner == table[k].start && table[k].partner == table[j].start
    ensures table[j].size == table[k].size
  {
    assert PairedAt(table, j);
    k := if j + 1 < |table| && Mutual(table[j], table[j + 1]) then j + 1 else j - 1;
  }

  lemma Apart(table: seq<Region>, i: nat, j: nat)
    requires Layout(table) && i < |table| && j < |table| && i != j
    ensures !Overlap(table[i].start, table[i].size, table[j].start, table[j].size)
  {
    if i < j {
      assert !Overlap(table[i].start, table[i].size, table[j].start, table[j].size);
    } else {
      assert !Overlap(table[j].start, table[j].size, table[i].start, table[i].size);
    }
  }

  lemma SameStart(table: seq<Region>, i: nat, j: nat)
    requires Layout(table) && i < |table| && j < |table| && i != j && table[i].start == table[j].start
    ensures table[i].size == 0 || table[j].size == 0
  {
    Apart(table, i, j);
  }

  /** Region `j` is not the partner of region `m`, or there is nothing to write. */
  ghost predicate Harmless(table: seq<Region>, j: nat, m: nat)
    requires j < |table| && m < |table|
  {
    table[j].redundant && table[j].partner == table[m].start ==> table[m].size == 0 || table[j].size == 0
  }

  /** Checking region `j` leaves every region's content alone but that of its partner. */
  lemma CheckKeepsOthers(crc: Crc, table: seq<Region>, mem: seq<byte>, j: nat, m: nat)
    requires Layout(table) && InMemory(table, |mem|) && j < |table| && m < |table|
    requires Harmless(table, j, m)
    ensures Content(CheckRegion(crc, mem, table[j]).mem, table[m]) == Content(mem, table[m])
  {
    if table[j].redundant {
      var k := Partner(table, j);
      if k != m { Apart(table, k, m); }
      OverwriteElsewhere(mem, table[j].partner, Content(mem, table[j]), table[m].start, table[m].size);
    }
  }

  /** A pair's copies are only written while the pair itself is checked. */
  lemma OnlyPairWritesPair(table: seq<Region>, i: nat, j: nat, m: nat)
    requires Layout(table) && i + 1 < |table| && Mutual(table[i], table[i + 1]) && j < |table|
    requires j != i && j != i + 1 && (m == i || m == i + 1)
    ensures Harmless(table, j, m)
  {
    if table[j].redundant && table[j].partner == table[m].start {
      var k := Partner(table, j);
      if k == m {
        SameStart(table, j, if m == i then i + 1 else i);
      } else {
        SameStart(table, k, m);
      }
    }
  }

  /** Plain regions are never written. */
  lemma NothingWritesPlain(table: seq<Region>, j: nat, m: nat)
    requires Layout(table) && j < |table| && m < |table| && !table[m].redundant
    ensures Harmless(table, j, m)
  {
    if table[j].redundant && table[j].partner == table[m].start {
      var k := Partner(table, j);
      SameStart(table, k, m);
    }
  }

  /** Neither copy of a pair is written while another entry is checked. */
  lemma PairHarmless(table: seq<Region>, i: nat, j: nat)
    requires Layout(table) && i + 1 < |table| && Mutual(table[i], table[i + 1])
    requires j < |table| && j != i && j != i + 1
    ensures Harmless(table, j, i) && Harmless(table, j, i + 1)
  {
    OnlyPairWritesPair(table, i, j, i);
    OnlyPairWritesPair(table, i, j, i + 1);
  }

  lemma {:induction false} RestKeeps(crc: Crc, table: seq<Region>, mem: seq<byte>, j: nat, m: nat)
    requires Layout(table) && InMemory(table, |mem|) && j <= |table| && m < |table|
    requires forall k | j <= k < |table| :: Harmless(table, k, m)
    ensures Content(CheckFrom(crc, table, mem, j).mem, table[m]) == Content(mem, table[m])
    decreases |table| - j
  {
    if j < |table| {
      CheckKeepsOthers(crc, table, mem, j, m);
      RestKeeps(crc, table, CheckRegion(crc, mem, table[j]).mem, j + 1, m);
    }
  }

  lemma RestKeepsPair(crc: Crc, table: seq<Region>, mem: seq<byte>, i: nat)
    requires Layout(table) && InMemory(table, |mem|) && i + 1 < |table| && Mutual(table[i], table[i + 1])
    ensures Kept(mem, CheckFrom(crc, table, mem, i + 2).mem, table[i], table[i + 1])
  {
    forall k | i + 2 <= k < |table| ensures Harmless(table, k, i) && Harmless(table, k, i + 1) {
      PairHarmless(table, i, k);
    }
    RestKeeps(crc, table, mem, i + 2, i);
    RestKeeps(crc, table, mem, i + 2, i + 1);
  }

  // ---------------------------------------------------------------- the repair of one pair

  /** What the pass leaves in both copies of a pair, or nothing when both copies are bad. */
  function Survivor(crc: Crc, mem: seq<byte>, p: Region, s: Region): seq<seq<byte>>
    requires p.start + p.size <= |mem| && s.start + s.size <= |mem|
  {
    if Intact(crc, mem, p) then [Content(mem, p)]
    else if Intact(crc, mem, s) then [Content(mem, s)]
    else []
  }

  ghost predicate InBounds(mem: seq<byte>, p: Region, s: Region) {
    p.start + p.size <= |mem| && s.start + s.size <= |mem|
  }

  /** Neither copy is written between `mem` and `after`. */
  ghost predicate Kept(mem: seq<byte>, after: seq<byte>, p: Region, s: Region)
    requires InBounds(mem, p, s) && InBounds(after, p, s)
  {
    Content(after, p) == Content(mem, p) && Content(after, s) == Content(mem, s)
  }

  /** Between `mem` and `after` both copies become the surviving content, if there is one. */
  ghost predicate Repaired(crc: Crc, mem: seq<byte>, after: seq<byte>, p: Region, s: Region)
    requires InBounds(mem, p, s) && InBounds(after, p, s)
  {
    var survivor := Survivor(crc, mem, p, s);
    if survivor == [] then Kept(mem, after, p, s) else Content(after, p) == Content(after, s) == survivor[0]
  }

  lemma KeptThenRepaired(crc: Crc, mem: seq<byte>, mid: seq<byte>, after: seq<byte>, p: Region, s: Region)
    requires InBounds(mem, p, s) && InBounds(mid, p, s) && InBounds(after, p, s)
    requires || (Kept(mem, mid, p, s) && Repaired(crc, mid, after, p, s))
             || (Repaired(crc, mem, mid, p, s) && Kept(mid, after, p, s))
    ensures Repaired(crc, mem, after, p, s)
  {}

  /** Checking the two entries of a pair in turn. A corrupted primary waits for its partner's turn. */
  lemma PairChecked(crc: Crc, mem: seq<byte>, p: Region, s: Region)
    requires Mutual(p, s) && p.start != 0 && s.start != 0 && !Overlap(p.start, p.size, s.start, s.size)
    requires InBounds(mem, p, s)
    ensures Repaired(crc, mem, CheckRegion(crc, CheckRegion(crc, mem, p).mem, s).mem, p, s)
  {
    var mid := CheckRegion(crc, mem, p).mem;
    if p.size > 0 {
      OverwriteElsewhere(mem, s.start, Content(mem, p), p.start, p.size);
      OverwriteElsewhere(mid, p.start, Content(mid, s), s.start, s.size);
    }
    OverwriteHere(mem, s.start, Content(mem, p));
    OverwriteHere(mid, p.start, Content(mid, s));
  }

  lemma PassAtPair(crc: Crc, table: seq<Region>, mem: seq<byte>, i: nat)
    requires Layout(table) && InMemory(table, |mem|) && ActivePair(table, i)
    ensures Repaired(crc, mem, CheckFrom(crc, table, mem, i).mem, table[i], table[i + 1])
  {
    Apart(table, i, i + 1);
    PairChecked(crc, mem, table[i], table[i + 1]);
    var checked := CheckRegion(crc, CheckRegion(crc, mem, table[i]).mem, table[i + 1]).mem;
    RestKeepsPair(crc, table, checked, i);
    KeptThenRepaired(crc, mem, checked, CheckFrom(crc, table, checked, i + 2).mem, table[i], table[i + 1]);
  }

  lemma PrimaryKept(crc: Crc, table: seq<Region>, mem: seq<byte>, i: nat, j: nat)
    requires Layout(table) && InMemory(table, |mem|) && ActivePair(table, i) && j < i
    ensures Content(CheckRegion(crc, mem, table[j]).mem, table[i]) == Content(mem, table[i])
  {
    OnlyPairWritesPair(table, i, j, i);
    CheckKeepsOthers(crc, table, mem, j, i);
  }

  lemma SecondaryKept(crc: Crc, table: seq<Region>, mem: seq<byte>, i: nat, j: nat)
    requires Layout(table) && InMemory(table, |mem|) && ActivePair(table, i) && j < i
    ensures Content(CheckRegion(crc, mem, table[j]).mem, table[i + 1]) == Content(mem, table[i + 1])
  {
    OnlyPairWritesPair(table, i, j, i + 1);
    CheckKeepsOthers(crc, table, mem, j, i + 1);
  }

  lemma PassBeforePair(crc: Crc, table: seq<Region>, mem: seq<byte>, i: nat, j: nat)
    requires Layout(table) && InMemory(table, |mem|) && ActivePair(table, i) && j < i
    ensures Kept(mem, CheckRegion(crc, mem, table[j]).mem, table[i], table[i + 1])
  {
    PrimaryKept(crc, table, mem, i, j);
    SecondaryKept(crc, table, mem, i, j);
  }

  lemma PassFromPairStep(crc: Crc, table: seq<Region>, mem: seq<byte>, i: nat, j: nat)
    requires Layout(table) && InMemory(table, |mem|) && ActivePair(table, i) && j < i
    requires var mid := CheckRegion(crc, mem, table[j]).mem;
             Repaired(crc, mid, CheckFrom(crc, table, mid, j + 1).mem, table[i], table[i + 1])
    ensures Repaired(crc, mem, CheckFrom(crc, table, mem, j).mem, table[i], table[i + 1])
  {
    var mid := CheckRegion(crc, mem, table[j]).mem;
    PassBeforePair(crc, table, mem, i, j);
    KeptThenRepaired(crc, mem, mid, CheckFrom(crc, table, mid, j + 1).mem, table[i], table[i + 1]);
  }

  lemma {:induction false} PassFromPair(crc: Crc, table: seq<Region>, mem: seq<byte>, i: nat, j: nat)
    requires Layout(table) && InMemory(table, |mem|) && ActivePair(table, i) && j <= i
    ensures Repaired(crc, mem, CheckFrom(crc, table, mem, j).mem, table[i], table[i + 1])
    decreases i - j
  {
    if j == i {
      PassAtPair(crc, table, mem, i);
    } else {
      PassFromPair(crc, table, CheckRegion(crc, mem, table[j]).mem, i, j + 1);
      PassFromPairStep(crc, table, mem, i, j);
    }
  }

  /** The repair theorem: after one pass both copies of a pair hold what the primary held if its
      CRC was right, otherwise what the secondary held if its CRC was right; when neither was,
      both are as before. */
  lemma PassRepairsPair(crc: Crc, table: seq<Region>, mem: seq<byte>, i: nat)
    requires Layout(table) && InMemory(table, |mem|) && ActivePair(table, i)
    ensures Repaired(crc, mem, CheckPass(crc, table, mem).mem, table[i], table[i + 1])
  {
    PassFromPair(crc, table, mem, i, 0);
  }

  // ---------------------------------------------------------------- everything else

  predicate InRedundant(table: seq<Region>, a: nat) {
    exists r <- table :: r.redundant && r.start <= a < r.start + r.size
  }

  lemma CheckKeepsByte(crc: Crc, table: seq<Region>, mem: seq<byte>, a: nat, j: nat)
    requires Layout(table) && InMemory(table, |mem|) && a < |mem| && !InRedundant(table, a) && j < |table|
    ensures CheckRegion(crc, mem, table[j]).mem[a] == mem[a]
  {
    if table[j].redundant {
      var k := Partner(table, j);
      assert table[k] in table;
      assert a < table[j].partner || a >= table[j].partner + table[j].size;
    }
  }

  lemma {:induction false} PassKeepsByte(crc: Crc, table: seq<Region>, mem: seq<byte>, a: nat, j: nat)
    requires Layout(table) && InMemory(table, |mem|) && a < |mem| && !InRedundant(table, a) && j <= |table|
    ensures CheckFrom(crc, table, mem, j).mem[a] == mem[a]
    decreases |table| - j
  {
    if j < |table| {
      CheckKeepsByte(crc, table, mem, a, j);
      PassKeepsByte(crc, table, CheckRegion(crc, mem, table[j]).mem, a, j + 1);
    }
  }

  /** A pass changes no byte outside the redundant copies. */
  lemma PassKeepsTheRest(crc: Crc, table: seq<Region>, mem: seq<byte>, a: nat)
    requires Layout(table) && InMemory(table, |mem|) && a < |mem| && !InRedundant(table, a)
    ensures CheckPass(crc, table, mem).mem[a] == mem[a]
  {
    PassKeepsByte(crc, table, mem, a, 0);
  }

  // ---------------------------------------------------------------- from registration to repair

  /** A pair registered with equal contents has one CRC for both copies. */
  ghost predicate RegisteredEqual(crc: Crc, table: seq<Region>, i: nat, content: seq<byte>) {
    ActivePair(table, i) && table[i].crc == table[i + 1].crc == crc(content) && |content| == table[i].size
  }

  lemma SetupRegistersEqual(crc: Crc, table: seq<Region>, mem: seq<byte>, primary: nat, secondary: nat, size: nat)
    requires TableInv(table) && primary + size <= |mem| && secondary + size <= |mem| && primary != 0 && secondary != 0
    requires SetupRedundant(crc, table, mem, primary, secondary, size).ret == 0
    requires Slice(mem, primary, size) == Slice(mem, secondary, size)
    ensures var after := SetupRedundant(crc, table, mem, primary, secondary, size).table;
            RegisteredEqual(crc, after, |table|, Slice(mem, primary, size))
  {
    RedundantKeepsTable(crc, table, mem, primary, secondary, size);
  }

  /** If at least one copy still matches the recorded CRC, one pass leaves the copies equal and
      matching it. */
  lemma OneGoodCopyIsEnough(crc: Crc, table: seq<Region>, mem: seq<byte>, i: nat, content: seq<byte>)
    requires Layout(table) && InMemory(table, |mem|) && RegisteredEqual(crc, table, i, content)
    requires Intact(crc, mem, table[i]) || Intact(crc, mem, table[i + 1])
    ensures var after := CheckPass(crc, table, mem).mem;
            Content(after, table[i]) == Content(after, table[i + 1]) && crc(Content(after, table[i])) == crc(content)
  {
    PassRepairsPair(crc, table, mem, i);
  }

  /** Call `j` succeeds in registering a redundant pair, at nonzero addresses, both copies of which
      hold `content` at the time. */
  ghost predicate Registers(crc: Crc, calls: seq<Call>, j: nat, content: seq<byte>)
    requires (forall c <- calls :: Addressable(c)) && j < |calls|
  {
    var c := calls[j];
    && Addressable(c) && c.request.RedundantRequest? && c.request.primary != 0 && c.request.secondary != 0
    && Slice(c.mem, c.request.primary, c.request.copySize) == content
    && Slice(c.mem, c.request.secondary, c.request.copySize) == content
    && Apply(crc, TableAfter(crc, calls[..j]), c).ret == 0
  }

  /** Entries `i` and `i + 1` are the pair of this request. */
  ghost predicate Holds(crc: Crc, table: seq<Region>, i: nat, request: Request, content: seq<byte>)
    requires request.RedundantRequest?
  {
    && RegisteredEqual(crc, table, i, content)
    && table[i].start == request.primary && table[i + 1].start == request.secondary && table[i].size == request.copySize
  }

  lemma RegisteredAtOnce(crc: Crc, table: seq<Region>, c: Call, content: seq<byte>)
    requires Addressable(c) && c.request.RedundantRequest? && c.request.primary != 0 && c.request.secondary != 0
    requires Slice(c.mem, c.request.primary, c.request.copySize) == content
    requires Slice(c.mem, c.request.secondary, c.request.copySize) == content
    requires Apply(crc, table, c).ret == 0
    ensures Holds(crc, Apply(crc, table, c).table, |table|, c.request, content)
  {
    RedundantOutcome(crc, table, c.mem, c.request.primary, c.request.secondary, c.request.copySize);
  }

  /** The entries of a successful redundant request are in every later table. */
  lemma RegisteredStays(crc: Crc, calls: seq<Call>, j: nat, content: seq<byte>)
    requires (forall c <- calls :: Addressable(c)) && j < |calls|
    requires Registers(crc, calls, j, content)
    ensures Holds(crc, TableAfter(crc, calls), |TableAfter(crc, calls[..j])|, calls[j].request, content)
  {
    RegisteredAtOnce(crc, TableAfter(crc, calls[..j]), calls[j], content);
    assert calls[..j + 1][..j] == calls[..j];
    assert TableAfter(crc, calls[..j + 1]) == Apply(crc, TableAfter(crc, calls[..j]), calls[j]).table;
    TableOnlyGrows(crc, calls, j + 1);
  }

  lemma HeldPairRepaired(crc: Crc, table: seq<Region>, i: nat, r: Request, content: seq<byte>, mem: seq<byte>)
    requires Layout(table) && InMemory(table, |mem|) && r.RedundantRequest? && Holds(crc, table, i, r, content)
    requires r.primary + r.copySize <= |mem| && r.secondary + r.copySize <= |mem|
    requires || crc(Slice(mem, r.primary, r.copySize)) == crc(content)
             || crc(Slice(mem, r.secondary, r.copySize)) == crc(content)
    ensures var after := CheckPass(crc, table, mem).mem;
            && Slice(after, r.primary, r.copySize) == Slice(after, r.secondary, r.copySize)
            && crc(Slice(after, r.primary, r.copySize)) == crc(content)
  {
    OneGoodCopyIsEnough(crc, table, mem, i, content);
  }

  /** From registration to repair: a pair registered with equal contents, whatever is registered
      before and after it and whatever memory has become, is repaired by one pass while at least one
      of its copies has the CRC of what was registered. */
  lemma RegisteredPairRepaired(crc: Crc, calls: seq<Call>, j: nat, content: seq<byte>, mem: seq<byte>)
    requires (forall c <- calls :: Addressable(c)) && j < |calls|
    requires Registers(crc, calls, j, content) && InMemory(TableAfter(crc, calls), |mem|)
    requires var r := calls[j].request;
             && r.primary + r.copySize <= |mem| && r.secondary + r.copySize <= |mem|
             && (crc(Slice(mem, r.primary, r.copySize)) == crc(content)
                 || crc(Slice(mem, r.secondary, r.copySize)) == crc(content))
    ensures var r, after := calls[j].request, CheckPass(crc, TableAfter(crc, calls), mem).mem;
            Slice(after, r.primary, r.copySize) == Slice(after, r.secondary, r.copySize)
            && crc(Slice(after, r.primary, r.copySize)) == crc(content)
  {
    EveryTable(crc, calls);
    RegisteredStays(crc, calls, j, content);
    HeldPairRepaired(crc, TableAfter(crc, calls), |TableAfter(crc, calls[..j])|, calls[j].request, content, mem);
  }

  /** If one copy still holds what was registered, one pass restores it in both exactly when the
      primary is that copy or the CRC tells it apart from what was registered. */
  lemma OneTrueCopyRestored(crc: Crc, table: seq<Region>, mem: seq<byte>, i: nat, content: seq<byte>)
    requires Layout(table) && InMemory(table, |mem|) && RegisteredEqual(crc, table, i, content)
    requires Content(mem, table[i]) == content || Content(mem, table[i + 1]) == content
    ensures var after := CheckPass(crc, table, mem).mem;
            (Content(after, table[i]) == content && Content(after, table[i + 1]) == content)
            <==> (Content(mem, table[i]) == content || crc(Content(mem, table[i])) != crc(content))
  {
    PassRepairsPair(crc, table, mem, i);
  }

  // ---------------------------------------------------------------- a second pass

  /** A pair that differs has no copy with the right CRC. */
  ghost predicate NothingToCopy(crc: Crc, mem: seq<byte>, r: Region)
    requires r.start + r.size <= |mem| && (r.redundant ==> r.partner + r.size <= |mem|)
  {
    r.start == 0 || !r.redundant || r.partner == 0 || !Intact(crc, mem, r)
    || Slice(mem, r.start, r.size) == Slice(mem, r.partner, r.size)
  }

  lemma PairSettled(crc: Crc, table: seq<Region>, mem: seq<byte>, i: nat)
    requires Layout(table) && InMemory(table, |mem|) && ActivePair(table, i)
    ensures var after := CheckPass(crc, table, mem).mem;
            NothingToCopy(crc, after, table[i]) && NothingToCopy(crc, after, table[i + 1])
  {
    PassRepairsPair(crc, table, mem, i);
  }

  lemma PairOf(table: seq<Region>, j: nat) returns (i: nat)
    requires Layout(table) && j < |table| && table[j].redundant && table[j].start != 0 && table[j].partner != 0
    ensures ActivePair(table, i) && (i == j || i + 1 == j)
  {
    assert PairedAt(table, j);
    i := if ActivePair(table, j) then j else j - 1;
  }

  lemma SettledAfterPass(crc: Crc, table: seq<Region>, mem: seq<byte>, j: nat)
    requires Layout(table) && InMemory(table, |mem|) && j < |table|
    ensures NothingToCopy(crc, CheckPass(crc, table, mem).mem, table[j])
  {
    if table[j].redundant && table[j].start != 0 && table[j].partner != 0 {
      var i := PairOf(table, j);
      PairSettled(crc, table, mem, i);
    }
  }

  lemma {:induction false} SettledPass(crc: Crc, table: seq<Region>, mem: seq<byte>, i: nat)
    requires InMemory(table, |mem|) && i <= |table|
    requires forall j | 0 <= j < |table| :: NothingToCopy(crc, mem, table[j])
    ensures CheckFrom(crc, table, mem, i).mem == mem
    decreases |table| - i
  {
    if i < |table| { SettledPass(crc, table, mem, i + 1); }
  }

  /** A second pass changes nothing. */
  lemma PassIsIdempotent(crc: Crc, table: seq<Region>, mem: seq<byte>)
    requires Layout(table) && InMemory(table, |mem|)
    ensures var after := CheckPass(crc, table, mem).mem; CheckPass(crc, table, after).mem == after
  {
    var after := CheckPass(crc, table, mem).mem;
    forall j | 0 <= j < |table| ensures NothingToCopy(crc, after, table[j]) {
      SettledAfterPass(crc, table, mem, j);
    }
    SettledPass(crc, table, after, 0);
  }

  /** Entries `i` and `i + 1` are a pair with one recorded CRC that a copy still matches. */
  ghost predicate GoodPair(crc: Crc, table: seq<Region>, mem: seq<byte>, i: nat)
    requires InMemory(table, |mem|)
  {
    ActivePair(table, i) && table[i].crc == table[i + 1].crc
    && (Intact(crc, mem, table[i]) || Intact(crc, mem, table[i + 1]))
  }

  ghost predicate RepairableAt(crc: Crc, table: seq<Region>, mem: seq<byte>, j: nat)
    requires InMemory(table, |mem|) && j < |table|
  {
    if table[j].redundant then GoodPair(crc, table, mem, j) || (j > 0 && GoodPair(crc, table, mem, j - 1))
    else table[j].start != 0 ==> Intact(crc, mem, table[j])
  }

  lemma GoodPairAfterPass(crc: Crc, table: seq<Region>, mem: seq<byte>, i: nat)
    requires Layout(table) && InMemory(table, |mem|) && GoodPair(crc, table, mem, i)
    ensures var after := CheckPass(crc, table, mem).mem;
            Intact(crc, after, table[i]) && Intact(crc, after, table[i + 1])
  {
    PassRepairsPair(crc, table, mem, i);
  }

  lemma PassKeepsPlain(crc: Crc, table: seq<Region>, mem: seq<byte>, m: nat)
    requires Layout(table) && InMemory(table, |mem|) && m < |table| && !table[m].redundant
    ensures Content(CheckPass(crc, table, mem).mem, table[m]) == Content(mem, table[m])
  {
    forall k | 0 <= k < |table| ensures Harmless(table, k, m) { NothingWritesPlain(table, k, m); }
    RestKeeps(crc, table, mem, 0, m);
  }

  lemma PlainIntactAfterPass(crc: Crc, table: seq<Region>, mem: seq<byte>, j: nat)
    requires Layout(table) && InMemory(table, |mem|) && j < |table| && !table[j].redundant && Intact(crc, mem, table[j])
    ensures Intact(crc, CheckPass(crc, table, mem).mem, table[j])
  {
    PassKeepsPlain(crc, table, mem, j);
  }

  lemma RedundantIntactAfterPass(crc: Crc, table: seq<Region>, mem: seq<byte>, j: nat)
    requires Layout(table) && InMemory(table, |mem|)
    requires j < |table| && table[j].redundant && RepairableAt(crc, table, mem, j)
    ensures Intact(crc, CheckPass(crc, table, mem).mem, table[j])
  {
    GoodPairAfterPass(crc, table, mem, if GoodPair(crc, table, mem, j) then j else j - 1);
  }

  lemma IntactAfterPass(crc: Crc, table: seq<Region>, mem: seq<byte>, j: nat)
    requires Layout(table) && InMemory(table, |mem|) && j < |table| && RepairableAt(crc, table, mem, j)
    ensures table[j].start == 0 || Intact(crc, CheckPass(crc, table, mem).mem, table[j])
  {
    if table[j].redundant {
      RedundantIntactAfterPass(crc, table, mem, j);
    } else if table[j].start != 0 {
      PlainIntactAfterPass(crc, table, mem, j);
    }
  }

  /** The check of this region finds nothing: it is inactive, or has its CRC and equals its copy. */
  ghost predicate Sound(crc: Crc, mem: seq<byte>, r: Region)
    requires r.start + r.size <= |mem| && (r.redundant ==> r.partner + r.size <= |mem|)
  {
    || r.start == 0
    || (&& Intact(crc, mem, r)
        && (r.redundant && r.partner != 0 ==> Slice(mem, r.start, r.size) == Slice(mem, r.partner, r.size)))
  }

  lemma {:induction false} DetectsFrom(crc: Crc, table: seq<Region>, mem: seq<byte>, i: nat)
    requires InMemory(table, |mem|) && i <= |table|
    ensures CheckFrom(crc, table, mem, i).violations == []
       <==> forall j | i <= j < |table| :: Sound(crc, mem, table[j])
    decreases |table| - i
  {
    if i < |table| && Sound(crc, mem, table[i]) { DetectsFrom(crc, table, mem, i + 1); }
  }

  /** What a pass detects, whatever the table: it reports no violation exactly when every active region
      has its CRC and equals the copy it points to. */
  lemma PassDetects(crc: Crc, table: seq<Region>, mem: seq<byte>)
    requires InMemory(table, |mem|)
    ensures CheckPass(crc, table, mem).violations == [] <==> forall j | 0 <= j < |table| :: Sound(crc, mem, table[j])
  {
    DetectsFrom(crc, table, mem, 0);
  }

  /** When plain regions are intact and every redundant entry is in a good pair, the pass after
      this one reports no violation. */
  lemma RepairedMemoryIsQuiet(crc: Crc, table: seq<Region>, mem: seq<byte>)
    requires Layout(table) && InMemory(table, |mem|)
    requires forall j | 0 <= j < |table| :: RepairableAt(crc, table, mem, j)
    ensures CheckPass(crc, table, CheckPass(crc, table, mem).mem).violations == []
  {
    var after := CheckPass(crc, table, mem).mem;
    forall j | 0 <= j < |table|
      ensures table[j].start == 0 || Intact(crc, after, table[j])
      ensures NothingToCopy(crc, after, table[j])
    {
      IntactAfterPass(crc, table, mem, j);
      SettledAfterPass(crc, table, mem, j);
    }
    PassDetects(crc, table, after);
  }
}
