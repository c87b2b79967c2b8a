/** The on-chip flash driver over a NOR flash: erasing a page sets its bytes to 0xFF, programming a
    32-bit word can only clear bits.  The bytes of a word go to ascending addresses, because the
    processor is little-endian. */
module OnchipFlash {
  import opened Arithmetic
  import opened Errno

  type Byte = bv8

  const ERASED: Byte := 0xFF
  const MAX_REGIONS: nat := 8

  datatype Region = Region(offset: nat, regionSize: nat, numberOfBlocks: nat, blockSize: nat)
  datatype Sector = Sector(enabled: bool, available: bool, start: nat, end: nat)

  // ------------------------------------------------------------------ what programming means

  /** `m` after programming `d` at address `at`. */
  function Programmed(m: seq<Byte>, at: nat, d: seq<Byte>): (r: seq<Byte>)
    requires at + |d| <= |m|
    ensures |r| == |m|
  {
    seq(|m|, x requires 0 <= x < |m| => if at <= x < at + |d| then m[x] & d[x - at] else m[x])
  }

  function Blank(n: nat): (s: seq<Byte>)
    ensures |s| == n
  {
    seq(n, _ => ERASED)
  }

  /** Bytes of 0xFF around the data leave the flash around the data alone. */
  lemma PaddingIsNeutral(m: seq<Byte>, at: nat, p: nat, d: seq<Byte>, q: nat)
    requires at + p + |d| + q <= |m|
    ensures Programmed(m, at, Blank(p) + d + Blank(q)) == Programmed(m, at + p, d)
  {
  }

  /** Programming one run after another programs their concatenation. */
  lemma ProgrammedInTwo(m: seq<Byte>, at: nat, d: seq<Byte>, d': seq<Byte>)
    requires at + |d| + |d'| <= |m|
    ensures Programmed(Programmed(m, at, d), at + |d|, d') == Programmed(m, at, d + d')
  {
  }

  lemma NothingProgrammed(m: seq<Byte>, at: nat)
    requires at <= |m|
    ensures Programmed(m, at, []) == m
  {
  }

  lemma ProgrammedFurther(m: seq<Byte>, at: nat, d: seq<Byte>, a: nat, n: nat)
    requires at + |d| <= |m| && a + n <= |d|
    ensures Programmed(Programmed(m, at, d[..a]), at + a, d[a..][..n]) == Programmed(m, at, d[..a + n])
  {
    ProgrammedInTwo(m, at, d[..a], d[a..][..n]);
    assert d[..a] + d[a..][..n] == d[..a + n];
  }

  /** Programming an erased run stores the data. */
  lemma ProgrammedOverErased(m: seq<Byte>, at: nat, d: seq<Byte>)
    requires at + |d| <= |m| && m[at..at + |d|] == Blank(|d|)
    ensures Programmed(m, at, d) == m[..at] + d + m[at + |d|..]
  {
    forall x | at <= x < at + |d|
      ensures m[x] & d[x - at] == d[x - at]
    {
      assert m[x] == m[at..at + |d|][x - at] == ERASED;
    }
  }

  // ------------------------------------------------------------------ what a flash write means

  /** The start of the page that holds the byte at `x`. */
  function PageOf(x: nat, P: nat): (c: nat)
    requires 0 < P
    ensures c <= x < c + P
  {
    if x < P then 0 else P + PageOf(x - P, P)
  }

  predicate Aligned(x: nat, P: nat)
    requires 0 < P
  {
    PageOf(x, P) == x
  }

  lemma {:induction false} PageOfIs(b: nat, P: nat, x: nat)
    requires 0 < P && Aligned(b, P)
    ensures b <= x < b + P ==> PageOf(x, P) == b
    ensures x < b ==> PageOf(x, P) + P <= b
    ensures b + P <= x ==> b + P <= PageOf(x, P)
  {
    if P <= b && P <= x {
      PageOfIs(b - P, P, x - P);
    }
  }

  lemma {:induction false} AlignedIsMultiple(x: nat, P: nat) returns (k: nat)
    requires 0 < P && Aligned(x, P)
    ensures x == k * P
  {
    if x == 0 {
      k := 0;
    } else {
      k := AlignedIsMultiple(x - P, P);
      k := k + 1;
    }
  }

  lemma MulStep(k: nat, q: nat, P: nat)
    requires k < q
    ensures k * P + P <= q * P
  {
    var gap: nat := q - k - 1;
    assert q * P == k * P + P + gap * P;
  }

  lemma RemainderIsNone(x: nat, P: nat)
    requires 0 < P && Aligned(x, P)
    ensures x % P == 0
  {
    var k := AlignedIsMultiple(x, P);
    var q := x / P;
    var here, down, rest := k * P, q * P, x % P;
    assert here == down + rest;
    if q < k {
      MulStep(q, k, P);
    } else if k < q {
      MulStep(k, q, P);
    }
  }

  /** Some byte of the data that belongs in [lo, hi) and in the page at `c` differs from the flash;
      `d` belongs at `lo`. */
  ghost predicate PageNeeds(m: seq<Byte>, P: nat, c: nat, lo: nat, hi: nat, d: seq<Byte>)
    requires hi <= |m| && hi <= lo + |d|
  {
    exists y | lo <= y < hi && c <= y < c + P :: m[y] != d[y - lo]
  }

  /** The byte at `x` after writing [lo, hi): the data where it was asked for; around it 0xFF if the
      page had to be rewritten and the old byte if not. */
  ghost function Expected(m: seq<Byte>, P: nat, lo: nat, hi: nat, d: seq<Byte>, x: nat): Byte
    requires 0 < P && hi <= |m| && hi <= lo + |d| && x < |m|
  {
    if lo <= x < hi then d[x - lo]
    else if PageNeeds(m, P, PageOf(x, P), lo, hi, d) then ERASED
    else m[x]
  }

  ghost predicate IsWritten(m: seq<Byte>, m': seq<Byte>, P: nat, lo: nat, hi: nat, d: seq<Byte>)
    requires 0 < P && hi <= |m| && hi <= lo + |d|
  {
    |m'| == |m| && forall x | 0 <= x < |m| :: m'[x] == Expected(m, P, lo, hi, d, x)
  }

  /** One page more: `m'` has [lo, mid) written, and `m''` is `m'` with the page at `b` rewritten for
      [mid, hi) unless it already held the data. */
  lemma OnePageMore(m: seq<Byte>, m': seq<Byte>, m'': seq<Byte>, P: nat, b: nat,
                    lo: nat, mid: nat, hi: nat, d: seq<Byte>)
    requires 0 < P && Aligned(b, P) && lo <= mid <= hi <= |m| && hi <= lo + |d|
    requires b <= mid && hi <= b + P && (mid == lo || mid == b)
    requires IsWritten(m, m', P, lo, mid, d) && |m''| == |m|
    requires forall x | 0 <= x < |m| :: m''[x] ==
               if mid <= x < hi then d[x - lo]
               else if b <= x < b + P && PageNeeds(m', P, b, lo, hi, d) then ERASED
               else m'[x]
    ensures IsWritten(m, m'', P, lo, hi, d)
    ensures PageNeeds(m', P, b, lo, hi, d) == PageNeeds(m, P, b, lo, hi, d)
  {
    forall x | 0 <= x < |m| && b <= x < b + P
      ensures m'[x] == m[x] || lo <= x < mid
    {
      PageOfIs(b, P, x);
    }
    forall x | 0 <= x < |m|
      ensures m''[x] == Expected(m, P, lo, hi, d, x)
    {
      PageOfIs(b, P, x);
      var c := PageOf(x, P);
      if x < b {
        assert PageNeeds(m, P, c, lo, hi, d) == PageNeeds(m, P, c, lo, mid, d);
      }
    }
  }

  /** `pages` lists, in ascending order, exactly the pages that the write of [lo, hi) rewrites. */
  ghost predicate RewrittenPages(pages: seq<nat>, m: seq<Byte>, P: nat, lo: nat, hi: nat, d: seq<Byte>)
    requires 0 < P && hi <= |m| && hi <= lo + |d|
  {
    && (forall i, j | 0 <= i < j < |pages| :: pages[i] < pages[j])
    && (forall c: nat :: c in pages <==> Aligned(c, P) && PageNeeds(m, P, c, lo, hi, d))
  }

  /** Extending the write inside the page at `b` changes nothing for the other pages. */
  lemma OtherPages(m: seq<Byte>, P: nat, b: nat, c: nat, lo: nat, mid: nat, hi: nat, d: seq<Byte>)
    requires 0 < P && Aligned(b, P) && Aligned(c, P) && c != b && lo <= mid <= hi <= |m| && hi <= lo + |d|
    requires b <= mid && hi <= b + P && (mid == lo || mid == b)
    ensures PageNeeds(m, P, c, lo, hi, d) == PageNeeds(m, P, c, lo, mid, d)
    ensures PageNeeds(m, P, c, lo, mid, d) ==> c < b
  {
    if PageNeeds(m, P, c, lo, hi, d) {
      var y :| lo <= y < hi && c <= y < c + P && m[y] != d[y - lo];
      PageOfIs(b, P, y);
      PageOfIs(c, P, y);
    }
  }

  lemma OneRewrittenMore(pages: seq<nat>, added: seq<nat>, m: seq<Byte>, P: nat, b: nat,
                         lo: nat, mid: nat, hi: nat, d: seq<Byte>)
    requires 0 < P && Aligned(b, P) && lo <= mid <= hi <= |m| && hi <= lo + |d|
    requires b <= mid && hi <= b + P && (mid == lo || mid == b)
    requires RewrittenPages(pages, m, P, lo, mid, d)
    requires added == if PageNeeds(m, P, b, lo, hi, d) then [b] else []
    ensures RewrittenPages(pages + added, m, P, lo, hi, d)
  {
    assert !PageNeeds(m, P, b, lo, mid, d);
    forall c: nat
      ensures c in pages + added <==> Aligned(c, P) && PageNeeds(m, P, c, lo, hi, d)
      ensures c in pages ==> c < b
    {
      if Aligned(c, P) && c != b {
        OtherPages(m, P, b, c, lo, mid, hi, d);
      }
    }
    forall i | 0 <= i < |pages|
      ensures pages[i] < b
    {
      assert pages[i] in pages;
    }
  }

  /** Every changed byte lies in a page that holds a byte of [lo, hi). */
  ghost predicate ChangesInside(m: seq<Byte>, m': seq<Byte>, P: nat, lo: nat, hi: nat)
    requires 0 < P
  {
    |m'| == |m| &&
    forall x | 0 <= x < |m| && m'[x] != m[x] :: exists y | lo <= y < hi :: PageOf(y, P) == PageOf(x, P)
  }

  lemma OnePageTouched(m: seq<Byte>, m': seq<Byte>, m'': seq<Byte>, P: nat, b: nat, lo: nat, y: nat, hi: nat)
    requires 0 < P && Aligned(b, P) && lo <= y < hi && b <= y < b + P
    requires ChangesInside(m, m', P, lo, hi) && |m''| == |m|
    requires forall x | 0 <= x < |m| && PageOf(x, P) != b :: m''[x] == m'[x]
    ensures ChangesInside(m, m'', P, lo, hi)
  {
    PageOfIs(b, P, y);
    forall x | 0 <= x < |m| && m''[x] != m[x]
      ensures exists z | lo <= z < hi :: PageOf(z, P) == PageOf(x, P)
    {
      if PageOf(x, P) == b {
        assert PageOf(y, P) == PageOf(x, P);
      } else {
        assert m'[x] != m[x];
      }
    }
  }

  // ------------------------------------------------------------------ the region table

  function End(r: Region): nat { r.offset + r.regionSize }

  ghost predicate Covered(rs: seq<Region>, y: nat)
  {
    exists r | r in rs :: r.offset <= y < End(r)
  }

  ghost predicate Ascending(rs: seq<Region>)
  {
    forall i, j | 0 <= i < j < |rs| :: End(rs[i]) <= rs[j].offset
  }

  predicate ValidRegion(r: Region, pageSize: nat, length: nat)
  {
    && r.blockSize == pageSize && r.regionSize == r.numberOfBlocks * r.blockSize
    && 0 < pageSize && Aligned(r.offset, pageSize) && End(r) <= length
  }

  /** The size of `j` blocks. */
  function Blocks(j: nat, P: nat): nat
  {
    if j == 0 then 0 else Blocks(j - 1, P) + P
  }

  lemma {:induction false} BlocksIsProduct(j: nat, P: nat)
    ensures Blocks(j, P) == j * P
  {
    if j > 0 {
      BlocksIsProduct(j - 1, P);
      assert j * P == (j - 1) * P + P;
    }
  }

  /** The next block of a region lies inside it and starts a page. */
  lemma BlockFits(r: Region, j: nat, pageSize: nat, length: nat)
    requires ValidRegion(r, pageSize, length) && j < r.numberOfBlocks
    ensures r.offset + Blocks(j + 1, pageSize) <= End(r)
    ensures j + 1 == r.numberOfBlocks ==> r.offset + Blocks(j + 1, pageSize) == End(r)
  {
    var n, k := r.numberOfBlocks, j + 1;
    BlocksIsProduct(k, pageSize);
    if k < n {
      MulStep(k, n, pageSize);
    }
  }

  /** The first address at or after `off` that a single pass over the table leaves uncovered. */
  function CoverEnd(rs: seq<Region>, off: nat): (e: nat)
    ensures off <= e
  {
    if rs == [] then off
    else if rs[0].offset <= off < End(rs[0]) then CoverEnd(rs[1..], End(rs[0]))
    else CoverEnd(rs[1..], off)
  }

  /** For an ascending table that is really the first address no region covers. */
  lemma {:induction false} CoverEndIsFirstGap(rs: seq<Region>, off: nat)
    requires Ascending(rs)
    ensures forall y | off <= y < CoverEnd(rs, off) :: Covered(rs, y)
    ensures !Covered(rs, CoverEnd(rs, off))
  {
    if rs != [] {
      var r, rest := rs[0], rs[1..];
      var off' := if r.offset <= off < End(r) then End(r) else off;
      var e := CoverEnd(rest, off');
      CoverEndIsFirstGap(rest, off');
      forall y | off <= y < e
        ensures Covered(rs, y)
      {
        if y < off' {
          assert r in rs;
        } else {
          assert Covered(rest, y);
          var q :| q in rest && q.offset <= y < End(q);
          assert q in rs;
        }
      }
      forall q | q in rs && q.offset <= e < End(q)
        ensures false
      {
        if q in rest {
          assert Covered(rest, e);
        } else {
          GapStaysBefore(rs, off, e);
        }
      }
    }
  }

  /** The scan never stops inside the first region of an ascending table. */
  lemma GapStaysBefore(rs: seq<Region>, off: nat, e: nat)
    requires rs != [] && Ascending(rs) && e == CoverEnd(rs, off)
    ensures !(rs[0].offset <= e < End(rs[0]))
  {
    var r := rs[0];
    if !(r.offset <= off < End(r)) && off < r.offset {
      NothingReached(rs[1..], off, r.offset);
    }
  }

  /** From an address before all regions the scan does not move. */
  lemma {:induction false} NothingReached(rs: seq<Region>, off: nat, bound: nat)
    requires off < bound && forall r | r in rs :: bound <= r.offset
    ensures CoverEnd(rs, off) == off
  {
    if rs != [] {
      NothingReached(rs[1..], off, bound);
    }
  }

  lemma {:induction false} BlocksAligned(x: nat, j: nat, P: nat)
    requires 0 < P && Aligned(x, P)
    ensures Aligned(x + Blocks(j, P), P)
  {
    if j > 0 {
      BlocksAligned(x, j - 1, P);
    }
  }

  /** The driver's test for a page boundary. */
  lemma AlignedModulo(x: nat, P: nat)
    requires 0 < P
    ensures Aligned(x, P) <==> x % P == 0
  {
    if Aligned(x, P) {
      RemainderIsNone(x, P);
    } else if x % P == 0 {
      BlocksIsProduct(x / P, P);
      BlocksAligned(0, x / P, P);
      assert false;
    }
  }

  lemma {:induction false} CoverEndAligned(rs: seq<Region>, P: nat, length: nat, off: nat)
    requires 0 < P && forall r | r in rs :: ValidRegion(r, P, length)
    ensures CoverEnd(rs, off) == off || Aligned(CoverEnd(rs, off), P)
  {
    if rs != [] {
      var r := rs[0];
      assert r in rs;
      BlocksIsProduct(r.numberOfBlocks, P);
      BlocksAligned(r.offset, r.numberOfBlocks, P);
      CoverEndAligned(rs[1..], P, length, if r.offset <= off < End(r) then End(r) else off);
    }
  }

  lemma SliceIs(s: seq<Byte>, lo: nat, d: seq<Byte>)
    requires lo + |d| <= |s|
    ensures s[lo..lo + |d|] == d <==> forall y | lo <= y < lo + |d| :: s[y] == d[y - lo]
  {
    assert forall y | lo <= y < lo + |d| :: s[lo..lo + |d|][y - lo] == s[y];
    if s[lo..lo + |d|] == d {
      forall y | lo <= y < lo + |d| ensures s[y] == d[y - lo] {
        assert s[y] == s[lo..lo + |d|][y - lo];
      }
    }
  }

  /** What a successful write amounts to.  Over an ascending table the data is in the flash if every
      address of the range is covered; in general it is there if and only if the bytes from the first
      gap on were there before. */
  lemma SuccessfulWrite(rs: seq<Region>, P: nat, m: seq<Byte>, m': seq<Byte>, lo: nat, d: seq<Byte>)
    requires 0 < P && Ascending(rs) && (forall r | r in rs :: ValidRegion(r, P, |m|)) && lo + |d| <= |m|
    requires IsWritten(m, m', P, lo, Min(lo + |d|, CoverEnd(rs, lo)), d)
    ensures (forall y | lo <= y < lo + |d| :: Covered(rs, y)) ==> m'[lo..lo + |d|] == d
    ensures m'[lo..lo + |d|] == d <==> forall y | CoverEnd(rs, lo) <= y < lo + |d| :: m[y] == d[y - lo]
  {
    var e := CoverEnd(rs, lo);
    var hi := Min(lo + |d|, e);
    CoverEndIsFirstGap(rs, lo);
    CoverEndAligned(rs, P, |m|, lo);
    forall y | e <= y < lo + |d|
      ensures m'[y] == m[y]
    {
      if e > lo {
        PageOfIs(e, P, y);
      }
      assert !PageNeeds(m, P, PageOf(y, P), lo, hi, d);
    }
    SliceIs(m', lo, d);
    assert forall y | lo <= y < hi :: m'[y] == d[y - lo];
  }

  /** The region that the initialisation makes of a sector; `end` is the sector's last address. */
  function RegionOf(sector: Sector, P: nat): Region
    requires 0 < P && sector.start <= sector.end
  {
    var size := sector.end - sector.start + 1;
    Region(sector.start, size, size / P, P)
  }

  predicate Usable(sector: Sector, hasCsr: bool)
  {
    sector.enabled && (sector.available || !hasCsr)
  }

  function TableOf(sectors: seq<Sector>, hasCsr: bool, P: nat): (t: seq<Region>)
    requires 0 < P && forall q | q in sectors :: q.start <= q.end
    ensures |t| <= |sectors|
  {
    if sectors == [] then []
    else
      var last := sectors[|sectors| - 1];
      TableOf(sectors[..|sectors| - 1], hasCsr, P) +
      if Usable(last, hasCsr) then [RegionOf(last, P)] else []
  }

  /** Sectors made of whole pages, in ascending order, on a device of the given length. */
  predicate GoodSectors(sectors: seq<Sector>, P: nat, length: nat)
    requires 0 < P
  {
    && (forall q | q in sectors ::
          q.start <= q.end < length && Aligned(q.start, P) && Aligned(q.end + 1, P))
    && (forall i, j | 0 <= i < j < |sectors| :: sectors[i].end < sectors[j].start)
  }

  lemma {:induction false} AlignedDifference(x: nat, y: nat, P: nat)
    requires 0 < P && x <= y && Aligned(x, P) && Aligned(y, P)
    ensures Aligned(y - x, P)
    decreases x
  {
    if x > 0 {
      AlignedDifference(x - P, y - P, P);
    }
  }

  lemma GoodRegion(sector: Sector, P: nat, length: nat)
    requires 0 < P && GoodSectors([sector], P, length)
    ensures sector.start <= sector.end && ValidRegion(RegionOf(sector, P), P, length)
  {
    assert sector in [sector];
    AlignedDifference(sector.start, sector.end + 1, P);
    var size := sector.end - sector.start + 1;
    AlignedModulo(size, P);
  }

  lemma AscendingPlus(t: seq<Region>, r: Region)
    requires Ascending(t) && forall q | q in t :: End(q) <= r.offset
    ensures Ascending(t + [r])
  {
  }

  /** The initialisation makes a table that the write routine can use. */
  lemma {:induction false} TableIsGood(sectors: seq<Sector>, hasCsr: bool, P: nat, length: nat)
    requires 0 < P && GoodSectors(sectors, P, length)
    ensures var t := TableOf(sectors, hasCsr, P);
            && Ascending(t)
            && (forall r | r in t :: ValidRegion(r, P, length))
            && (forall r | r in t :: exists q | q in sectors :: End(r) == q.end + 1)
  {
    if sectors != [] {
      var front, last := sectors[..|sectors| - 1], sectors[|sectors| - 1];
      TableIsGood(front, hasCsr, P, length);
      assert last in sectors;
      GoodRegion(last, P, length);
      var t := TableOf(front, hasCsr, P);
      forall r | r in t
        ensures End(r) <= last.start && exists q | q in sectors :: End(r) == q.end + 1
      {
        var q :| q in front && End(r) == q.end + 1;
        assert q in sectors;
      }
      AscendingPlus(t, RegionOf(last, P));
    }
  }

  /** The region of a sector holds exactly the sector's addresses, and one block a page. */
  lemma RegionIsSector(sector: Sector, P: nat, y: nat)
    requires 0 < P && sector.start <= sector.end
    ensures sector.start <= y <= sector.end <==> RegionOf(sector, P).offset <= y < End(RegionOf(sector, P))
    ensures RegionOf(sector, P).blockSize == P
  {
  }

  /** The table covers exactly the addresses of the sectors that are enabled and, as far as that can be
      asked for, available. */
  lemma {:induction false} TableCovers(sectors: seq<Sector>, hasCsr: bool, P: nat, y: nat)
    requires 0 < P && forall q | q in sectors :: q.start <= q.end
    ensures Covered(TableOf(sectors, hasCsr, P), y)
       <==> exists q | q in sectors :: q.enabled && (hasCsr ==> q.available) && q.start <= y <= q.end
  {
    if sectors != [] {
      var front, last := sectors[..|sectors| - 1], sectors[|sectors| - 1];
      TableCovers(front, hasCsr, P, y);
      assert sectors == front + [last];
      RegionIsSector(last, P, y);
      var t := TableOf(front, hasCsr, P);
      assert forall r | r in TableOf(sectors, hasCsr, P) :: r in t || (Usable(last, hasCsr) && r == RegionOf(last, P));
      assert forall r | r in t :: r in TableOf(sectors, hasCsr, P);
      if Usable(last, hasCsr) {
        assert RegionOf(last, P) in TableOf(sectors, hasCsr, P);
      }
    }
  }

  /** A table with a gap: the middle one of three one-page sectors is not available.  A write over all
      three succeeds with the data in the first page only, though a region holds the third. */
  lemma GapExample(sectors: seq<Sector>, m: seq<Byte>, m': seq<Byte>, d: seq<Byte>)
    requires (sectors == [Sector(true, true, 0, 3), Sector(true, false, 4, 7), Sector(true, true, 8, 11),
                          Sector(false, true, 12, 15), Sector(false, true, 12, 15)])
    requires |m| == |d| == 12 && (forall x | 0 <= x < 12 :: m[x] == 0 && d[x] == 1)
    requires IsWritten(m, m', 4, 0, 4, d)
    ensures CoverEnd(TableOf(sectors, true, 4), 0) == 4 && Covered(TableOf(sectors, true, 4), 8)
    ensures m'[..4] == d[..4] && m'[4..] == m[4..]
  {
    hide *;
    GapTable(sectors);
    GapIsFound(TableOf(sectors, true, 4));
    FirstPageOnly(m, m', d);
  }

  lemma GapIsFound(t: seq<Region>)
    requires t == [Region(0, 4, 1, 4), Region(8, 4, 1, 4)]
    ensures CoverEnd(t, 0) == 4 && Covered(t, 8)
  {
    var rest := t[1..];
    assert rest == [Region(8, 4, 1, 4)] && rest[1..] == [];
    assert CoverEnd([], 4) == 4;
    assert CoverEnd(rest, 4) == 4;
    assert t[1] in t && t[1].offset <= 8 < End(t[1]);
  }

  lemma FirstPageOnly(m: seq<Byte>, m': seq<Byte>, d: seq<Byte>)
    requires |m| == |d| == 12 && IsWritten(m, m', 4, 0, 4, d)
    ensures m'[..4] == d[..4] && m'[4..] == m[4..]
  {
    assert PageOf(4, 4) == 4 && PageOf(8, 4) == 8;
    forall x | 4 <= x < 12 ensures m'[x] == m[x] {
      PageOfIs(if x < 8 then 4 else 8, 4, x);
      assert !PageNeeds(m, 4, PageOf(x, 4), 0, 4, d);
    }
    assert forall x | 0 <= x < 4 :: m'[x] == d[x];
  }

  lemma GapTable(sectors: seq<Sector>)
    requires (sectors == [Sector(true, true, 0, 3), Sector(true, false, 4, 7), Sector(true, true, 8, 11),
                          Sector(false, true, 12, 15), Sector(false, true, 12, 15)])
    ensures TableOf(sectors, true, 4) == [Region(0, 4, 1, 4), Region(8, 4, 1, 4)]
  {
    assert sectors[..4][..3] == sectors[..3] && sectors[..3][..2] == sectors[..2];
    assert sectors[..2][..1] == sectors[..1] && sectors[..1][..0] == [];
    assert TableOf(sectors[..1], true, 4) == [Region(0, 4, 1, 4)];
    assert TableOf(sectors[..2], true, 4) == [Region(0, 4, 1, 4)];
    assert TableOf(sectors[..3], true, 4) == [Region(0, 4, 1, 4), Region(8, 4, 1, 4)];
    assert TableOf(sectors[..4], true, 4) == TableOf(sectors[..3], true, 4);
  }

  /** A page begins at a word boundary. */
  lemma PageStartsAWord(blockOffset: nat, pageSize: nat)
    requires 0 < pageSize && pageSize % 4 == 0 && blockOffset % pageSize == 0
    ensures 4 * (blockOffset / 4) == blockOffset
  {
    var q := blockOffset / pageSize;
    assert blockOffset == q * (4 * (pageSize / 4)) == 4 * (q * (pageSize / 4));
  }

  class Flash {
    const length: nat
    const pageSize: nat
    const hasCsr: bool
    const isReadOnly: bool
    const regionInfo: array<Region>
    var numberOfRegions: nat

    // Device state.
    const mem: array<Byte>
    var writeEnabled: bool
    var erasePassed: bool
    var writePassed: bool
    ghost var erased: seq<nat>  // the pages erased so far
    ghost var timeouts: nat     // the polls that have timed out

    /** A device with its region table still empty. */
    constructor (contents: seq<Byte>, pageSize: nat, hasCsr: bool, isReadOnly: bool)
      requires |contents| % 4 == 0 && 0 < pageSize
      ensures Device() && mem[..] == contents && numberOfRegions == 0 && erased == [] && !writeEnabled
      ensures this.pageSize == pageSize && this.hasCsr == hasCsr && this.isReadOnly == isReadOnly
      ensures fresh(mem) && fresh(regionInfo)
    {
      length, mem := |contents|, new Byte[|contents|](i requires 0 <= i < |contents| => contents[i]);
      regionInfo := new Region[MAX_REGIONS](_ => Region(0, 0, 0, 0));
      this.pageSize, this.hasCsr, this.isReadOnly := pageSize, hasCsr, isReadOnly;
      numberOfRegions, erased, timeouts := 0, [], 0;
      writeEnabled, erasePassed, writePassed := false, false, false;
    }

    ghost predicate Device()
      reads this
    {
      && mem.Length == length && length % 4 == 0 && 0 < pageSize
      && regionInfo.Length == MAX_REGIONS && (regionInfo as object) != mem
    }

    /** The three polling loops: nothing, or a timeout, which is recorded. */
    method PollIdle() returns (rc: int)
      modifies this`timeouts
      ensures rc == 0 || rc == -ETIMEDOUT
      ensures timeouts == old(timeouts) + if rc == 0 then 0 else 1
    {
      var ok: bool := *;
      rc := if ok then 0 else -ETIMEDOUT;
      timeouts := timeouts + if rc == 0 then 0 else 1;
    }

    method PollErasePassed() returns (rc: int)
      modifies this`timeouts
      ensures rc == 0 ==> erasePassed
      ensures rc == 0 || rc == -ETIMEDOUT
      ensures timeouts == old(timeouts) + if rc == 0 then 0 else 1
    {
      var inTime: bool := *;
      rc := if erasePassed && inTime then 0 else -ETIMEDOUT;
      timeouts := timeouts + if rc == 0 then 0 else 1;
    }

    method PollWritePassed() returns (rc: int)
      modifies this`timeouts
      ensures rc == 0 ==> writePassed
      ensures rc == 0 || rc == -ETIMEDOUT
      ensures timeouts == old(timeouts) + if rc == 0 then 0 else 1
    {
      var inTime: bool := *;
      rc := if writePassed && inTime then 0 else -ETIMEDOUT;
      timeouts := timeouts + if rc == 0 then 0 else 1;
    }

    /** The device erases the page at a word address, for which it has to be enabled.  A failed erase leaves
        anything there. */
    method DeviceErase(wordAddress: nat)
      requires Device() && 4 * wordAddress + pageSize <= length && writeEnabled
      modifies mem, this`erasePassed, this`erased
      ensures erased == old(erased) + [4 * wordAddress]
      ensures erasePassed ==>
        forall x | 4 * wordAddress <= x < 4 * wordAddress + pageSize :: mem[x] == ERASED
      ensures forall x | 0 <= x < length && !(4 * wordAddress <= x < 4 * wordAddress + pageSize)
                :: mem[x] == old(mem[x])
    {
      var at := 4 * wordAddress;
      var passes: bool := *;
      erasePassed := passes;
      erased := erased + [at];
      for k := 0 to pageSize
        modifies mem
        invariant erasePassed ==> forall x | at <= x < at + k :: mem[x] == ERASED
        invariant forall x | 0 <= x < length && !(at <= x < at + k) :: mem[x] == old(mem[x])
      {
        var junk: Byte := *;
        mem[at + k] := if erasePassed then ERASED else junk;
      }
    }

    /** The device, which has to be enabled, programs one aligned word.  A failed write may leave anything
        in a byte that was asked to change. */
    method DeviceProgram(at: nat, chunk: seq<Byte>)
      requires Device() && at % 4 == 0 && at + 4 <= length && |chunk| == 4 && writeEnabled
      modifies mem, this`writePassed
      ensures writePassed ==> mem[..] == Programmed(old(mem[..]), at, chunk)
      ensures forall x | 0 <= x < length && !(at <= x < at + 4 && chunk[x - at] != ERASED)
                :: mem[x] == old(mem[x])
    {
      var passes: bool := *;
      writePassed := passes;
      if writePassed {
        ClearBits(at, chunk);
        hide Programmed;
      } else {
        SpoilWord(at, chunk);
      }
    }

    method ClearBits(at: nat, chunk: seq<Byte>)
      requires Device() && at + 4 <= length && |chunk| == 4
      modifies mem
      ensures mem[..] == Programmed(old(mem[..]), at, chunk)
      ensures forall x | 0 <= x < length && !(at <= x < at + 4 && chunk[x - at] != ERASED)
                :: mem[x] == old(mem[x])
    {
      for k := 0 to 4
        invariant forall x | at <= x < at + k :: mem[x] == old(mem[x]) & chunk[x - at]
        invariant forall x | 0 <= x < length && !(at <= x < at + k) :: mem[x] == old(mem[x])
      {
        mem[at + k] := mem[at + k] & chunk[k];
      }
    }

    method SpoilWord(at: nat, chunk: seq<Byte>)
      requires Device() && at + 4 <= length && |chunk| == 4
      modifies mem
      ensures forall x | 0 <= x < length && !(at <= x < at + 4 && chunk[x - at] != ERASED)
                :: mem[x] == old(mem[x])
    {
      for k := 0 to 4
        invariant forall x | 0 <= x < length && !(at <= x < at + k && chunk[x - at] != ERASED)
                    :: mem[x] == old(mem[x])
      {
        var junk: Byte := *;
        if chunk[k] != ERASED {
          mem[at + k] := junk;
        }
      }
    }

    // ------------------------------------------------------------------ the driver

    /** alt_onchip_flash_erase_block. */
    method EraseBlock(blockOffset: nat) returns (rc: int)
      requires Device() && pageSize % 4 == 0
      requires blockOffset < length && blockOffset % pageSize == 0 ==> blockOffset + pageSize <= length
      modifies mem, this`timeouts, this`writeEnabled, this`erasePassed, this`erased
      ensures rc == 0 ==> blockOffset + pageSize <= length && erased == old(erased) + [blockOffset]
      ensures rc == 0 ==> forall x | blockOffset <= x < blockOffset + pageSize :: mem[x] == ERASED
      ensures forall x | 0 <= x < length && !(blockOffset <= x < blockOffset + pageSize)
                :: mem[x] == old(mem[x])
      ensures rc == if blockOffset >= length then -EFAULT
                    else if !hasCsr || isReadOnly then -ENODEV
                    else if blockOffset % pageSize != 0 then -EINVAL
                    else if rc == 0 then 0 else -ETIMEDOUT
      ensures old(timeouts) <= timeouts && (rc == -ETIMEDOUT ==> old(timeouts) < timeouts)
      ensures !old(writeEnabled) ==> !writeEnabled
    {
      if blockOffset >= length {
        return -EFAULT;
      }
      if !hasCsr || isReadOnly {
        return -ENODEV;
      }
      if blockOffset % pageSize != 0 {
        return -EINVAL;
      }
      rc := PollIdle();
      if rc != 0 {
        return;
      }
      writeEnabled := true;
      PageStartsAWord(blockOffset, pageSize);
      var pageAddress := blockOffset / 4;
      DeviceErase(pageAddress);
      assert rc == 0 && 4 * pageAddress == blockOffset;
      rc := PollIdle();
      rc := PollErasePassed();
      writeEnabled := false;
    }

    /** alt_onchip_flash_write_block.  `len` bytes of `data` go to the absolute address
        `dataOffset`, which need not be aligned. */
    method WriteBlock(blockOffset: nat, dataOffset: nat, data: seq<Byte>) returns (rc: int)
      requires Device()
      modifies mem, this`timeouts, this`writeEnabled, this`writePassed
      // Success programs exactly the given bytes.
      ensures rc == 0 ==> dataOffset + |data| <= length &&
                          mem[..] == Programmed(old(mem[..]), dataOffset, data)
      // Failure touches nothing else.
      ensures forall x | 0 <= x < length && !(dataOffset <= x < dataOffset + |data|)
                :: mem[x] == old(mem[x])
      ensures rc == if blockOffset >= length || dataOffset >= length || |data| > length - dataOffset
                    then -EFAULT
                    else if !hasCsr || isReadOnly then -ENODEV
                    else if rc == 0 then 0 else -ETIMEDOUT
      ensures old(timeouts) <= timeouts && (rc == -ETIMEDOUT ==> old(timeouts) < timeouts)
      ensures !old(writeEnabled) ==> !writeEnabled
    {
      hide Programmed;
      if blockOffset >= length || dataOffset >= length || |data| > length - dataOffset {
        return -EFAULT;
      }
      if !hasCsr || isReadOnly {
        return -ENODEV;
      }
      rc := PollIdle();
      if rc != 0 {
        return;
      }
      writeEnabled := true;
      rc := WriteWords(dataOffset, data);
      writeEnabled := false;
    }

    /** The write loop. */
    method WriteWords(dataOffset: nat, data: seq<Byte>) returns (rc: int)
      requires Device() && dataOffset + |data| <= length && writeEnabled
      modifies mem, this`timeouts, this`writePassed
      ensures rc == 0 || rc == -ETIMEDOUT
      ensures old(timeouts) <= timeouts && (rc != 0 ==> old(timeouts) < timeouts)
      ensures rc == 0 ==> mem[..] == Programmed(old(mem[..]), dataOffset, data)
      ensures forall x | 0 <= x < length && !(dataOffset <= x < dataOffset + |data|)
                :: mem[x] == old(mem[x])
    {
      NothingProgrammed(mem[..], dataOffset);
      hide Programmed;
      rc := 0;
      var bufferOffset, current := 0, dataOffset;
      assert data[..0] == [];
      while bufferOffset != |data|
        modifies mem, this`timeouts, this`writePassed
        invariant bufferOffset <= |data| && rc == 0 && old(timeouts) <= timeouts
        invariant bufferOffset != |data| ==> current == dataOffset + bufferOffset
        invariant mem[..] == Programmed(old(mem[..]), dataOffset, data[..bufferOffset])
        invariant (forall x | 0 <= x < length && !(dataOffset <= x < dataOffset + |data|) ::
                     mem[x] == old(mem[x]))
        decreases |data| - bufferOffset
      {
        var n;
        rc, n, current := WriteWord(current, data[bufferOffset..]);
        if rc != 0 {
          return;
        }
        ProgrammedFurther(old(mem[..]), dataOffset, data, bufferOffset, n);
        bufferOffset := bufferOffset + n;
      }
      assert data[..bufferOffset] == data;
    }

    /** One pass of the write loop: programs the word that holds `current0` with the first bytes of
        `data`, and says how many those were and where the next word is. */
    method WriteWord(current0: nat, data: seq<Byte>) returns (rc: int, consumed: nat, next: nat)
      requires Device() && data != [] && current0 + |data| <= length && writeEnabled
      modifies mem, this`timeouts, this`writePassed
      // Every pass makes progress, and the next one starts where this one ended.
      ensures rc == 0 || rc == -ETIMEDOUT
      ensures old(timeouts) <= timeouts && (rc != 0 ==> old(timeouts) < timeouts)
      ensures 0 < consumed <= |data| && (consumed < |data| ==> next == current0 + consumed)
      ensures rc == 0 ==> mem[..] == Programmed(old(mem[..]), current0, data[..consumed])
      ensures forall x | 0 <= x < length && !(current0 <= x < current0 + |data|)
                :: mem[x] == old(mem[x])
    {
      var current, len, padding, n := current0, |data|, 0, 0;
      if current % 4 == 0 {
        next := (current + 4) / 4 * 4;
        n := if len < next - current then len else next - current;
      } else {
        padding := current % 4;
        current := current - padding;
        next := (current + 4) / 4 * 4;
        n := if len + padding < next - current then len + padding else next - current;
      }
      consumed := n - padding;
      rc := ProgramPiece(current, padding, data[..consumed]);
    }

    /** Writes one word: `padding` bytes of 0xFF, then the piece, then 0xFF to the end. */
    method ProgramPiece(current: nat, padding: nat, piece: seq<Byte>) returns (rc: int)
      requires Device() && current % 4 == 0 && current + padding + |piece| <= length && writeEnabled
      requires padding + |piece| <= 4 && current + 4 <= length && 0 < |piece|
      modifies mem, this`timeouts, this`writePassed
      ensures rc == 0 || rc == -ETIMEDOUT
      ensures old(timeouts) <= timeouts && (rc != 0 ==> old(timeouts) < timeouts)
      ensures rc == 0 ==> mem[..] == Programmed(old(mem[..]), current + padding, piece)
      ensures forall x | 0 <= x < length && !(current + padding <= x < current + padding + |piece|)
                :: mem[x] == old(mem[x])
    {
      var chunk := Blank(padding) + piece + Blank(4 - padding - |piece|);
      PaddingIsNeutral(mem[..], current, padding, piece, 4 - padding - |piece|);
      DeviceProgram(current, chunk);
      rc := PollIdle();
      if rc == 0 {
        rc := PollWritePassed();
      }
    }

    /** The entries of the region table in use. */
    ghost function Table(): seq<Region>
      reads this, regionInfo
      requires Device() && numberOfRegions <= MAX_REGIONS
    {
      regionInfo[..numberOfRegions]
    }

    /** The table describes whole pages of this device, which is protected between calls. */
    ghost predicate Valid()
      reads this, regionInfo
    {
      && Device() && numberOfRegions <= MAX_REGIONS && pageSize % 4 == 0 && !writeEnabled
      && forall i | 0 <= i < numberOfRegions :: ValidRegion(regionInfo[i], pageSize, length)
    }

    /** altera_onchip_flash_init: builds the region table from the five sectors. */
    method Init(sectors: seq<Sector>)
      requires |sectors| == 5 && regionInfo.Length == MAX_REGIONS && 0 < pageSize
      requires forall q | q in sectors :: q.start <= q.end
      modifies regionInfo, this`numberOfRegions
      ensures numberOfRegions <= 5 && regionInfo[..numberOfRegions] == TableOf(sectors, hasCsr, pageSize)
    {
      numberOfRegions := 0;
      AddSector(sectors, 0);
      AddSector(sectors, 1);
      AddSector(sectors, 2);
      AddSector(sectors, 3);
      AddSector(sectors, 4);
      assert sectors[..5] == sectors;
    }

    /** One of the five identical steps of the initialisation. */
    method AddSector(sectors: seq<Sector>, k: nat)
      requires k < |sectors| == 5 && regionInfo.Length == MAX_REGIONS && 0 < pageSize
      requires forall q | q in sectors :: q.start <= q.end
      requires numberOfRegions <= k && regionInfo[..numberOfRegions] == TableOf(sectors[..k], hasCsr, pageSize)
      modifies regionInfo, this`numberOfRegions
      ensures numberOfRegions <= k + 1
      ensures regionInfo[..numberOfRegions] == TableOf(sectors[..k + 1], hasCsr, pageSize)
    {
      assert sectors[..k + 1][..k] == sectors[..k];
      if Usable(sectors[k], hasCsr) {
        regionInfo[numberOfRegions] := RegionOf(sectors[k], pageSize);
        numberOfRegions := numberOfRegions + 1;
      }
    }

    /** A write is refused only for a device that cannot write, or after a timeout, and only when a byte
        of [lo, hi) has to change. */
    twostate predicate Answers(rc: int, m0: seq<Byte>, lo: nat, hi: nat, data: seq<Byte>)
      requires hi <= |m0| && hi <= lo + |data|
      reads this
    {
      && old(timeouts) <= timeouts && (rc == -ETIMEDOUT ==> old(timeouts) < timeouts)
      && (rc != 0 ==>
            && rc == (if !hasCsr || isReadOnly then -ENODEV else -ETIMEDOUT)
            && exists y | lo <= y < hi :: m0[y] != data[y - lo])
    }

    /** One block of a flash write: compare, and if different erase and program.  The bytes of
        [mid, hi) are written; `data` belongs at `lo`. */
    method WriteOneBlock(block: nat, lo: nat, mid: nat, hi: nat, data: seq<Byte>) returns (rc: int)
      requires Valid() && lo <= mid && block <= mid <= hi <= block + pageSize <= length
      requires hi <= lo + |data|
      modifies mem, this`timeouts, this`writeEnabled, this`erasePassed, this`writePassed, this`erased
      ensures var differs := exists y | mid <= y < hi :: old(mem[y]) != data[y - lo];
        && (!differs ==> rc == 0 && mem[..] == old(mem[..]) && erased == old(erased))
        && (differs && rc == 0 ==> hasCsr && !isReadOnly)
        && (differs && rc != 0 ==>
              rc == if !hasCsr || isReadOnly then -ENODEV
                    else if block % pageSize != 0 then -EINVAL else -ETIMEDOUT)
        && (rc == 0 ==> erased == old(erased) + if differs then [block] else [])
        && (rc == 0 ==>
              forall x | 0 <= x < length ::
                mem[x] == if mid <= x < hi then data[x - lo]
                          else if block <= x < block + pageSize && differs then ERASED
                          else old(mem[x]))
      ensures forall x | 0 <= x < length && !(block <= x < block + pageSize) :: mem[x] == old(mem[x])
      ensures old(timeouts) <= timeouts && (rc == -ETIMEDOUT ==> old(timeouts) < timeouts)
      ensures Valid()
    {
      rc := 0;
      var src := data[mid - lo..hi - lo];
      assert (mem[mid..hi] == src) == (forall y | mid <= y < hi :: mem[y] == data[y - lo]) by {
        assert forall y | mid <= y < hi ::
            mem[y] == mem[mid..hi][y - mid] && data[y - lo] == src[y - mid];
      }
      if mem[mid..hi] != src {
        rc := EraseBlock(block);
        if rc == 0 {
          assert mem[mid..hi] == Blank(|src|);
          ProgrammedOverErased(mem[..], mid, src);
          rc := WriteBlock(block, mid, src);
        }
      }
    }

    /** A byte that differs from the data now did so from the start. */
    lemma NotYetChanged(m0: seq<Byte>, m: seq<Byte>, block: nat, lo: nat, mid: nat, hi: nat, data: seq<Byte>)
      requires 0 < pageSize && Aligned(block, pageSize) && block <= mid <= hi <= block + pageSize
      requires lo <= mid && hi <= |m0| && hi <= lo + |data| && (mid == lo || mid == block)
      requires IsWritten(m0, m, pageSize, lo, mid, data)
      requires exists y | mid <= y < hi :: m[y] != data[y - lo]
      ensures exists y | lo <= y < hi :: m0[y] != data[y - lo]
    {
      var y :| mid <= y < hi && m[y] != data[y - lo];
      PageOfIs(block, pageSize, y);
      assert !PageNeeds(m0, pageSize, block, lo, mid, data);
      assert m[y] == Expected(m0, pageSize, lo, mid, data, y) == m0[y];
    }

    /** One block, seen from the whole write: [lo, mid) is done and becomes [lo, hi). */
    method ExtendWrite(ghost m0: seq<Byte>, ghost pages: seq<nat>, block: nat, lo: nat, mid: nat, hi: nat,
                       data: seq<Byte>) returns (rc: int, ghost added: seq<nat>)
      requires Valid() && Aligned(block, pageSize) && block <= mid <= hi <= block + pageSize <= length
      requires lo <= mid && hi <= lo + |data| && (mid == lo || mid == block)
      requires |m0| == length && IsWritten(m0, mem[..], pageSize, lo, mid, data)
      requires RewrittenPages(pages, m0, pageSize, lo, mid, data)
      modifies mem, this`timeouts, this`writeEnabled, this`erasePassed, this`writePassed, this`erased
      ensures rc == 0 ==> IsWritten(m0, mem[..], pageSize, lo, hi, data)
      ensures rc == 0 ==> RewrittenPages(pages + added, m0, pageSize, lo, hi, data)
      ensures rc == 0 ==> erased == old(erased) + added
      ensures Valid()
      ensures Answers(rc, m0, lo, hi, data) && (added != [] ==> hasCsr && !isReadOnly)
      ensures mid == hi ==> rc == 0 && mem[..] == old(mem[..])
      ensures forall x | 0 <= x < length && PageOf(x, pageSize) != block :: mem[x] == old(mem[x])
    {
      ghost var m' := mem[..];
      rc := WriteOneBlock(block, lo, mid, hi, data);
      forall x | 0 <= x < length && PageOf(x, pageSize) != block
        ensures !(block <= x < block + pageSize)
      {
        PageOfIs(block, pageSize, x);
      }
      added := [];
      AlignedModulo(block, pageSize);
      if rc != 0 {
        NotYetChanged(m0, m', block, lo, mid, hi, data);
      }
      if rc == 0 {
        OnePageMore(m0, m', mem[..], pageSize, block, lo, mid, hi, data);
        added := if PageNeeds(m0, pageSize, block, lo, hi, data) then [block] else [];
        OneRewrittenMore(pages, added, m0, pageSize, block, lo, mid, hi, data);
      }
    }

    /** The same, and the changes stay inside the pages of the whole range [lo, end). */
    method ExtendInside(ghost m0: seq<Byte>, ghost pages: seq<nat>, block: nat, lo: nat, mid: nat, hi: nat,
                        data: seq<Byte>) returns (rc: int, ghost added: seq<nat>)
      requires Valid() && Aligned(block, pageSize) && block <= mid <= hi <= block + pageSize <= length
      requires lo <= mid && hi <= lo + |data| && (mid == lo || mid == block)
      requires |m0| == length && IsWritten(m0, mem[..], pageSize, lo, mid, data)
      requires RewrittenPages(pages, m0, pageSize, lo, mid, data)
      requires ChangesInside(m0, mem[..], pageSize, lo, lo + |data|)
      modifies mem, this`timeouts, this`writeEnabled, this`erasePassed, this`writePassed, this`erased
      ensures Valid() && ChangesInside(m0, mem[..], pageSize, lo, lo + |data|)
      ensures rc == 0 ==> IsWritten(m0, mem[..], pageSize, lo, hi, data)
      ensures rc == 0 ==> RewrittenPages(pages + added, m0, pageSize, lo, hi, data)
      ensures rc == 0 ==> erased == old(erased) + added
      ensures Answers(rc, m0, lo, hi, data) && (added != [] ==> hasCsr && !isReadOnly)
    {
      ghost var m' := mem[..];
      rc, added := ExtendWrite(m0, pages, block, lo, mid, hi, data);
      if mid < hi {
        OnePageTouched(m0, m', mem[..], pageSize, block, lo, mid, lo + |data|);
      } else {
        assert mem[..] == m';
      }
    }

    /** [lo, offset) is written and the next byte starts a page if anything was written. */
    ghost predicate Progress(m0: seq<Byte>, pages: seq<nat>, lo: nat, offset: nat, data: seq<Byte>)
      reads this, mem, regionInfo
    {
      && Valid() && |m0| == length
      && lo <= offset <= lo + |data| <= length
      && (offset == lo || Aligned(offset, pageSize))
      && IsWritten(m0, mem[..], pageSize, lo, offset, data)
      && RewrittenPages(pages, m0, pageSize, lo, offset, data)
      && ChangesInside(m0, mem[..], pageSize, lo, lo + |data|)
    }

    /** All of the data is written. */
    ghost predicate Complete(m0: seq<Byte>, pages: seq<nat>, lo: nat, data: seq<Byte>)
      reads this, mem, regionInfo
    {
      && Valid() && |m0| == length && lo + |data| <= length
      && IsWritten(m0, mem[..], pageSize, lo, lo + |data|, data)
      && RewrittenPages(pages, m0, pageSize, lo, lo + |data|, data)
    }

    /** The body of the inner loop for the block at `current` that holds `offset`. */
    method BlockStep(ghost m0: seq<Byte>, ghost pages: seq<nat>, current: nat, lo: nat, offset: nat,
                     data: seq<Byte>) returns (rc: int, finished: bool, ghost added: seq<nat>)
      requires Progress(m0, pages, lo, offset, data)
      requires current <= offset < current + pageSize <= length && Aligned(current, pageSize)
      modifies mem, this`timeouts, this`writeEnabled, this`erasePassed, this`writePassed, this`erased
      ensures Valid() && ChangesInside(m0, mem[..], pageSize, lo, lo + |data|)
      ensures rc == 0 ==> erased == old(erased) + added
      ensures Answers(rc, m0, lo, Min(lo + |data|, current + pageSize), data)
      ensures added != [] ==> hasCsr && !isReadOnly
      ensures !finished ==> rc == 0 && current + pageSize < lo + |data|
      ensures !finished ==> Progress(m0, pages + added, lo, current + pageSize, data)
      ensures finished && rc == 0 ==>
                lo + |data| <= current + pageSize && Complete(m0, pages + added, lo, data)
    {
      hide IsWritten, RewrittenPages, ChangesInside;
      var left := lo + |data| - offset;
      var dataToWrite := current + pageSize - offset;
      dataToWrite := if dataToWrite < left then dataToWrite else left;
      var hi := offset + dataToWrite;
      assert hi == if left == dataToWrite then lo + |data| else current + pageSize;
      PageOfIs(current, pageSize, offset);
      rc, added := ExtendInside(m0, pages, current, lo, offset, hi, data);
      finished := left == dataToWrite || rc != 0;
    }

    /** The inner loop, for a region that holds `offset0`. */
    method WriteRegion(ghost m0: seq<Byte>, ghost pages0: seq<nat>, r: Region, lo: nat, offset0: nat,
                       data: seq<Byte>)
      returns (rc: int, finished: bool, offset: nat, ghost pages: seq<nat>)
      requires Progress(m0, pages0, lo, offset0, data)
      requires ValidRegion(r, pageSize, length) && r.offset <= offset0 < End(r)
      modifies mem, this`timeouts, this`writeEnabled, this`erasePassed, this`writePassed, this`erased
      ensures Valid() && ChangesInside(m0, mem[..], pageSize, lo, lo + |data|)
      ensures rc == 0 ==> pages0 <= pages && erased == old(erased) + pages[|pages0|..]
      ensures Answers(rc, m0, lo, Min(lo + |data|, End(r)), data)
      ensures rc == 0 && |pages0| < |pages| ==> hasCsr && !isReadOnly
      ensures !finished ==> rc == 0 && offset == End(r) && Progress(m0, pages, lo, offset, data)
      ensures finished && rc == 0 ==> lo + |data| <= End(r) && Complete(m0, pages, lo, data)
    {
      hide IsWritten, RewrittenPages, ChangesInside;
      rc, finished, offset, pages := 0, false, offset0, pages0;
      var current, j := r.offset, 0;
      while j < r.numberOfBlocks
        modifies mem, this`timeouts, this`writeEnabled, this`erasePassed, this`writePassed, this`erased
        invariant 0 <= j <= r.numberOfBlocks && rc == 0
        invariant current == r.offset + Blocks(j, pageSize) && Aligned(current, pageSize)
        invariant current <= offset <= End(r) && current <= End(r)
        invariant j == r.numberOfBlocks ==> current == End(r)
        invariant Progress(m0, pages, lo, offset, data)
        invariant pages0 <= pages && erased == old(erased) + pages[|pages0|..]
        invariant old(timeouts) <= timeouts && (|pages0| < |pages| ==> hasCsr && !isReadOnly)
      {
        BlockFits(r, j, pageSize, length);
        if current <= offset < current + r.blockSize {
          ghost var added;
          rc, finished, added := BlockStep(m0, pages, current, lo, offset, data);
          pages := pages + added;
          if finished {
            return;
          }
          offset := current + r.blockSize;
        }
        current := current + r.blockSize;
        j := j + 1;
      }
    }

    /** The body of the outer loop, for region i. */
    method RegionStep(ghost m0: seq<Byte>, ghost pages0: seq<nat>, i: nat, lo: nat, offset0: nat,
                      data: seq<Byte>)
      returns (rc: int, finished: bool, offset: nat, ghost pages: seq<nat>)
      requires Progress(m0, pages0, lo, offset0, data) && i < numberOfRegions
      modifies mem, this`timeouts, this`writeEnabled, this`erasePassed, this`writePassed, this`erased
      ensures Valid() && ChangesInside(m0, mem[..], pageSize, lo, lo + |data|)
      ensures rc == 0 ==> pages0 <= pages && erased == old(erased) + pages[|pages0|..]
      ensures Answers(rc, m0, lo, Min(lo + |data|, CoverEnd(Table()[i..], offset0)), data)
      ensures rc == 0 && |pages0| < |pages| ==> hasCsr && !isReadOnly
      ensures !finished ==> rc == 0 && Progress(m0, pages, lo, offset, data)
      ensures !finished ==> CoverEnd(Table()[i..], offset0) == CoverEnd(Table()[i + 1..], offset)
      ensures finished && rc == 0 ==> lo + |data| <= CoverEnd(Table()[i..], offset0) && Complete(m0, pages, lo, data)
    {
      hide IsWritten, RewrittenPages, ChangesInside;
      rc, finished, offset, pages := 0, false, offset0, pages0;
      var r := regionInfo[i];
      assert Table()[i..][0] == r && Table()[i..][1..] == Table()[i + 1..];
      if r.offset <= offset < r.offset + r.regionSize {
        rc, finished, offset, pages := WriteRegion(m0, pages, r, lo, offset, data);
      }
    }

    /** alt_onchip_flash_write: erases and programs the blocks that have to change.  `pages` are the
        blocks it erased. */
    method Write(offset0: nat, data: seq<Byte>) returns (rc: int, ghost pages: seq<nat>)
      requires Valid()
      modifies mem, this`timeouts, this`writeEnabled, this`erasePassed, this`writePassed, this`erased
      ensures Valid()
      ensures rc == -EFAULT <==> offset0 >= length || |data| > length - offset0
      ensures rc == -EFAULT ==> mem[..] == old(mem[..]) && erased == old(erased)
      // A range of the device is refused only if a byte that a region covers has to change: with -ENODEV
      // if the device cannot write, and otherwise after a timeout.
      ensures (rc != -EFAULT ==>
                 Answers(rc, old(mem[..]), offset0, Min(offset0 + |data|, CoverEnd(Table(), offset0)), data))
      ensures rc == 0 && pages != [] ==> hasCsr && !isReadOnly
      // Success writes the data up to the first address that no region covers, and erases exactly
      // the pages that had to change.
      ensures rc == 0 ==>
                var hi := Min(offset0 + |data|, CoverEnd(Table(), offset0));
                && offset0 <= hi <= length
                && IsWritten(old(mem[..]), mem[..], pageSize, offset0, hi, data)
                && RewrittenPages(pages, old(mem[..]), pageSize, offset0, hi, data)
                && erased == old(erased) + pages
      // Whatever happens, pages outside the range stay as they are.
      ensures ChangesInside(old(mem[..]), mem[..], pageSize, offset0, offset0 + |data|)
    {
      hide IsWritten, RewrittenPages, ChangesInside, CoverEnd;
      if offset0 >= length || |data| > length - offset0 {
        NothingChanges(offset0, offset0 + |data|);
        return -EFAULT, [];
      }
      StartProgress(mem[..], offset0, data);
      rc, pages := WriteRange(mem[..], offset0, data);
    }

    /** Its loop over the regions. */
    method WriteRange(ghost m0: seq<Byte>, lo: nat, data: seq<Byte>) returns (rc: int, ghost pages: seq<nat>)
      requires Progress(m0, [], lo, lo, data)
      modifies mem, this`timeouts, this`writeEnabled, this`erasePassed, this`writePassed, this`erased
      ensures Valid() && ChangesInside(m0, mem[..], pageSize, lo, lo + |data|)
      ensures Answers(rc, m0, lo, Min(lo + |data|, CoverEnd(Table(), lo)), data)
      ensures rc == 0 && pages != [] ==> hasCsr && !isReadOnly
      ensures rc == 0 ==>
                var hi := Min(lo + |data|, CoverEnd(Table(), lo));
                && lo <= hi <= length
                && IsWritten(m0, mem[..], pageSize, lo, hi, data)
                && RewrittenPages(pages, m0, pageSize, lo, hi, data)
                && erased == old(erased) + pages
    {
      hide IsWritten, RewrittenPages, ChangesInside, CoverEnd, ValidRegion, Aligned;
      rc, pages := 0, [];
      var offset: nat, i: nat := lo, 0;
      assert Table()[0..] == Table();
      while i < numberOfRegions
        modifies mem, this`timeouts, this`writeEnabled, this`erasePassed, this`writePassed, this`erased
        invariant 0 <= i <= numberOfRegions && rc == 0
        invariant Progress(m0, pages, lo, offset, data)
        invariant erased == old(erased) + pages
        invariant old(timeouts) <= timeouts && (pages != [] ==> hasCsr && !isReadOnly)
        invariant CoverEnd(Table(), lo) == CoverEnd(Table()[i..], offset)
      {
        ghost var before := pages;
        var finished;
        rc, finished, offset, pages := RegionStep(m0, pages, i, lo, offset, data);
        assert rc == 0 ==> pages == before + pages[|before|..];
        if finished {
          return;
        }
        i := i + 1;
      }
      assert Table()[i..] == [];
      CoverEndOfNone(offset);
    }

    lemma NothingChanges(lo: nat, hi: nat)
      requires Valid()
      ensures ChangesInside(mem[..], mem[..], pageSize, lo, hi)
    {
    }

    lemma CoverEndOfNone(offset: nat)
      ensures CoverEnd([], offset) == offset
    {
    }

    lemma StartProgress(m0: seq<Byte>, lo: nat, data: seq<Byte>)
      requires Valid() && m0 == mem[..] && lo + |data| <= length
      ensures Progress(m0, [], lo, lo, data)
    {
      assert forall c: nat :: !PageNeeds(m0, pageSize, c, lo, lo, data);
    }
  }
}
