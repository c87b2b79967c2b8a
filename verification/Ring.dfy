/** The circular-buffer arithmetic shared by the transmit and receive sides of the JTAG UART.

    The buffer has BUF_LEN cells; `rd` is the index of the oldest byte and `wr` the index of the
    next free cell.  One cell always stays free, so rd == wr means empty. */
module Ring {
  const BUF_LEN: nat := 2048

  type Index = i: nat | i < BUF_LEN

  function Advance(i: Index, n: nat): Index
  {
    (i + n) % 2048
  }

  /** The number of queued bytes. */
  function Used(rd: Index, wr: Index): nat
  {
    if rd <= wr then wr - rd else wr + BUF_LEN - rd
  }

  /** The cell of the i-th queued byte. */
  function Cell(rd: Index, i: nat): nat
    requires i < BUF_LEN
  {
    if rd + i < BUF_LEN then rd + i else rd + i - BUF_LEN
  }

  /** The buffer holds exactly `queue`, oldest byte first. */
  ghost predicate Holds<T>(buf: array<T>, rd: Index, wr: Index, queue: seq<T>)
    reads buf
  {
    && buf.Length == BUF_LEN
    && |queue| == Used(rd, wr)
    && forall i | 0 <= i < |queue| :: queue[i] == buf[Cell(rd, i)]
  }

  /** The length of the next copy into the buffer, as the writer computes it. */
  function RoomRun(rd: Index, wr: Index): nat
  {
    if wr < rd then rd - 1 - wr
    else if rd > 0 then BUF_LEN - wr
    else BUF_LEN - 1 - wr
  }

  /** The length of the next copy out of the buffer, as the reader computes it. */
  function DataRun(rd: Index, wr: Index): nat
  {
    if wr >= rd then wr - rd else BUF_LEN - rd
  }

  /** The writer's three-way case split is the largest contiguous run of free cells that keeps
      one cell unused. */
  lemma RoomRunIsMaximal(rd: Index, wr: Index)
    ensures var free := BUF_LEN - 1 - Used(rd, wr);
            RoomRun(rd, wr) == if free < BUF_LEN - wr then free else BUF_LEN - wr
    ensures RoomRun(rd, wr) == 0 <==> Used(rd, wr) == BUF_LEN - 1
  {
  }

  /** The reader's two-way case split is the largest contiguous run of queued bytes. */
  lemma DataRunIsMaximal(rd: Index, wr: Index)
    ensures var used := Used(rd, wr);
            DataRun(rd, wr) == if used < BUF_LEN - rd then used else BUF_LEN - rd
    ensures DataRun(rd, wr) == 0 <==> rd == wr
  {
  }

  /** Why the blocked writer may try again as soon as the read index moves: a full buffer seen
      from any other read index has room. */
  lemma MovedReaderMakesRoom(rd: Index, rd': Index, wr: Index)
    requires RoomRun(rd, wr) == 0 && rd' != rd
    ensures RoomRun(rd', wr) > 0
  {
  }

  /** Advancing an index by less than a lap is the same as finding a cell. */
  lemma AdvanceIsCell(i: Index, n: nat)
    requires n < BUF_LEN
    ensures Advance(i, n) == Cell(i, n)
  {
  }

  /** The interrupt routine's test for a full buffer. */
  lemma FullTest(rd: Index, wr: Index)
    ensures Advance(wr, 1) == rd <==> Used(rd, wr) == BUF_LEN - 1
  {
    AdvanceIsCell(wr, 1);
  }

  /** `whole` is split over three stages in a row; new elements enter the last stage. */
  lemma Enter<T>(whole: seq<T>, a: seq<T>, b: seq<T>, c: seq<T>, xs: seq<T>)
    requires whole == a + b + c
    ensures whole + xs == a + b + (c + xs)
  {
  }

  /** The oldest element of the last stage moves to the middle stage. */
  lemma MoveToMiddle<T>(whole: seq<T>, a: seq<T>, b: seq<T>, c: seq<T>)
    requires whole == a + b + c && c != []
    ensures whole == a + (b + [c[0]]) + c[1..]
  {
  }

  /** The oldest elements of the middle stage move to the first stage. */
  lemma MoveToFirst<T>(whole: seq<T>, a: seq<T>, b: seq<T>, c: seq<T>, n: nat)
    requires whole == a + b + c && n <= |b|
    ensures whole == (a + b[..n]) + b[n..] + c
  {
  }

  /** Taking `a` elements and then `n` more takes `a + n`. */
  lemma TakeMore<T>(xs: seq<T>, a: nat, n: nat)
    requires a + n <= |xs|
    ensures xs[..a] + xs[a..][..n] == xs[..a + n]
  {
  }
}
