/** The table-driven CRC-7 of SD commands against division of polynomials over GF(2), by
    G(x) = x^7 + x^3 + 1 of section 4.5 of the SD Specifications Part 1, Physical Layer Simplified
    Specification.  A polynomial is the set of the exponents it has. */
module Crc7 {
  type Poly = set<nat>

  function Plus(a: Poly, b: Poly): Poly
  {
    (a - b) + (b - a)
  }

  /** p(x) * x^k. */
  function Shift(p: Poly, k: nat): Poly
  {
    set e | e in p :: e + k
  }

  /** q(x) * G(x). */
  function TimesG(q: Poly): Poly
  {
    Plus(Plus(Shift(q, 7), Shift(q, 3)), q)
  }

  ghost predicate Multiple(p: Poly)
  {
    exists q :: p == TimesG(q)
  }

  /** r(x) is what is left of p(x) when it is divided by G(x). */
  ghost predicate Remainder(p: Poly, r: Poly)
  {
    (forall e | e in r :: e < 7) && Multiple(Plus(p, r))
  }

  lemma InShift(p: Poly, k: nat, e: nat)
    ensures e in Shift(p, k) <==> k <= e && e - k in p
  {
    if k <= e && e - k in p {
      assert (e - k) + k in Shift(p, k);
    }
  }

  lemma InTimesG(q: Poly, e: nat)
    ensures (e in TimesG(q)
             <==> (((7 <= e && e - 7 in q) != (3 <= e && e - 3 in q)) != (e in q)))
  {
    InShift(q, 7, e);
    InShift(q, 3, e);
  }

  lemma TimesGPlus(p: Poly, q: Poly)
    ensures TimesG(Plus(p, q)) == Plus(TimesG(p), TimesG(q))
  {
    forall e: nat ensures e in TimesG(Plus(p, q)) <==> e in Plus(TimesG(p), TimesG(q)) {
      InTimesG(p, e);
      InTimesG(q, e);
      InTimesG(Plus(p, q), e);
    }
  }

  lemma TimesGShift(q: Poly, k: nat)
    ensures TimesG(Shift(q, k)) == Shift(TimesG(q), k)
  {
    hide *;
    forall e: nat ensures e in TimesG(Shift(q, k)) <==> e in Shift(TimesG(q), k) {
      InTimesG(Shift(q, k), e);
      InShift(TimesG(q), k, e);
      InShift(q, k, e);
      if 3 <= e { InShift(q, k, e - 3); }
      if 7 <= e { InShift(q, k, e - 7); }
      if k <= e { InTimesG(q, e - k); }
    }
  }

  lemma MultiplePlus(a: Poly, b: Poly)
    requires Multiple(a) && Multiple(b)
    ensures Multiple(Plus(a, b))
  {
    var p :| a == TimesG(p);
    var q :| b == TimesG(q);
    TimesGPlus(p, q);
  }

  lemma MultipleShift(a: Poly, k: nat)
    requires Multiple(a)
    ensures Multiple(Shift(a, k))
  {
    var q :| a == TimesG(q);
    TimesGShift(q, k);
  }

  /** G(x) divides no polynomial of a lower degree but 0. */
  lemma NoSmallMultiple(p: Poly)
    requires Multiple(p) && forall e | e in p :: e < 7
    ensures p == {}
  {
    var q :| p == TimesG(q);
    if q != {} {
      var top := Largest(q);
      InTimesG(q, top + 7);
      assert false;
    }
    assert TimesG({}) == {};
  }

  ghost function Largest(q: Poly): (m: nat)
    requires q != {}
    ensures m in q && forall e | e in q :: e <= m
  {
    var x :| x in q;
    if q == {x} then x
    else
      assert q == (q - {x}) + {x};
      var m := Largest(q - {x});
      if x > m then x else m
  }

  /** q(x) / x, for a q(x) without constant term. */
  lemma Unshift(q: Poly) returns (half: Poly)
    requires 0 !in q
    ensures Shift(half, 1) == q
  {
    half := set e | e in q :: e - 1;
    forall e: nat ensures e in Shift(half, 1) <==> e in q {
      InShift(half, 1, e);
      if e in q { assert e - 1 in half; }
    }
  }

  lemma ShiftOneMore(p: Poly, k: nat)
    ensures Shift(p, k + 1) == Shift(Shift(p, k), 1)
  {
    hide *;
    forall e: nat ensures e in Shift(p, k + 1) <==> e in Shift(Shift(p, k), 1) {
      InShift(p, k + 1, e);
      InShift(Shift(p, k), 1, e);
      if 1 <= e { InShift(p, k, e - 1); }
    }
  }

  lemma ShiftInjective(p: Poly, q: Poly)
    requires Shift(p, 1) == Shift(q, 1)
    ensures p == q
  {
    hide *;
    forall e: nat ensures e in p <==> e in q {
      InShift(p, 1, e + 1);
      InShift(q, 1, e + 1);
    }
  }

  /** x has an inverse modulo G(x): dividing a multiple by x leaves a multiple. */
  lemma {:induction false} MultipleUnshift(p: Poly, k: nat)
    requires Multiple(Shift(p, k))
    ensures Multiple(p)
  {
    if k == 0 {
      assert Shift(p, 0) == p;
    } else {
      var q :| Shift(p, k) == TimesG(q);
      hide *;
      InShift(p, k, 0);
      InTimesG(q, 0);
      var half := Unshift(q);
      TimesGShift(half, 1);
      ShiftOneMore(p, k - 1);
      ShiftInjective(TimesG(half), Shift(p, k - 1));
      MultipleUnshift(p, k - 1);
    }
  }

  /** There is one remainder. */
  lemma RemainderUnique(p: Poly, r: Poly, s: Poly)
    requires Remainder(p, r) && Remainder(p, s)
    ensures r == s
  {
    MultiplePlus(Plus(p, r), Plus(p, s));
    assert Plus(Plus(p, r), Plus(p, s)) == Plus(r, s);
    NoSmallMultiple(Plus(r, s));
    assert forall e: nat :: e in Plus(r, s) <==> (e in r) != (e in s);
  }

  lemma ShiftPlus(a: Poly, b: Poly, k: nat)
    ensures Shift(Plus(a, b), k) == Plus(Shift(a, k), Shift(b, k))
  {
    hide Shift;
    forall e: nat ensures e in Shift(Plus(a, b), k) <==> e in Plus(Shift(a, k), Shift(b, k)) {
      InShift(Plus(a, b), k, e);
      InShift(a, k, e);
      InShift(b, k, e);
    }
  }

  lemma ShiftShift(p: Poly, j: nat, k: nat)
    ensures Shift(Shift(p, j), k) == Shift(p, j + k)
  {
    hide Shift;
    forall e: nat ensures e in Shift(Shift(p, j), k) <==> e in Shift(p, j + k) {
      InShift(Shift(p, j), k, e);
      InShift(p, j + k, e);
      if k <= e { InShift(p, j, e - k); }
    }
  }

  function Mask(e: nat): bv8
    requires e < 8
  {
    if e == 0 then 0x01 else if e == 1 then 0x02 else if e == 2 then 0x04 else if e == 3 then 0x08
    else if e == 4 then 0x10 else if e == 5 then 0x20 else if e == 6 then 0x40 else 0x80
  }

  predicate Bit(b: bv8, e: nat)
  {
    e < 8 && b & Mask(e) != 0
  }

  /** The polynomial of a byte. */
  function Bits(b: bv8): Poly
  {
    set e: nat | e < 8 && Bit(b, e)
  }

  lemma OneBitXor(a: bv8, b: bv8, m: bv8)
    requires m & (m - 1) == 0
    ensures (a ^ b) & m != 0 <==> (a & m != 0) != (b & m != 0)
  {
  }

  lemma BitsXor(a: bv8, b: bv8)
    ensures Bits(a ^ b) == Plus(Bits(a), Bits(b))
  {
    forall e: nat | e < 8 ensures Mask(e) & (Mask(e) - 1) == 0 {
    }
    hide Mask;
    forall e: nat | e < 8 ensures Bit(a ^ b, e) <==> Bit(a, e) != Bit(b, e) {
      OneBitXor(a, b, Mask(e));
    }
    hide Bit;
  }

  lemma BitsDouble(t: bv8)
    requires t < 0x80
    ensures Bits(t << 1) == Shift(Bits(t), 1)
  {
    forall e: nat ensures e in Bits(t << 1) <==> e in Shift(Bits(t), 1) {
      InShift(Bits(t), 1, e);
      if 1 <= e < 8 { assert Bit(t << 1, e) <==> Bit(t, e - 1); }
    }
  }

  lemma BitsOfG()
    ensures Bits(0x89) == TimesG({0}) && Bits(0) == {} && TimesG({}) == {}
  {
  }

  lemma BitsSmall(t: bv8)
    requires t < 0x80
    ensures forall e | e in Bits(t) :: e < 7
  {
    forall e: nat ensures Bit(t, e) ==> e < 7 {
      assert e == 7 ==> Mask(e) == 0x80;
    }
  }

  /** A message of bytes as a polynomial, its last bit the constant term. */
  function Message(m: seq<bv8>): Poly
  {
    if m == [] then {} else Plus(Shift(Message(m[..|m| - 1]), 8), Bits(m[|m| - 1]))
  }

  /** The body of the table's inner loop: multiply by x and reduce. */
  function Step(t: bv8): bv8
  {
    if (t << 1) & 0x80 != 0 then (t << 1) ^ 0x89 else t << 1
  }

  function Steps(t: bv8, n: nat): bv8
  {
    if n == 0 then t else Step(Steps(t, n - 1))
  }

  function Reduce(i: bv8): bv8
  {
    if i & 0x80 != 0 then i ^ 0x89 else i
  }

  /** An entry of the CRC table. */
  function Entry(i: bv8): bv8
  {
    Steps(Reduce(i), 7)
  }

  /** Taking G(x) from a byte where its highest bit is set leaves less than a byte. */
  lemma ReduceIsRemainder(i: bv8)
    ensures Reduce(i) < 0x80 && Multiple(Plus(Bits(i), Bits(Reduce(i))))
  {
    BitsOfG();
    if i & 0x80 != 0 {
      BitsXor(i, 0x89);
      assert Plus(Bits(i), Plus(Bits(i), TimesG({0}))) == TimesG({0});
    } else {
      assert Plus(Bits(i), Bits(i)) == TimesG({});
    }
  }

  lemma {:induction false} StepsIsRemainder(i: bv8, n: nat)
    ensures Steps(Reduce(i), n) < 0x80
    ensures Multiple(Plus(Shift(Bits(i), n), Bits(Steps(Reduce(i), n))))
  {
    ReduceIsRemainder(i);
    if n == 0 {
      assert Shift(Bits(i), 0) == Bits(i);
    } else {
      StepsIsRemainder(i, n - 1);
      var t := Steps(Reduce(i), n - 1);
      StepIsRemainder(Shift(Bits(i), n - 1), t);
      ShiftShift(Bits(i), n - 1, 1);
    }
  }

  lemma StepIsRemainder(p: Poly, t: bv8)
    requires t < 0x80 && Multiple(Plus(p, Bits(t)))
    ensures Step(t) < 0x80 && Multiple(Plus(Shift(p, 1), Bits(Step(t))))
  {
    assert Step(t) == Reduce(t << 1);
    ReduceIsRemainder(t << 1);
    BitsDouble(t);
    MultipleShift(Plus(p, Bits(t)), 1);
    ShiftPlus(p, Bits(t), 1);
    hide Multiple, Bits, Shift, Reduce, Step;
    MultiplePlus(Plus(Shift(p, 1), Shift(Bits(t), 1)), Plus(Bits(t << 1), Bits(Step(t))));
    assert (Plus(Plus(Shift(p, 1), Shift(Bits(t), 1)), Plus(Bits(t << 1), Bits(Step(t))))
            == Plus(Shift(p, 1), Bits(Step(t))));
  }

  /** CRCAdd: the table's index is computed in a wider type than a byte. */
  function Index(crc: bv8, b: bv8): bv16
  {
    ((crc as bv16) << 1) ^ (b as bv16)
  }

  function Add(crc: bv8, b: bv8): bv8
  {
    Entry((crc << 1) ^ b)
  }

  /** The CRC of a message of any length. */
  function Crc(m: seq<bv8>): bv8
  {
    if m == [] then 0 else Add(Crc(m[..|m| - 1]), m[|m| - 1])
  }

  /** A CRC of 7 bits indexes the table within its 256 entries. */
  lemma IndexInTable(crc: bv8, b: bv8)
    requires crc < 0x80
    ensures Index(crc, b) < 256 && Index(crc, b) as bv8 == (crc << 1) ^ b
  {
  }

  /** Folding the table over a message from 0 divides it, times x^7, by G(x). */
  lemma {:induction false} CrcIsRemainder(m: seq<bv8>)
    ensures Crc(m) < 0x80
    ensures Remainder(Shift(Message(m), 7), Bits(Crc(m)))
  {
    BitsOfG();
    if m == [] {
      assert Shift({}, 7) == {} && Plus({}, {}) == TimesG({});
    } else {
      var c, b := Crc(m[..|m| - 1]), m[|m| - 1];
      CrcIsRemainder(m[..|m| - 1]);
      StepsIsRemainder((c << 1) ^ b, 7);
      AddIsRemainder(Message(m[..|m| - 1]), c, b);
      BitsSmall(Crc(m));
    }
  }

  lemma Cancel(a: Poly, b: Poly, c: Poly, d: Poly)
    ensures Plus(Plus(a, b), Plus(Plus(b, c), d)) == Plus(Plus(a, c), d)
  {
  }

  /** The next byte b, with the remainder c of p(x) * x^7 so far. */
  lemma NextRemainder(p: Poly, c: Poly, b: Poly, r: Poly)
    requires Multiple(Plus(Shift(p, 7), c)) && Multiple(Plus(Shift(Plus(Shift(c, 1), b), 7), r))
    ensures Multiple(Plus(Shift(Plus(Shift(p, 8), b), 7), r))
  {
    hide *;
    MultipleShift(Plus(Shift(p, 7), c), 8);
    ShiftPlus(Shift(p, 7), c, 8);
    ShiftPlus(Shift(c, 1), b, 7);
    ShiftPlus(Shift(p, 8), b, 7);
    ShiftShift(p, 7, 8);
    ShiftShift(p, 8, 7);
    ShiftShift(c, 1, 7);
    MultiplePlus(Plus(Shift(p, 15), Shift(c, 8)), Plus(Plus(Shift(c, 8), Shift(b, 7)), r));
    Cancel(Shift(p, 15), Shift(c, 8), Shift(b, 7), r);
  }

  lemma AddIsRemainder(p: Poly, c: bv8, b: bv8)
    requires c < 0x80 && Multiple(Plus(Shift(p, 7), Bits(c)))
    ensures Multiple(Plus(Shift(Plus(Shift(p, 8), Bits(b)), 7), Bits(Add(c, b))))
  {
    StepsIsRemainder((c << 1) ^ b, 7);
    BitsXor(c << 1, b);
    BitsDouble(c);
    NextRemainder(p, Bits(c), Bits(b), Bits(Add(c, b)));
  }

  /** So the CRC is the remainder, and the only one. */
  lemma CrcIsTheRemainder(m: seq<bv8>, r: Poly)
    ensures Remainder(Shift(Message(m), 7), r) <==> r == Bits(Crc(m))
  {
    CrcIsRemainder(m);
    if Remainder(Shift(Message(m), 7), r) {
      RemainderUnique(Shift(Message(m), 7), r, Bits(Crc(m)));
    }
  }

  /** Bit e of a message, counted from its last bit. */
  predicate MessageBit(m: seq<bv8>, e: nat)
  {
    e < 8 * |m| && Bit(m[|m| - 1 - e / 8], e % 8)
  }

  /** The polynomial of a message has the exponents of the bits that are set. */
  lemma {:induction false} MessageIsBits(m: seq<bv8>, e: nat)
    ensures e in Message(m) <==> MessageBit(m, e)
  {
    if m != [] {
      var front := m[..|m| - 1];
      InShift(Message(front), 8, e);
      if 8 <= e {
        MessageIsBits(front, e - 8);
        assert (e - 8) / 8 == e / 8 - 1 && (e - 8) % 8 == e % 8;
      }
    }
  }

  lemma ByteIsBits(a: bv8, b: bv8)
    requires forall e: nat | e < 8 :: Bit(a, e) == Bit(b, e)
    ensures a == b
  {
    assert Bit(a, 0) == Bit(b, 0) && Bit(a, 1) == Bit(b, 1) && Bit(a, 2) == Bit(b, 2);
    assert Bit(a, 3) == Bit(b, 3) && Bit(a, 4) == Bit(b, 4) && Bit(a, 5) == Bit(b, 5);
    assert Bit(a, 6) == Bit(b, 6) && Bit(a, 7) == Bit(b, 7);
  }

  lemma DifferentMessages(m: seq<bv8>, n: seq<bv8>) returns (e: nat)
    requires |m| == |n| && m != n
    ensures MessageBit(m, e) != MessageBit(n, e)
  {
    var i :| 0 <= i < |m| && m[i] != n[i];
    if forall b: nat | b < 8 :: Bit(m[i], b) == Bit(n[i], b) {
      ByteIsBits(m[i], n[i]);
    }
    var b: nat :| b < 8 && Bit(m[i], b) != Bit(n[i], b);
    e := 8 * (|m| - 1 - i) + b;
    assert e / 8 == |m| - 1 - i && e % 8 == b;
  }

  /** No multiple of G(x) has its exponents within seven of each other. */
  lemma BurstIsNoMultiple(p: Poly, k: nat)
    requires p != {} && forall e | e in p :: k <= e < k + 7
    ensures !Multiple(p)
  {
    var low := set e | e in p :: e - k;
    assert Shift(low, k) == p by {
      forall e: nat ensures e in Shift(low, k) <==> e in p {
        InShift(low, k, e);
        if e in p { assert e - k in low; }
      }
    }
    if Multiple(p) {
      MultipleUnshift(low, k);
      NoSmallMultiple(low);
      assert false;
    }
  }

  /** Two messages of one length, of any length, that differ only within a window of seven bits have
      different CRCs. */
  lemma CrcDetects(m: seq<bv8>, n: seq<bv8>, k: nat)
    requires |m| == |n| && m != n
    requires forall e: nat | MessageBit(m, e) != MessageBit(n, e) :: k <= e < k + 7
    ensures Crc(m) != Crc(n)
  {
    var p, q := Message(m), Message(n);
    var diff := Plus(p, q);
    forall e | e in diff ensures k <= e < k + 7 {
      MessageIsBits(m, e);
      MessageIsBits(n, e);
    }
    var e := DifferentMessages(m, n);
    MessageIsBits(m, e);
    MessageIsBits(n, e);
    assert e in diff;
    CrcIsRemainder(m);
    CrcIsRemainder(n);
    if Crc(m) == Crc(n) {
      SameRemainder(p, q, Bits(Crc(m)));
      BurstIsNoMultiple(diff, k);
    }
  }

  lemma SameRemainder(p: Poly, q: Poly, r: Poly)
    requires Remainder(Shift(p, 7), r) && Remainder(Shift(q, 7), r)
    ensures Multiple(Plus(p, q))
  {
    MultiplePlus(Plus(Shift(p, 7), r), Plus(Shift(q, 7), r));
    ShiftPlus(p, q, 7);
    assert Plus(Plus(Shift(p, 7), r), Plus(Shift(q, 7), r)) == Plus(Shift(p, 7), Shift(q, 7));
    MultipleUnshift(Plus(p, q), 7);
  }

  lemma ByteAsIndex(b: bv8)
    ensures (b as int) as bv8 == b
  {
  }

  /** The five bytes of a command that its CRC covers. */
  function Command(cmd: bv8, data: bv32): seq<bv8>
  {
    [0x40 | cmd, ((data >> 24) & 0xff) as bv8, ((data >> 16) & 0xff) as bv8,
     ((data >> 8) & 0xff) as bv8, (data & 0xff) as bv8]
  }

  /** The bytes that SD_SendCommand puts on the bus. */
  function Frame(cmd: bv8, data: bv32): seq<bv8>
  {
    Command(cmd, data) + [(Crc(Command(cmd, data)) << 1) | 0x01, 0xff]
  }

  /** The number that four bytes stand for, the most significant first. */
  function BigEndian(b: seq<bv8>): bv32
    requires |b| == 4
  {
    ((b[0] as bv32) << 24) | ((b[1] as bv32) << 16) | ((b[2] as bv32) << 8) | (b[3] as bv32)
  }

  lemma DataOfBytes(data: bv32)
    ensures ((((data >> 24) & 0xff) << 24) | (((data >> 16) & 0xff) << 16)
             | (((data >> 8) & 0xff) << 8) | (data & 0xff)) == data
  {
  }

  lemma ByteOf(x: bv32)
    requires x <= 0xff
    ensures (x as bv8) as bv32 == x
  {
  }

  /** What a card reads in a frame: the start bits 01 with the command, its data, the CRC of these with
      the stop bit, and a byte of ones. */
  predicate Carries(f: seq<bv8>, cmd: bv8, data: bv32)
  {
    && |f| == 7 && f[0] == 0x40 | cmd && BigEndian(f[1..5]) == data
    && f[5] & 1 == 1 && f[5] >> 1 == Crc(f[..5]) && f[6] == 0xff
  }

  lemma FrameCarries(cmd: bv8, data: bv32)
    ensures Carries(Frame(cmd, data), cmd, data)
  {
    var f, c := Frame(cmd, data), Command(cmd, data);
    hide Crc;
    CommandIs(cmd, data);
    assert f[..5] == c && f[1..5] == c[1..];
    CrcIsSmall(c);
    StopBit(Crc(c));
  }

  lemma CommandIs(cmd: bv8, data: bv32)
    ensures Command(cmd, data)[0] == 0x40 | cmd && BigEndian(Command(cmd, data)[1..]) == data
  {
    DataOfBytes(data);
    ByteOf((data >> 24) & 0xff);
    ByteOf((data >> 16) & 0xff);
    ByteOf((data >> 8) & 0xff);
    ByteOf(data & 0xff);
  }

  /** A command byte and its data make up one message only. */
  lemma CommandIsOnly(m: seq<bv8>, cmd: bv8, data: bv32)
    requires |m| == 5 && m[0] == 0x40 | cmd && BigEndian(m[1..]) == data
    ensures m == Command(cmd, data)
  {
    BytesOfData(m[1] as bv32, m[2] as bv32, m[3] as bv32, m[4] as bv32);
  }

  lemma BytesOfData(a: bv32, b: bv32, c: bv32, d: bv32)
    requires a <= 0xff && b <= 0xff && c <= 0xff && d <= 0xff
    ensures var x := (a << 24) | (b << 16) | (c << 8) | d;
            (x >> 24) & 0xff == a && (x >> 16) & 0xff == b && (x >> 8) & 0xff == c && x & 0xff == d
  {
  }

  lemma CrcIsSmall(m: seq<bv8>)
    ensures Crc(m) < 0x80
  {
    CrcIsRemainder(m);
  }

  lemma StopBit(c: bv8)
    requires c < 0x80
    ensures ((c << 1) | 0x01) & 1 == 1 && ((c << 1) | 0x01) >> 1 == c
  {
  }

  /** The six bytes of a frame are a multiple of G(x) of 47 bits, and then the stop bit. */
  lemma FrameIsMultiple(cmd: bv8, data: bv32) returns (w: Poly)
    ensures Multiple(w) && Message(Frame(cmd, data)[..6]) == Plus(Shift(w, 1), {0})
    ensures forall e | e in w :: e < 47
  {
    var m := Command(cmd, data);
    var c := Crc(m);
    CrcIsRemainder(m);
    w := Plus(Shift(Message(m), 7), Bits(c));
    var f := Frame(cmd, data)[..6];
    assert f[..|f| - 1] == m && f[5] == (c << 1) ^ 0x01 by {
      assert (c << 1) | 0x01 == (c << 1) ^ 0x01;
    }
    BitsXor(c << 1, 0x01);
    BitsDouble(c);
    assert Bits(0x01) == {0};
    BitsSmall(c);
    forall e | e in w ensures e < 47 {
      InShift(Message(m), 7, e);
      if 7 <= e { MessageIsBits(m, e - 7); }
    }
    FrameBits(Message(m), Bits(c));
  }

  lemma FrameBits(p: Poly, c: Poly)
    ensures Plus(Shift(p, 8), Plus(Shift(c, 1), {0})) == Plus(Shift(Plus(Shift(p, 7), c), 1), {0})
  {
    hide Shift;
    ShiftShift(p, 7, 1);
    ShiftPlus(Shift(p, 7), c, 1);
  }

  /** A card that divides what it receives notices any damage within a window of seven bits. */
  lemma DamageIsNoticed(w: Poly, damage: Poly, k: nat)
    requires Multiple(w) && damage != {} && forall e | e in damage :: k <= e < k + 7
    ensures !Multiple(Plus(w, damage))
  {
    if Multiple(Plus(w, damage)) {
      MultiplePlus(w, Plus(w, damage));
      assert Plus(w, Plus(w, damage)) == damage;
      BurstIsNoMultiple(damage, k);
    }
  }

  class SdCard {
    const table: array<bv8>
    var bus: seq<bv8>

    ghost predicate Ready()
      reads this, table
    {
      table.Length == 256 && forall k | 0 <= k < 256 :: table[k] == Entry(k as bv8)
    }

    constructor ()
      ensures table.Length == 256 && fresh(table) && bus == []
    {
      table := new bv8[256];
      bus := [];
    }

    /** GenerateCRCTable. */
    method GenerateTable()
      requires table.Length == 256
      modifies table
      ensures Ready()
    {
      hide Entry;
      for i := 0 to 256
        invariant forall k | 0 <= k < i :: table[k] == Entry(k as bv8)
      {
        FillEntry(i);
      }
    }

    method FillEntry(i: nat)
      requires table.Length == 256 && i < 256
      modifies table
      ensures table[i] == Entry(i as bv8)
      ensures forall k | 0 <= k < 256 && k != i :: table[k] == old(table[k])
    {
      var b := i as bv8;
      table[i] := if b & 0x80 != 0 then b ^ 0x89 else b;
      for j := 1 to 8
        invariant table[i] == Steps(Reduce(b), j - 1)
        invariant forall k | 0 <= k < 256 && k != i :: table[k] == old(table[k])
      {
        table[i] := table[i] << 1;
        if table[i] & 0x80 != 0 {
          table[i] := table[i] ^ 0x89;
        }
      }
    }

    /** CRCAdd. */
    method CrcAdd(crc: bv8, b: bv8) returns (r: bv8)
      requires Ready() && crc < 0x80
      ensures r == Add(crc, b)
    {
      IndexInTable(crc, b);
      var i := Index(crc, b) as bv8;
      hide Index, Entry;
      ByteAsIndex(i);
      r := table[i as int];
    }

    /** GetCommandCRC. */
    method CommandCrc(cmd: bv8, data: bv32) returns (crc: bv8)
      requires Ready()
      ensures crc == Crc(Command(cmd, data)) && crc < 0x80
      ensures (forall m: seq<bv8> | |m| == 5 && m[0] == 0x40 | cmd && BigEndian(m[1..]) == data ::
                 crc == Crc(m))
    {
      crc := 0;
      var m := Command(cmd, data);
      forall o: seq<bv8> | |o| == 5 && o[0] == 0x40 | cmd && BigEndian(o[1..]) == data ensures o == m {
        CommandIsOnly(o, cmd, data);
      }
      for i := 0 to 5
        invariant crc == Crc(m[..i]) && crc < 0x80
      {
        crc := CrcAdd(crc, m[i]);
        assert m[..i + 1][..i] == m[..i];
        CrcIsRemainder(m[..i + 1]);
      }
      assert m[..5] == m;
    }

    /** SD_SendCommand. */
    method SendCommand(cmd: bv8, data: bv32)
      requires Ready()
      modifies `bus
      ensures old(bus) <= bus && bus[|old(bus)|..] == Frame(cmd, data)
      ensures Carries(bus[|old(bus)|..], cmd, data)
    {
      FrameCarries(cmd, data);
      hide Command, Crc;
      bus := bus + Command(cmd, data);
      var crc := CommandCrc(cmd, data);
      bus := bus + [(crc << 1) | 0x01];
      bus := bus + [0xff];
    }
  }
}
