/** The six lookup tables of the two DDS channels: each has a tag that says which waveform it holds.
    The main loop rewrites a table whose waveform is to change; the lookup-RAM interrupt refills halves
    of the tables that play a file. */
module LookupRam {
  import opened Arithmetic

  const SIZE: nat := 1024
  const HALF: nat := 512
  const TABLES: nat := 6
  const FIXED: int := 32767

  datatype Wave = Square | Triangle | Sawtooth | Sine | Arb | NoWave

  function Clamp(sample: int): (r: int)
    ensures -FIXED < r < FIXED
    ensures sample != 0 ==> (0 < r <==> 0 < sample)
  {
    var s := if sample > 0 then sample + 1280 else sample - 1280;
    if s >= FIXED then FIXED - 1 else if s <= -FIXED then -FIXED + 1 else s
  }

  /** It never reverses an order, is odd but at 0, and moves what it does not clip by 1280. */
  lemma ClampIs(x: int, y: int)
    ensures x <= y ==> Clamp(x) <= Clamp(y)
    ensures x != 0 ==> Clamp(-x) == -Clamp(x)
    ensures 0 < x ==> Clamp(x) == x + 1280 || (Clamp(x) == FIXED - 1 && FIXED - 1 <= x + 1280)
    ensures Clamp(0) == Clamp(-1) + 1
  {
  }

  function TriangleSample(t: nat): int
  {
    if t < 256 then Clamp(t * 127)
    else if t < 768 then Clamp(FIXED - (t - 256) * 127)
    else Clamp((t - 768) * 127 - FIXED)
  }

  /** Sample t of a waveform; the sine comes from a table. */
  function Sample(wave: Wave, sine: seq<int>, t: nat): int
    requires t < SIZE && |sine| == SIZE
  {
    match wave
    case Square => if t < 512 then FIXED else -FIXED
    case Triangle => TriangleSample(t)
    case Sawtooth => Clamp(t * 63 - FIXED)
    case Sine => sine[t]
    case Arb => 0
    case NoWave => sine[t]
  }

  /** The square wave is high for the first half of the table and low for the second. */
  lemma SquareShape(sine: seq<int>, t: nat)
    requires t < SIZE && |sine| == SIZE
    ensures Sample(Square, sine, t) == if t < HALF then FIXED else -FIXED
  {
  }

  /** The triangle rises over the first quarter, falls over the two in the middle and rises again over
      the last, from near 0 to one peak, to the other, and back. */
  lemma TriangleShape(sine: seq<int>, t: nat, u: nat)
    requires t <= u < SIZE && |sine| == SIZE
    ensures u < 256 || 768 <= t ==> Sample(Triangle, sine, t) <= Sample(Triangle, sine, u)
    ensures 256 <= t && u < 768 ==> Sample(Triangle, sine, u) <= Sample(Triangle, sine, t)
    ensures Sample(Triangle, sine, 0) == -1280 && Sample(Triangle, sine, 1) == 127 + 1280
    ensures Sample(Triangle, sine, 255) == Sample(Triangle, sine, 256) == FIXED - 1
    ensures Sample(Triangle, sine, 767) == Sample(Triangle, sine, 768) == -FIXED + 1
    ensures Sample(Triangle, sine, 514) == 1 + 1280 && Sample(Triangle, sine, 1023) == -382 - 1280
  {
  }

  /** The sawtooth rises over the whole table, by 63 a sample where it is not clipped, and changes its
      sign once. */
  lemma SawtoothShape(sine: seq<int>, t: nat, u: nat)
    requires t <= u < SIZE && |sine| == SIZE
    ensures Sample(Sawtooth, sine, t) <= Sample(Sawtooth, sine, u)
    ensures Sample(Sawtooth, sine, 0) == -FIXED + 1 && Sample(Sawtooth, sine, 1023) == FIXED - 1
    ensures Sample(Sawtooth, sine, t) < 0 <==> t <= 520
    ensures (t < u && -FIXED + 1 < Sample(Sawtooth, sine, t) && Sample(Sawtooth, sine, u) < FIXED - 1
             ==> (Sample(Sawtooth, sine, u) - Sample(Sawtooth, sine, t)
                  == 63 * (u - t) + if t <= 520 < u then 2560 else 0))
  {
  }

  /** The sine is what the precomputed table holds, an unknown waveform is a sine too, and a table for
      the file is silent until the file is played. */
  lemma TableShapes(sine: seq<int>, t: nat)
    requires t < SIZE && |sine| == SIZE
    ensures Sample(Sine, sine, t) == Sample(NoWave, sine, t) == sine[t] && Sample(Arb, sine, t) == 0
  {
  }

  /** Every sample fits in the 16 bits of a table's entry. */
  lemma SamplesFit(wave: Wave, sine: seq<int>, t: nat)
    requires t < SIZE && |sine| == SIZE && -FIXED <= sine[t] <= FIXED
    ensures -0x8000 <= Sample(wave, sine, t) <= 0x7fff
  {
  }

  /** A reading of the interrupt's register: bit t belongs to table t. */
  type Bits = s: seq<bool> | |s| == 6 witness [false, false, false, false, false, false]

  type Tags = s: seq<Wave> | |s| == 6 witness [NoWave, NoWave, NoWave, NoWave, NoWave, NoWave]

  function HalfOf(bit: bool): nat
  {
    if bit then 0 else HALF
  }

  /** The half of table t that an interrupt refills, if any: tables 0 and 3 are the channels' own, the
      others their modulations.  Two channels that both play the file go by the bit of the first. */
  function Refilled(value: Bits, previous: Bits, tags: Tags, on: Bits, t: nat): Option<nat>
    requires t < TABLES
  {
    if tags[t] != Arb then None
    else if t == 3 && tags[0] == Arb then
      if value[0] != previous[0] then Some(HalfOf(value[0])) else None
    else if value[t] != previous[t] && Plays(on, t) then Some(HalfOf(value[t]))
    else None
  }

  /** Table t is refilled when its turn comes: a modulation only while it is on. */
  predicate Plays(on: Bits, t: nat)
    requires t < TABLES
  {
    t == 0 || t == 3 || on[t]
  }

  /** The interrupt mask that the main loop sets before it rewrites tables: `low` says which frequencies
      are below 500 Hz.  The modulations of the second channel go by those of the first one. */
  function Mask(wanted: Tags, on: Bits, low: Bits): Bits
  {
    [wanted[0] == Arb && low[0], wanted[1] == Arb && on[1] && low[1], wanted[2] == Arb && on[2] && low[2],
     wanted[3] == Arb && low[3], wanted[4] == Arb && on[4] && low[1], wanted[5] == Arb && on[5] && low[2]]
  }

  /** The mask has the bit of a table as documented, for a waveform from the file below 500 Hz, except
      for a modulation of the second channel whose frequency and the first one's lie on different sides
      of it. */
  lemma MaskAsDocumented(wanted: Tags, on: Bits, low: Bits, t: nat)
    requires t < TABLES
    ensures ((Mask(wanted, on, low)[t] <==> wanted[t] == Arb && Plays(on, t) && low[t])
             <==> !(t in {4, 5} && wanted[t] == Arb && on[t] && low[t] != low[t - 3]))
  {
  }

  /** That happens: the second channel's amplitude modulation plays the file slowly, but the frequency of
      the first one's, which is off, is high. */
  lemma MaskExample()
    ensures var none: Tags := [NoWave, NoWave, NoWave, NoWave, NoWave, NoWave];
            var bits: Bits := [false, false, false, false, true, false];
            Mask(none[4 := Arb], bits, bits) == [false, false, false, false, false, false]
  {
  }

  /** Without a table that is to play the file no interrupt comes, so that every table can be rewritten. */
  lemma NoneToPlay(wanted: Tags, on: Bits, low: Bits, from: Tags, t: nat)
    requires t < TABLES && Arb !in wanted
    ensures Safe(from[t], wanted[t], true in Mask(wanted, on, low) && Plays(on, t))
  {
    assert forall u | 0 <= u < TABLES :: wanted[u] in wanted;
  }

  class Lookup {
    const ram: array2<int>
    const sine: seq<int>
    var tags: Tags
    var previous: Bits
    var mask: Bits      // the interrupt mask of the device

    ghost predicate Valid()
      reads this
    {
      ram.Length0 == TABLES && ram.Length1 == SIZE && |sine| == SIZE
    }

    /** A table whose tag names a waveform of its own holds the samples of that waveform. */
    ghost predicate Coherent(t: nat)
      requires Valid() && t < TABLES
      reads this, ram
    {
      tags[t] != Arb && tags[t] != NoWave ==>
        forall i | 0 <= i < SIZE :: ram[t, i] == Sample(tags[t], sine, i)
    }

    constructor (sine: seq<int>)
      requires |sine| == SIZE
      ensures Valid() && fresh(ram) && this.sine == sine && forall t | 0 <= t < TABLES :: Coherent(t)
      ensures !Enabled() && (forall t | 0 <= t < TABLES :: tags[t] == NoWave && !previous[t])
    {
      ram := new int[TABLES, SIZE];
      this.sine := sine;
      tags := [NoWave, NoWave, NoWave, NoWave, NoWave, NoWave];
      previous := [false, false, false, false, false, false];
      mask := [false, false, false, false, false, false];
    }

    /** What ram_wav_update writes to one half of a table. */
    method Refill(t: nat, lo: nat, samples: seq<int>)
      requires Valid() && t < TABLES && lo + HALF <= SIZE && |samples| == HALF
      modifies ram
      ensures (forall u, i | 0 <= u < TABLES && 0 <= i < SIZE ::
                 ram[u, i] == if u == t && lo <= i < lo + HALF then samples[i - lo] else old(ram[u, i]))
    {
      for k := 0 to HALF
        invariant (forall u, i | 0 <= u < TABLES && 0 <= i < SIZE ::
                     ram[u, i] == if u == t && lo <= i < lo + k then samples[i - lo] else old(ram[u, i]))
      {
        ram[t, lo + k] := samples[k];
      }
    }

    /** One modulation table of the interrupt. */
    method Modulation(t: nat, value: Bits, on: Bits, samples: seq<int>)
      requires Valid() && t < TABLES && t != 0 && t != 3 && |samples| == HALF
      modifies ram
      ensures (forall u, i | 0 <= u < TABLES && 0 <= i < SIZE ::
                 ram[u, i] == if u == t then Written(value, on, t, i, samples, old(ram[u, i])) else old(ram[u, i]))
    {
      if value[t] != previous[t] && tags[t] == Arb && on[t] {
        if value[t] {
          Refill(t, 0, samples);
        } else {
          Refill(t, HALF, samples);
        }
      }
    }

    /** Entry i of table t after an interrupt, from what it was. */
    ghost function Written(value: Bits, on: Bits, t: nat, i: nat, samples: seq<int>, was: int): int
      requires Valid() && t < TABLES && |samples| == HALF
      reads this
    {
      match Refilled(value, previous, tags, on, t)
      case None => was
      case Some(lo) => if lo <= i < lo + HALF then samples[i - lo] else was
    }

    /** What the interrupt does to the RAMs. */
    twostate predicate Interrupted(value: Bits, on: Bits, samples: seq<seq<int>>)
      requires Valid() && |samples| == TABLES && forall t | 0 <= t < TABLES :: |samples[t]| == HALF
      reads this, ram
    {
      forall t, i | 0 <= t < TABLES && 0 <= i < SIZE ::
        ram[t, i] == old(Written(value, on, t, i, samples[t], ram[t, i]))
    }

    /** The first part of the interrupt: the channels' own tables. */
    method OwnTables(value: Bits, on: Bits, samples: seq<seq<int>>)
      requires Valid() && |samples| == TABLES && forall t | 0 <= t < TABLES :: |samples[t]| == HALF
      modifies ram
      ensures (forall t, i | 0 <= t < TABLES && 0 <= i < SIZE ::
                 ram[t, i] == if t == 0 || t == 3 then Written(value, on, t, i, samples[t], old(ram[t, i]))
                              else old(ram[t, i]))
    {
      if value[0] != previous[0] && tags[0] == Arb && tags[3] == Arb {
        if value[0] {
          Refill(0, 0, samples[0]);
          Refill(3, 0, samples[3]);
        } else {
          Refill(0, HALF, samples[0]);
          Refill(3, HALF, samples[3]);
        }
      } else if value[0] != previous[0] && tags[0] == Arb {
        if value[0] {
          Refill(0, 0, samples[0]);
        } else {
          Refill(0, HALF, samples[0]);
        }
      } else if value[3] != previous[3] && tags[3] == Arb && tags[0] != Arb {
        if value[3] {
          Refill(3, 0, samples[3]);
        } else {
          Refill(3, HALF, samples[3]);
        }
      }
    }

    /** The second part: the modulation tables. */
    method Modulations(value: Bits, on: Bits, samples: seq<seq<int>>)
      requires Valid() && |samples| == TABLES && forall t | 0 <= t < TABLES :: |samples[t]| == HALF
      modifies ram
      ensures (forall t, i | 0 <= t < TABLES && 0 <= i < SIZE ::
                 ram[t, i] == if t == 0 || t == 3 then old(ram[t, i])
                              else Written(value, on, t, i, samples[t], old(ram[t, i])))
    {
      hide Refilled, Written;
      Modulation(1, value, on, samples[1]);
      Modulation(2, value, on, samples[2]);
      Modulation(4, value, on, samples[4]);
      Modulation(5, value, on, samples[5]);
    }

    /** ISR_lookupRam.  `samples` are what the file has for each table, `on` which modulations are. */
    method Isr(value: Bits, on: Bits, samples: seq<seq<int>>)
      requires Valid() && |samples| == TABLES && forall t | 0 <= t < TABLES :: |samples[t]| == HALF
      modifies `previous, ram
      ensures Interrupted(value, on, samples) && previous == value
      ensures forall t | 0 <= t < TABLES && old(Coherent(t)) :: Coherent(t)
    {
      hide Refilled;
      OwnTables(value, on, samples);
      Modulations(value, on, samples);
      forall t | 0 <= t < TABLES && tags[t] != Arb
        ensures Refilled(value, previous, tags, on, t).None?
      {
        RefilledOnlyPlaying(value, previous, tags, on, t);
      }
      previous := value;
    }

    /** The interrupt comes for any table whose bit the mask has; it then looks at all tables. */
    predicate Enabled()
      reads this
    {
      true in mask
    }

    /** An interrupt can write to the table. */
    ghost predicate Exposed(t: nat, on: Bits, enabled: bool)
      requires t < TABLES
      reads this
    {
      enabled && tags[t] == Arb && Plays(on, t)
    }

    /** Interrupts that come between two steps of the main loop. */
    method Interfere(on: Bits, enabled: bool)
      requires Valid()
      modifies `previous, ram
      ensures (forall t, i | 0 <= t < TABLES && 0 <= i < SIZE ::
                 !Exposed(t, on, enabled) ==> ram[t, i] == old(ram[t, i]))
    {
      hide Refilled;
      var n: nat := *;
      while enabled && n > 0
        invariant (forall t, i | 0 <= t < TABLES && 0 <= i < SIZE ::
                     !Exposed(t, on, enabled) ==> ram[t, i] == old(ram[t, i]))
        decreases n
      {
        var value: Bits, samples: seq<seq<int>> := *, *;
        if |samples| == TABLES && forall t | 0 <= t < TABLES :: |samples[t]| == HALF {
          forall t | 0 <= t < TABLES && !Exposed(t, on, enabled)
            ensures Refilled(value, previous, tags, on, t).None?
          {
            RefilledOnlyPlaying(value, previous, tags, on, t);
          }
          Isr(value, on, samples);
        }
        n := n - 1;
      }
    }

    /** UpdateRam.  The table comes out right if no interrupt can write to it. */
    method UpdateRam(t: nat, wave: Wave, on: Bits, enabled: bool)
      requires Valid() && t < TABLES
      modifies `previous, ram
      ensures !Exposed(t, on, enabled) ==> forall i | 0 <= i < SIZE :: ram[t, i] == Sample(wave, sine, i)
      ensures (forall u, i | 0 <= u < TABLES && 0 <= i < SIZE && u != t ::
                 !Exposed(u, on, enabled) ==> ram[u, i] == old(ram[u, i]))
    {
      hide Sample;
      for i := 0 to SIZE
        invariant !Exposed(t, on, enabled) ==> forall k | 0 <= k < i :: ram[t, k] == Sample(wave, sine, k)
        invariant (forall u, k | 0 <= u < TABLES && 0 <= k < SIZE && u != t ::
                     !Exposed(u, on, enabled) ==> ram[u, k] == old(ram[u, k]))
      {
        ram[t, i] := Sample(wave, sine, i);
        Interfere(on, enabled);
      }
    }

    /** A table of UpdateRamLookups. */
    method UpdateTable(t: nat, wanted: Wave, on: Bits, enabled: bool)
      requires Valid() && t < TABLES
      modifies `previous, `tags, ram
      ensures tags == old(tags)[t := wanted]
      ensures old(Coherent(t)) && Safe(old(tags[t]), wanted, enabled && Plays(on, t)) ==> Coherent(t)
      ensures forall u | 0 <= u < TABLES && u != t && old(Coherent(u)) :: Coherent(u)
      ensures (!enabled ==>
                 forall u, i | 0 <= u < TABLES && 0 <= i < SIZE && u != t :: ram[u, i] == old(ram[u, i]))
    {
      hide Sample;
      if wanted != tags[t] {
        UpdateRam(t, wanted, on, enabled);
        tags := tags[t := wanted];
        Interfere(on, enabled);
      }
    }

    /** UpdateRamLookups: every table gets the tag that is wanted, and stays coherent where that is
        safe. */
    method UpdateRamLookups(wanted: Tags, on: Bits)
      requires Valid()
      modifies `previous, `tags, ram
      ensures tags == wanted
      ensures (forall t | 0 <= t < TABLES && old(Coherent(t))
                          && Safe(old(tags[t]), wanted[t], Enabled() && Plays(on, t)) :: Coherent(t))
    {
      for c := 0 to 2
        invariant forall t | 0 <= t < TABLES :: tags[t] == if t < 3 * c then wanted[t] else old(tags[t])
        invariant forall t | 3 * c <= t < TABLES && old(Coherent(t)) :: Coherent(t)
        invariant (forall t | 0 <= t < 3 * c && old(Coherent(t))
                              && Safe(old(tags[t]), wanted[t], Enabled() && Plays(on, t)) :: Coherent(t))
      {
        hide Coherent, Plays, Safe, Enabled;
        UpdateTable(3 * c, wanted[3 * c], on, Enabled());
        UpdateTable(3 * c + 1, wanted[3 * c + 1], on, Enabled());
        UpdateTable(3 * c + 2, wanted[3 * c + 2], on, Enabled());
      }
    }

    /** The end of updateVariablesOnFpga. */
    method SetMask(wanted: Tags, on: Bits, low: Bits)
      modifies `mask
      ensures mask == Mask(wanted, on, low)
    {
      var m0, m1, m2, m3, m4, m5 := false, false, false, false, false, false;
      if wanted[0] == Arb && low[0] {
        m0 := true;
      }
      if wanted[1] == Arb && on[1] && low[1] {
        m1 := true;
      }
      if wanted[2] == Arb && on[2] && low[2] {
        m2 := true;
      }
      if wanted[3] == Arb && low[3] {
        m3 := true;
      }
      if wanted[4] == Arb && on[4] && low[1] {
        m4 := true;
      }
      if wanted[5] == Arb && on[5] && low[2] {
        m5 := true;
      }
      mask := [m0, m1, m2, m3, m4, m5];
    }

    /** A turn of the main loop: the mask first, for the waveforms that are wanted, and then the
        tables. */
    method Turn(wanted: Tags, on: Bits, low: Bits)
      requires Valid()
      modifies `previous, `tags, `mask, ram
      ensures tags == wanted && mask == Mask(wanted, on, low)
      ensures (forall t | 0 <= t < TABLES && old(Coherent(t))
                          && Safe(old(tags[t]), wanted[t], Enabled() && Plays(on, t)) :: Coherent(t))
    {
      Interfere(on, Enabled());
      SetMask(wanted, on, low);
      UpdateRamLookups(wanted, on);
    }

    /** The rewriting of a playing table, up to any waveform of its own, with one interrupt before the tag
        changes: it leaves a wrong sample. */
    method TornTable(t: nat, wave: Wave, on: Bits)
      requires Valid() && t < TABLES && Plays(on, t) && tags[t] == Arb && wave != Arb && wave != NoWave
      modifies `previous, `tags, ram
      ensures tags == old(tags)[t := wave] && !Coherent(t)
    {
      UpdateRam(t, wave, on, false);
      var before := previous;
      var value: Bits := seq(6, i requires 0 <= i < 6 => !before[i]);
      var bit := if t == 3 && tags[0] == Arb then 0 else t;
      var lo := HalfOf(value[bit]);
      var v := if Sample(wave, sine, lo) == 0 then 1 else 0;
      var half := seq(HALF, _ => v);
      Isr(value, on, [half, half, half, half, half, half]);
      assert ram[t, lo] == v;
      tags := tags[t := wave];
    }

    /** A turn that is not safe for table t can leave it wrong, whatever the other tables are to be: this
        one does.  An interrupt comes because another table is to play the file. */
    method TornUpdate(t: nat, wanted: Tags, on: Bits, low: Bits)
      requires Valid() && t < TABLES && true in Mask(wanted, on, low)
      requires !Safe(tags[t], wanted[t], Plays(on, t))
      modifies `previous, `tags, `mask, ram
      ensures tags == wanted && mask == Mask(wanted, on, low) && Enabled() && !Coherent(t)
    {
      SetMask(wanted, on, low);
      for u := 0 to TABLES
        invariant forall k | 0 <= k < TABLES :: tags[k] == if k < u then wanted[k] else old(tags[k])
        invariant mask == Mask(wanted, on, low) && (t < u ==> !Coherent(t))
      {
        if u == t {
          TornTable(t, wanted[t], on);
        } else {
          UpdateTable(u, wanted[u], on, false);
        }
      }
    }
  }

  /** A table can be rewritten with interrupts on if it does not play, or is to play, or to be left
      without a waveform. */
  predicate Safe(from: Wave, to: Wave, enabled: bool)
  {
    !enabled || from != Arb || to == Arb || to == NoWave
  }

  /** What a run of interrupts refills of table t. */
  function Refills(values: seq<Bits>, previous: Bits, tags: Tags, on: Bits, t: nat): seq<nat>
    requires t < TABLES
  {
    if values == [] then []
    else
      var rest := Refills(values[1..], values[0], tags, on, t);
      match Refilled(values[0], previous, tags, on, t)
      case None => rest
      case Some(lo) => [lo] + rest
  }

  /** While a table plays, its two halves are refilled in turns. */
  lemma {:induction false} HalvesAlternate(values: seq<Bits>, previous: Bits, tags: Tags, on: Bits, t: nat)
    requires t < TABLES && tags[t] == Arb && Plays(on, t)
    ensures (var r := Refills(values, previous, tags, on, t);
             && (r != [] ==> r[0] == HalfOf(!previous[if t == 3 && tags[0] == Arb then 0 else t]))
             && forall k | 0 <= k < |r| - 1 :: {r[k], r[k + 1]} == {0, HALF})
  {
    if values != [] {
      HalvesAlternate(values[1..], values[0], tags, on, t);
    }
  }

  /** An interrupt refills only tables that are tagged as playing, when their bit has changed, and
      then the half that the bit names; but a second channel that plays along goes by the first one's
      bit, and a modulation must be on. */
  lemma RefilledOnlyPlaying(value: Bits, previous: Bits, tags: Tags, on: Bits, t: nat)
    requires t < TABLES
    ensures (Refilled(value, previous, tags, on, t).Some?
             <==> (tags[t] == Arb && Plays(on, t)
                   && var bit := if t == 3 && tags[0] == Arb then 0 else t; value[bit] != previous[bit]))
    ensures (Refilled(value, previous, tags, on, t).Some? ==>
               var bit := if t == 3 && tags[0] == Arb then 0 else t;
               Refilled(value, previous, tags, on, t).value == if value[bit] then 0 else 512)
  {
  }
}
