/** One transaction of the SPI master: the write data and then zeros go out, one byte at a time, while
    the replies to the zeros are stored. */
module Spi {
  /** What a transaction is to put on the wire. */
  function Wire(write: seq<bv8>, readLength: nat): (s: seq<bv8>)
    ensures |s| == |write| + readLength
  {
    write + seq(readLength, _ => 0)
  }

  /** The write data first, and zeros behind it. */
  lemma WireIs(write: seq<bv8>, readLength: nat, k: nat)
    requires k < |write| + readLength
    ensures Wire(write, readLength)[k] == if k < |write| then write[k] else 0
  {
  }

  /** The driver's local variables: bytes and zeros still to send, replies still to ignore, replies
      stored. */
  datatype Local = Local(w: nat, zeros: nat, ignore: nat, r: nat, credits: int)

  class Master {
    // History: the bytes given to the device, its replies, and how many of these the driver has taken.
    ghost var sent: seq<bv8>
    var replies: seq<bv8>
    var taken: nat
    var outstanding: nat

    // The control register's chip-select bit.
    var forced: bool

    /** At most one byte is with the device. */
    ghost predicate Valid()
      reads this
    {
      && outstanding <= 1 && taken <= |replies|
      && |sent| == taken + outstanding && |replies| <= |sent|
    }

    constructor ()
      ensures Valid() && sent == replies == [] && !forced
    {
      sent, replies, taken, outstanding, forced := [], [], 0, 0, false;
    }

    /** The device answers the byte it has, if it has not yet done so. */
    method Answer()
      requires Valid()
      modifies `replies
      ensures Valid() && |replies| == |sent| && old(replies) <= replies
    {
      if outstanding == 1 && taken == |replies| {
        var reply: bv8 := *;
        replies := replies + [reply];
      }
    }

    /** The wait for a status the loop can act on.  The device takes its time, but does get there. */
    method AwaitStatus(credits: int) returns (trdy: bool, rrdy: bool)
      requires Valid() && (credits == 0 ==> outstanding == 1)
      modifies `replies
      ensures Valid() && old(replies) <= replies
      ensures rrdy == (taken < |replies|)
      ensures (trdy && credits != 0) || rrdy
    {
      var early: bool := *;
      trdy := *;
      rrdy := taken < |replies|;
      if !early || !((trdy && credits != 0) || rrdy) {
        Answer();
        trdy, rrdy := true, taken < |replies|;
      }
    }

    method WriteTxData(b: bv8)
      requires Valid() && outstanding == 0
      modifies `sent, `outstanding
      ensures Valid() && sent == old(sent) + [b] && outstanding == 1
    {
      sent := sent + [b];
      outstanding := 1;
    }

    method ReadRxData() returns (b: bv8)
      requires Valid() && taken < |replies|
      modifies `taken, `outstanding
      ensures Valid() && taken == old(taken) + 1 && outstanding == 0 && b == replies[old(taken)]
    {
      b := replies[taken];
      taken := taken + 1;
      outstanding := 0;
    }

    /** alt_avalon_spi_command, for as many turns of its loop.  With anything to transfer it is done
        after two turns a byte; with nothing to transfer it is never done. */
    method Command(write: seq<bv8>, readLength: nat, readData: array<bv8>, toggle: bool, merge: bool, turns: nat)
      returns (rc: nat, done: bool)
      requires Valid() && outstanding == 0 && readLength <= readData.Length
      modifies this, readData
      ensures Valid() && old(replies) <= replies && outstanding <= 1
      ensures done <==> 0 < 2 * (|write| + readLength) <= turns
      ensures sent <= old(sent) + Wire(write, readLength)
      ensures (done ==>
                 && rc == readLength && outstanding == 0 && sent == old(sent) + Wire(write, readLength)
                 && (forall k | 0 <= k < readLength :: readData[k] == replies[old(taken) + |write| + k])
                 && forced == (merge && (!toggle || old(forced))))
      ensures forall k | readLength <= k < readData.Length :: readData[k] == old(readData[k])
    {
      hide Wire;
      var l := Local(0, readLength, |write|, 0, 1);
      if !toggle {
        forced := true;
      }
      rc, done := 0, false;
      var n := 0;
      while n < turns && !done
        invariant 0 <= n <= turns && old(replies) <= replies
        invariant Running(old(sent), old(taken), write, readLength, readData, l, done)
        invariant forall k | readLength <= k < readData.Length :: readData[k] == old(readData[k])
        invariant 0 < |write| + readLength ==> n == 2 * (taken - old(taken)) + outstanding
        invariant forced == (!toggle || old(forced))
        decreases turns - n
      {
        n := n + 1;
        l, done := Turn(old(sent), old(taken), write, readLength, readData, l);
      }
      if done {
        if !merge {
          forced := false;
        }
        rc := readLength;
      }
    }

    /** The state between two turns. */
    ghost predicate Running(sentBefore: seq<bv8>, takenBefore: nat, write: seq<bv8>, readLength: nat,
                            readData: array<bv8>, l: Local, done: bool)
      reads this, readData
    {
      && Sending(sentBefore, write, readLength, l.w, l.zeros)
      && Storing(takenBefore, write, readLength, readData, l.ignore, l.r)
      && (if |write| + readLength == 0 then l.credits in {1, -1024} && outstanding == 0
          else l.credits == 1 - outstanding)
      && |sent| == |sentBefore| + taken - takenBefore + outstanding
      && (done <==> 0 < |write| + readLength == taken - takenBefore)
    }

    /** One turn of the loop. */
    method Turn(ghost sentBefore: seq<bv8>, ghost takenBefore: nat, write: seq<bv8>, readLength: nat,
                readData: array<bv8>, l: Local)
      returns (l': Local, done: bool)
      requires Running(sentBefore, takenBefore, write, readLength, readData, l, false)
      modifies `sent, `replies, `taken, `outstanding, readData
      ensures Running(sentBefore, takenBefore, write, readLength, readData, l', done)
      ensures old(replies) <= replies
      ensures forall k | readLength <= k < readData.Length :: readData[k] == old(readData[k])
      ensures (0 < |write| + readLength ==>
                 2 * taken + outstanding == 2 * old(taken) + old(outstanding) + 1)
    {
      hide Wire;
      l', done := l, false;
      var trdy, rrdy := AwaitStatus(l.credits);
      if trdy && l.credits > 0 {
        var credits, w, zeros := SendNext(sentBefore, write, readLength, l.w, l.zeros, l.credits);
        l' := l.(credits := credits, w := w, zeros := zeros);
      }
      if rrdy {
        var ignore, r := TakeReply(takenBefore, write, readLength, readData, l.ignore, l.r);
        l' := l'.(ignore := ignore, r := r, credits := l'.credits + 1);
        done := ignore == 0 && r == readLength;
      }
    }

    /** What has been sent is the first part of what is to be. */
    ghost predicate Sending(before: seq<bv8>, write: seq<bv8>, readLength: nat, w: nat, zeros: nat)
      reads this
    {
      && Valid() && w <= |write| && zeros <= readLength && (w < |write| ==> zeros == readLength)
      && sent == before + Wire(write, readLength)[..w + (readLength - zeros)]
    }

    /** The replies after the first |write| ones have been stored. */
    ghost predicate Storing(before: nat, write: seq<bv8>, readLength: nat, readData: array<bv8>, ignore: nat, r: nat)
      reads this, readData
    {
      && ignore <= |write| && r <= readLength <= readData.Length && (0 < ignore ==> r == 0)
      && taken == before + |write| - ignore + r && taken <= |replies|
      && (forall k | 0 <= k < r :: readData[k] == replies[before + |write| + k])
    }

    /** Spend a credit: on the next byte or, if there is none left, on never sending again. */
    method SendNext(ghost before: seq<bv8>, write: seq<bv8>, readLength: nat, w: nat, zeros: nat, credits: int)
      returns (credits': int, w': nat, zeros': nat)
      requires Sending(before, write, readLength, w, zeros) && outstanding == 0
      modifies `sent, `outstanding
      ensures Sending(before, write, readLength, w', zeros')
      ensures if w == |write| && zeros == 0 then credits' == -1024 else credits' == credits - 1
      ensures outstanding == if w == |write| && zeros == 0 then 0 else 1
      ensures |sent| == old(|sent|) + outstanding
    {
      credits', w', zeros' := credits - 1, w, zeros;
      if w < |write| {
        WriteTxData(write[w]);
        w' := w + 1;
      } else if zeros > 0 {
        zeros' := zeros - 1;
        WriteTxData(0);
      } else {
        credits' := -1024;
      }
    }

    method TakeReply(ghost before: nat, write: seq<bv8>, readLength: nat, readData: array<bv8>, ignore: nat, r: nat)
      returns (ignore': nat, r': nat)
      requires Valid() && Storing(before, write, readLength, readData, ignore, r)
      requires taken < |replies| && taken < before + |write| + readLength
      modifies `taken, `outstanding, readData
      ensures Valid() && Storing(before, write, readLength, readData, ignore', r')
      ensures taken == old(taken) + 1 && outstanding == 0
      ensures forall k | readLength <= k < readData.Length :: readData[k] == old(readData[k])
    {
      var rx := ReadRxData();
      if ignore > 0 {
        return ignore - 1, r;
      } else {
        readData[r] := rx;
        return ignore, r + 1;
      }
    }
  }
}
