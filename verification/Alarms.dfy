/** The system tick and its alarms: a 32-bit tick counter and, for each alarm, a 32-bit time with a
    roll-over flag stand for an unbounded tick count and an unbounded deadline. */
module Alarms {
  import opened Arithmetic
  import opened Errno

  /** Ticks are counted without bound; the counter is their remainder. */
  function Counter(now: nat): (n: Word)
  {
    now % 0x1_0000_0000
  }

  datatype Timer = Timer(time: Word, rollover: bool)

  /** The timer that alt_alarm_start sets: it is to run k + 1 ticks from a counter of n. */
  function Started(n: Word, k: Word): Timer
  {
    var time := (k + n + 1) % 0x1_0000_0000;
    Timer(time, time < n)
  }

  /** The roll-over flag is cleared when the counter wraps. */
  function Cleared(t: Timer, n: Word): Timer
  {
    if t.rollover && n == 0 then t.(rollover := false) else t
  }

  predicate Expired(t: Timer, n: Word)
  {
    t.time <= n && !t.rollover
  }

  /** The timer after a callback at counter n has asked for p more ticks. */
  function Rearmed(t: Timer, n: Word, p: Word): Timer
  {
    var time := (t.time + p) % 0x1_0000_0000;
    Timer(time, t.rollover || time < n)
  }

  /** At tick `now` the timer stands for the deadline.  On the last tick before the counter wraps
      the flag does not matter, since the next tick clears it. */
  predicate Tracks(t: Timer, deadline: nat, now: nat)
  {
    && now < deadline <= now + WORD
    && t.time == Counter(deadline)
    && (Counter(now) == WORD - 1 || (t.rollover <==> deadline / 0x1_0000_0000 > now / 0x1_0000_0000))
  }

  /** alt_alarm_start yields a timer for its deadline exactly when the interval is not the largest
      32-bit value, or the counter is about to wrap. */
  lemma StartedTracks(now: nat, k: Word)
    ensures Tracks(Started(Counter(now), k), now + k + 1, now)
       <==> k <= WORD - 2 || Counter(now) == WORD - 1
  {
  }

  /** The next tick finds the timer expired exactly when it is the deadline; until then the timer
      goes on standing for it. */
  lemma TickTracks(t: Timer, deadline: nat, now: nat)
    requires Tracks(t, deadline, now)
    ensures Expired(Cleared(t, Counter(now + 1)), Counter(now + 1)) <==> deadline == now + 1
    ensures deadline != now + 1 ==> Tracks(Cleared(t, Counter(now + 1)), deadline, now + 1)
    ensures deadline == now + 1 ==> Cleared(t, Counter(now + 1)) == Timer(Counter(now + 1), false)
  {
    var n := Counter(now + 1);
    if n == 0 {
      assert (now + 1) / 0x1_0000_0000 == now / 0x1_0000_0000 + 1;
    } else {
      assert (now + 1) / 0x1_0000_0000 == now / 0x1_0000_0000;
    }
  }

  /** A callback made on time re-arms the timer for exactly p ticks later. */
  lemma RearmedTracks(now: nat, p: Word)
    requires p != 0
    ensures Tracks(Rearmed(Timer(Counter(now), false), Counter(now), p), now + p, now)
  {
  }

  /** The timer j ticks after `now`, if no callback has touched it. */
  function Undisturbed(t: Timer, now: nat, j: nat): Timer
  {
    if j == 0 then t else Cleared(Undisturbed(t, now, j - 1), Counter(now + j))
  }

  /** The first tick after `now` that finds the timer expired is the deadline. */
  ghost predicate FirstExpiresAt(t: Timer, now: nat, deadline: nat)
  {
    && now < deadline
    && (forall j | 1 <= j < deadline - now :: !Expired(Undisturbed(t, now, j), Counter(now + j)))
    && Expired(Undisturbed(t, now, deadline - now), Counter(deadline))
  }

  lemma {:induction false} UndisturbedTracks(t: Timer, now: nat, deadline: nat, j: nat)
    requires Tracks(t, deadline, now) && now + j < deadline
    ensures Tracks(Undisturbed(t, now, j), deadline, now + j)
  {
    if j > 0 {
      UndisturbedTracks(t, now, deadline, j - 1);
      TickTracks(Undisturbed(t, now, j - 1), deadline, now + j - 1);
    }
  }

  /** A timer that stands for a deadline first expires on it. */
  lemma {:induction false} TrackedExpires(t: Timer, now: nat, deadline: nat)
    requires Tracks(t, deadline, now)
    ensures FirstExpiresAt(t, now, deadline)
  {
    assert now < deadline;
    hide Tracks, Expired;
    forall j | 1 <= j <= deadline - now
      ensures Expired(Undisturbed(t, now, j), Counter(now + j)) <==> j == deadline - now
    {
      UndisturbedTracks(t, now, deadline, j - 1);
      TickTracks(Undisturbed(t, now, j - 1), deadline, now + j - 1);
    }
  }

  /** Started with the largest interval, the timer has already expired on the next tick, unless the
      counter wraps there. */
  lemma LargestIntervalExpires(now: nat)
    requires Counter(now) != WORD - 1
    ensures Expired(Undisturbed(Started(Counter(now), WORD - 1), now, 1), Counter(now + 1))
  {
    assert Undisturbed(Started(Counter(now), WORD - 1), now, 0) == Started(Counter(now), WORD - 1);
  }

  /** An alarm started at tick T for k ticks first runs at tick T + k + 1 exactly when k is not the
      largest 32-bit value or the counter is about to wrap. */
  lemma {:induction false} FirstRun(now: nat, k: Word)
    ensures FirstExpiresAt(Started(Counter(now), k), now, now + k + 1)
       <==> k <= WORD - 2 || Counter(now) == WORD - 1
  {
    StartedTracks(now, k);
    hide Tracks, Expired;
    if k <= WORD - 2 || Counter(now) == WORD - 1 {
      TrackedExpires(Started(Counter(now), k), now, now + k + 1);
    } else {
      LargestIntervalExpires(now);
    }
  }

  /** The tick of the run that follows these answers: each asks for that many more ticks. */
  function Due(first: nat, answers: seq<Word>): nat
  {
    if answers == [] then first else Due(first, answers[..|answers| - 1]) + answers[|answers| - 1]
  }

  /** The ticks of the runs that gave these answers. */
  function Schedule(first: nat, answers: seq<Word>): seq<nat>
  {
    if answers == [] then []
    else Schedule(first, answers[..|answers| - 1]) + [Due(first, answers[..|answers| - 1])]
  }

  lemma OneAnswerMore(first: nat, answers: seq<Word>, answer: Word)
    ensures Due(first, answers + [answer]) == Due(first, answers) + answer
    ensures Schedule(first, answers + [answer]) == Schedule(first, answers) + [Due(first, answers)]
  {
    assert (answers + [answer])[..|answers|] == answers;
  }

  /** What is recorded of an alarm's past. */
  datatype Past = Past(first: nat, exact: bool, answers: seq<Word>, runs: seq<nat>)

  /** The start is as it was, and the past has only grown. */
  predicate Grows(p: Past, q: Past)
  {
    p.first == q.first && p.exact == q.exact && p.answers <= q.answers && p.runs <= q.runs
  }

  lemma GrowsOn(p: Past, q: Past, r: Past)
    requires Grows(p, q) && Grows(q, r)
    ensures Grows(p, r)
  {
  }

  /** An alarm and its links, or the head of the list. */
  class Alarm {
    var next: Alarm?
    var previous: Alarm?
    var timer: Timer

    // History: the tick at which the callback was first to run, what the callback has returned, the
    // ticks at which it has run, and whether the application has stopped the alarm.
    ghost var exact: bool
    ghost var first: nat
    ghost var answers: seq<Word>
    ghost var runs: seq<nat>
    ghost var stopped: bool

    constructor ()
      ensures next == null && previous == null
    {
      next, previous, timer := null, null, Timer(0, false);
    }

    /** The callback has run on exactly the ticks it was to run on. */
    ghost predicate OnSchedule()
      reads `exact, `first, `answers, `runs
    {
      exact ==> runs == Schedule(first, answers)
    }

    /** The next run is still to come. */
    ghost predicate OnTime(now: nat)
      reads `timer, `exact, `first, `answers, `runs
    {
      OnSchedule() && (exact ==> Tracks(timer, Due(first, answers), now))
    }

    ghost function History(): Past
      reads `exact, `first, `answers, `runs
    {
      Past(first, exact, answers, runs)
    }

    /** Neither the callback, by returning 0, nor the application has ended the alarm. */
    ghost predicate Live()
      reads `answers, `stopped
    {
      !stopped && (answers == [] || answers[|answers| - 1] != 0)
    }
  }

  predicate Distinct(ring: seq<Alarm>)
  {
    forall i, j | 0 <= i < j < |ring| :: ring[i] != ring[j]
  }

  /** The place after i, or before it, on a ring of n elements. */
  function After(i: nat, n: nat): nat
    requires i < n
  {
    if i + 1 < n then i + 1 else 0
  }

  function Before(i: nat, n: nat): nat
    requires i < n
  {
    if i == 0 then n - 1 else i - 1
  }

  /** The links run through exactly the elements of the ring, both ways; the first is the head of
      the list. */
  ghost predicate Linked(ring: seq<Alarm>)
    reads (set a | a in ring)`next, (set a | a in ring)`previous
  {
    && ring != [] && Distinct(ring)
    && (forall i | 0 <= i < |ring| :: ring[i].next == ring[After(i, |ring|)])
    && (forall i | 0 <= i < |ring| :: ring[i].previous == ring[Before(i, |ring|)])
  }

  function With(ring: seq<Alarm>, entry: Alarm): (r: seq<Alarm>)
    requires ring != []
    ensures |r| == |ring| + 1
    ensures forall k | 0 <= k < |r| :: r[k] == if k == 1 then entry else ring[if k == 0 then 0 else k - 1]
  {
    [ring[0], entry] + ring[1..]
  }

  lemma Inserted(ring: seq<Alarm>, entry: Alarm)
    requires ring != [] && Distinct(ring) && entry !in ring
    requires ring[0].next == entry && entry.previous == ring[0]
    requires entry.next == ring[After(0, |ring|)] && ring[After(0, |ring|)].previous == entry
    requires (forall k | 0 < k < |ring| :: ring[k].next == ring[After(k, |ring|)])
    requires (forall k | 0 <= k < |ring| && k != After(0, |ring|) ::
                ring[k].previous == ring[Before(k, |ring|)])
    ensures Linked(With(ring, entry))
  {
    var r := With(ring, entry);
    assert Distinct(r);
    hide Distinct;
    forall k | 0 <= k < |r|
      ensures r[k].next == r[After(k, |r|)] && r[k].previous == r[Before(k, |r|)]
    {
      if k != 1 {
        var o := if k == 0 then 0 else k - 1;
        assert r[k] == ring[o];
        assert r[After(k, |r|)] == if o == 0 then entry else ring[After(o, |ring|)];
        assert r[Before(k, |r|)] == if o == After(0, |ring|) then entry else ring[Before(o, |ring|)];
      }
    }
  }

  /** alt_llist_insert. */
  method Insert(head: Alarm, entry: Alarm, ghost ring: seq<Alarm>)
    requires Linked(ring) && ring[0] == head && entry !in ring
    modifies (set a | a in ring)`next, (set a | a in ring)`previous, entry`next, entry`previous
    ensures Linked(With(ring, entry))
  {
    entry.previous := head;
    entry.next := head.next;
    head.next.previous := entry;
    head.next := entry;
    Inserted(ring, entry);
  }

  function Without(ring: seq<Alarm>, i: nat): (r: seq<Alarm>)
    requires i < |ring|
    ensures |r| == |ring| - 1
    ensures forall k | 0 <= k < |r| :: r[k] == ring[if k < i then k else k + 1]
  {
    ring[..i] + ring[i + 1..]
  }

  /** The entry stands at place i of the ring or, at 0, is off it and linked to itself. */
  ghost predicate Place(ring: seq<Alarm>, entry: Alarm, i: nat)
    reads entry
  {
    if 0 < i < |ring| then ring[i] == entry
    else i == 0 && entry !in ring && entry.next == entry.previous == entry
  }

  /** alt_llist_remove.  The entry is left linked to itself, so that removing it again is harmless. */
  method Remove(entry: Alarm, ghost ring: seq<Alarm>, ghost i: nat)
    requires Linked(ring) && Place(ring, entry, i)
    modifies (set a | a in ring)`next, (set a | a in ring)`previous, entry`next, entry`previous
    ensures Linked(if i == 0 then ring else Without(ring, i))
    ensures entry.next == entry && entry.previous == entry && (0 < i ==> entry !in Without(ring, i))
  {
    ghost var b, f := Before(i, |ring|), After(i, |ring|);
    assert 0 < i ==> entry.previous == ring[b] && entry.next == ring[f];
    assert 0 < i ==> entry != ring[b] && entry != ring[f];
    Unlink(entry, ring);
    if 0 < i {
      Relinked(ring, i);
    }
  }

  /** The four writes of alt_llist_remove, to whichever elements the entry's links name. */
  method Unlink(entry: Alarm, ghost ring: seq<Alarm>)
    requires entry.next != null && entry.previous != null
    requires entry.next in ring || entry.next == entry
    requires entry.previous in ring || entry.previous == entry
    requires entry.next == entry <==> entry.previous == entry
    modifies (set a | a in ring)`next, (set a | a in ring)`previous, entry`next, entry`previous
    ensures entry.next == entry && entry.previous == entry
    ensures old(entry.previous) != entry ==> old(entry.previous).next == old(entry.next)
    ensures old(entry.next) != entry ==> old(entry.next).previous == old(entry.previous)
    ensures forall a | a in ring && a != entry && a != old(entry.previous) :: a.next == old(a.next)
    ensures forall a | a in ring && a != entry && a != old(entry.next) :: a.previous == old(a.previous)
  {
    entry.next.previous := entry.previous;
    entry.previous.next := entry.next;
    entry.previous := entry;
    entry.next := entry;
  }

  lemma DistinctWithout(ring: seq<Alarm>, i: nat)
    requires Distinct(ring) && i < |ring|
    ensures Distinct(Without(ring, i)) && ring[i] !in Without(ring, i)
  {
  }

  lemma Relinked(ring: seq<Alarm>, i: nat)
    requires Distinct(ring) && 0 < i < |ring|
    requires ring[Before(i, |ring|)].next == ring[After(i, |ring|)]
    requires ring[After(i, |ring|)].previous == ring[Before(i, |ring|)]
    requires (forall k | 0 <= k < |ring| && k != i && k != Before(i, |ring|) ::
                ring[k].next == ring[After(k, |ring|)])
    requires (forall k | 0 <= k < |ring| && k != i && k != After(i, |ring|) ::
                ring[k].previous == ring[Before(k, |ring|)])
    ensures Linked(Without(ring, i)) && ring[i] !in Without(ring, i)
  {
    DistinctWithout(ring, i);
    hide Distinct;
    var r, n := Without(ring, i), |ring| - 1;
    forall k | 0 <= k < n ensures r[k].next == r[After(k, n)] {
      var o := if k < i then k else k + 1;
      assert r[k] == ring[o];
      assert r[After(k, n)] == ring[if o == Before(i, |ring|) then After(i, |ring|) else After(o, |ring|)];
    }
    forall k | 0 <= k < n ensures r[k].previous == r[Before(k, n)] {
      var o := if k < i then k else k + 1;
      assert r[k] == ring[o];
      assert r[Before(k, n)] == ring[if o == After(i, |ring|) then Before(i, |ring|) else Before(o, |ring|)];
    }
  }

  class Clock {
    const head: Alarm
    const tickRate: nat
    var nticks: Word

    // The list as it stands, its head first, and the number of ticks so far.
    ghost var ring: seq<Alarm>
    ghost var now: nat

    ghost predicate Listed()
      reads this, ring
    {
      Linked(ring) && ring[0] == head && nticks == Counter(now)
    }

    /** Between ticks every alarm on the list has run on time so far. */
    ghost predicate Valid()
      reads this, ring
    {
      Listed() && forall k | 0 < k < |ring| :: ring[k].OnTime(now) && ring[k].Live()
    }

    constructor (tickRate: nat)
      ensures Valid() && this.tickRate == tickRate && ring == [head] && fresh(head)
    {
      var h := new Alarm();
      this.tickRate := tickRate;
      head, ring := h, [h];
      nticks, now := 0, 0;
      new;
      head.next, head.previous := head, head;
    }

    /** Set the timer of a new alarm. */
    method Arm(alarm: Alarm, k: Word)
      requires nticks == Counter(now)
      modifies alarm`timer, alarm`first, alarm`answers, alarm`runs, alarm`exact, alarm`stopped
      ensures alarm.timer == Started(nticks, k) && alarm.OnTime(now) && alarm.Live()
      ensures alarm.first == now + k + 1 && alarm.answers == [] && alarm.runs == []
      ensures alarm.exact <==> k <= WORD - 2 || nticks == WORD - 1
    {
      hide Tracks;
      StartedTracks(now, k);
      var time := (k + nticks + 1) % 0x1_0000_0000;
      alarm.timer := Timer(time, if time < nticks then true else false);
      alarm.first, alarm.answers, alarm.runs, alarm.stopped := now + k + 1, [], [], false;
      alarm.exact := k <= WORD - 2 || nticks == WORD - 1;
    }

    /** Set the timer and put the alarm first on the list; the others stay as they are. */
    method Enter(alarm: Alarm, k: Word)
      requires Listed() && alarm !in ring
      modifies this`ring, (set a | a in ring)`next, (set a | a in ring)`previous, alarm
      ensures Listed() && ring == With(old(ring), alarm) && alarm.OnTime(now) && alarm.Live()
      ensures alarm.first == now + k + 1 && alarm.answers == [] && alarm.runs == []
      ensures alarm.exact <==> k <= WORD - 2 || nticks == WORD - 1
      ensures (forall j | 1 < j < |ring| ::
                 ring[j] == old(ring[j - 1]) && ring[j].OnTime(now) == old(ring[j - 1].OnTime(now))
                 && ring[j].Live() == old(ring[j - 1].Live()))
    {
      hide Linked, Distinct, Alarm.OnTime, Alarm.Live;
      ghost var was := ring;
      Arm(alarm, k);
      Insert(head, alarm, ring);
      ring := With(ring, alarm);
      forall j | 1 < j < |ring| ensures ring[j] == was[j - 1] && ring[j] != alarm {
        assert was[j - 1] in was;
      }
    }

    /** alt_alarm_start. */
    method Start(alarm: Alarm?, k: Word) returns (rc: int)
      requires Listed() && (alarm != null ==> alarm !in ring)
      modifies this`ring, (set a | a in ring)`next, (set a | a in ring)`previous, alarm
      ensures Listed()
      ensures rc == (if tickRate == 0 then -ENOTSUP else if alarm == null then -EINVAL else 0)
      ensures rc != 0 ==> ring == old(ring) && (alarm != null ==> unchanged(alarm))
      ensures (rc == 0 ==>
                 && ring == With(old(ring), alarm) && alarm.OnTime(now) && alarm.Live()
                 && alarm.first == now + k + 1 && alarm.answers == [] && alarm.runs == []
                 && (alarm.exact <==> k <= WORD - 2 || nticks == WORD - 1))
      ensures old(Valid()) ==> Valid()
    {
      if tickRate == 0 {
        return -ENOTSUP;
      }
      if alarm == null {
        return -EINVAL;
      }
      hide Linked, Distinct, Alarm.OnTime, Alarm.Live;
      Enter(alarm, k);
      return 0;
    }

    /** alt_alarm_stop. */
    method Stop(alarm: Alarm, ghost i: nat)
      requires Listed() && Place(ring, alarm, i)
      modifies this`ring, (set a | a in ring)`next, (set a | a in ring)`previous
      modifies alarm`next, alarm`previous
      ensures Listed() && Place(ring, alarm, 0)
      ensures ring == if i == 0 then old(ring) else Without(old(ring), i)
      ensures old(Valid()) ==> Valid()
    {
      hide Linked, Alarm.OnTime, Alarm.Live;
      Remove(alarm, ring, i);
      if 0 < i {
        ring := Without(ring, i);
      }
    }

    /** What a callback leaves alone: it may start and stop alarms, but does not stop the one that the
        tick is to look at next.  Alarms that the tick has yet to look at come from there on; they and
        the one whose callback runs were on the list when the tick began, the spares were not. */
    ghost predicate Split(alarm: Alarm, saved: Alarm, j: nat, spares: seq<Alarm>)
      reads this, ring
    {
      && Listed() && 0 < j <= |ring| && saved == (if j < |ring| then ring[j] else head)
      && alarm !in spares
      && (forall k | 0 < k < j && ring[k] != alarm :: ring[k].OnTime(now) && ring[k].Live())
      && (forall k | j <= k < |ring| :: ring[k] != alarm && 0 < now && ring[k].OnTime(now - 1) && ring[k].Live())
      && (forall k | j <= k < |ring| :: ring[k] !in spares)
    }

    /** Look for an alarm on the list. */
    method Find(alarm: Alarm) returns (found: bool)
      requires Listed() && alarm != head
      ensures found == (alarm in ring)
    {
      var a: Alarm := head.next;
      ghost var i := 1;
      while a != head && a != alarm
        invariant 0 < i <= |ring| && a == (if i < |ring| then ring[i] else head)
        invariant forall k | 0 < k < i :: ring[k] != alarm
        decreases |ring| - i
      {
        a := a.next;
        i := i + 1;
      }
      found := a == alarm;
    }

    /** An alarm of the list, that many places from its head. */
    method Nth(places: nat) returns (alarm: Alarm, ghost x: nat)
      requires Listed()
      ensures x < |ring| && alarm == ring[x] && (x == 0 <==> alarm == head)
    {
      alarm, x := head, 0;
      var n := 0;
      while n < places
        invariant x < |ring| && alarm == ring[x]
      {
        alarm := alarm.next;
        x := After(x, |ring|);
        n := n + 1;
      }
    }

    /** A callback starts an alarm that is not on the list. */
    method StartInside(alarm: Alarm, saved: Alarm, ghost j: nat, other: Alarm, k: Word,
                       ghost spares: seq<Alarm>)
      returns (rc: int)
      requires Split(alarm, saved, j, spares) && other !in ring && other != alarm
      modifies this`ring, (set a | a in ring)`next, (set a | a in ring)`previous, other
      ensures rc != 0 ==> ring == old(ring) && Split(alarm, saved, j, spares) && unchanged(other)
      ensures rc == 0 ==> ring == With(old(ring), other) && Split(alarm, saved, j + 1, spares)
      ensures rc == 0 ==> !other.stopped
    {
      hide Linked, Distinct, Alarm.OnTime;
      rc := Start(other, k);
    }

    /** A callback stops an alarm other than the next one. */
    method StopInside(alarm: Alarm, saved: Alarm, ghost i: nat, ghost j: nat, other: Alarm, ghost x: nat,
                      ghost spares: seq<Alarm>)
      returns (ghost i': nat, ghost j': nat)
      requires Split(alarm, saved, j, spares) && i < j && Place(ring, alarm, i)
      requires 0 < x < |ring| && other == ring[x] && x != j
      modifies this`ring, (set a | a in ring)`next, (set a | a in ring)`previous
      modifies alarm`next, alarm`previous, (set a | a in ring)`stopped
      ensures Split(alarm, saved, j', spares) && i' < j' && Place(ring, alarm, i')
      ensures ring == Without(old(ring), x) && |ring| - j' <= old(|ring|) - j
      ensures forall a | a in old(ring) && !a.stopped :: a in ring
      ensures 0 < i' ==> alarm.stopped == old(alarm.stopped)
    {
      hide Linked, Distinct, Alarm.OnTime, Alarm.Live, Valid;
      other.stopped := true;
      Stop(other, x);
      i' := if x == i then 0 else if x < i then i - 1 else i;
      j' := if x < j then j - 1 else j;
    }

    /** One call into the alarm interface from a callback. */
    method CallbackStep(alarm: Alarm, saved: Alarm, ghost i: nat, ghost j: nat, spares: seq<Alarm>)
      returns (ghost i': nat, ghost j': nat)
      requires Split(alarm, saved, j, spares) && i < j && Place(ring, alarm, i)
      modifies this`ring, (set a | a in ring)`next, (set a | a in ring)`previous
      modifies alarm`next, alarm`previous, (set a | a in ring)`stopped, spares
      ensures Split(alarm, saved, j', spares) && i' < j' && Place(ring, alarm, i')
      ensures |ring| - j' <= old(|ring|) - j
      ensures forall a | a in ring :: a in old(ring) || a in spares || fresh(a)
      ensures forall a | a in old(ring) && !a.stopped :: a in ring
      ensures 0 < i' ==> 0 < i && alarm.stopped == old(alarm.stopped)
      ensures forall a | a in spares && a !in old(ring) && a !in ring :: a.stopped == old(a.stopped)
      ensures alarm.runs == old(alarm.runs) && alarm.answers == old(alarm.answers)
    {
      hide Linked, Alarm.OnTime;
      var starting: bool, k: Word, x: nat := *, *, *;
      i', j' := i, j;
      if starting {
        var other;
        var listed := false;
        if x < |spares| && spares[x] != head {
          other := spares[x];
          listed := Find(other);
        } else {
          other := new Alarm();
        }
        if !listed {
          var rc := StartInside(alarm, saved, j, other, k, spares);
          if rc == 0 {
            i', j' := if i == 0 then 0 else i + 1, j + 1;
          }
        }
      } else {
        var other;
        ghost var at;
        other, at := Nth(x);
        if other != head && other != saved {
          i', j' := StopInside(alarm, saved, i, j, other, at, spares);
        }
      }
    }

    /** A callback, which is recorded as having run now, starts and stops any number of alarms and answers
        when it wants to run again. */
    method Callback(alarm: Alarm, saved: Alarm, ghost i: nat, ghost j: nat, spares: seq<Alarm>)
      returns (period: Word, ghost i': nat, ghost j': nat)
      requires Split(alarm, saved, j, spares) && i < j && Place(ring, alarm, i)
      modifies this`ring, (set a | a in ring)`next, (set a | a in ring)`previous
      modifies alarm`next, alarm`previous, alarm`runs, alarm`answers, (set a | a in ring)`stopped, spares
      ensures Split(alarm, saved, j', spares) && i' < j' && Place(ring, alarm, i')
      ensures alarm.runs == old(alarm.runs) + [now] && alarm.answers == old(alarm.answers) + [period]
      ensures |ring| - j' <= old(|ring|) - j
      ensures forall a | a in ring :: a in old(ring) || a in spares || fresh(a)
      ensures forall a | a in old(ring) && !a.stopped :: a in ring
      ensures 0 < i' ==> alarm.stopped == old(alarm.stopped)
    {
      hide Linked, Alarm.OnTime, Split, Place;
      LogRun(alarm, saved, j, spares);
      i', j' := i, j;
      var calls: nat := *;
      while calls > 0
        invariant Split(alarm, saved, j', spares) && i' < j' && Place(ring, alarm, i')
        invariant |ring| - j' <= old(|ring|) - j
        invariant forall a | a in ring :: a in old(ring) || a in spares || fresh(a)
        invariant forall a | a in old(ring) && !a.stopped :: a in ring
        invariant 0 < i' ==> alarm.stopped == old(alarm.stopped)
        invariant alarm.runs == old(alarm.runs) + [now] && alarm.answers == old(alarm.answers)
      {
        i', j' := CallbackStep(alarm, saved, i', j', spares);
        calls := calls - 1;
      }
      period := *;
      Log(alarm, period, saved, j', spares);
    }

    /** The tick's look at one alarm's timer. */
    method Look(alarm: Alarm) returns (expired: bool)
      requires 0 < now && nticks == Counter(now) && alarm.OnTime(now - 1)
      modifies alarm`timer
      ensures alarm.timer == Cleared(old(alarm.timer), nticks) && (expired <==> Expired(alarm.timer, nticks))
      ensures !expired ==> alarm.OnTime(now)
      ensures (expired && alarm.exact ==>
                 && alarm.runs == Schedule(alarm.first, alarm.answers)
                 && Due(alarm.first, alarm.answers) == now && alarm.timer == Timer(nticks, false))
    {
      if alarm.exact {
        TickTracks(alarm.timer, Due(alarm.first, alarm.answers), now - 1);
      }
      if alarm.timer.rollover && nticks == 0 {
        alarm.timer := alarm.timer.(rollover := false);
      }
      expired := alarm.timer.time <= nticks && !alarm.timer.rollover;
    }

    /** The callback has run and asked for another period. */
    method Rearm(alarm: Alarm, period: Word)
      requires nticks == Counter(now) && period != 0
      requires (alarm.exact ==>
                  && alarm.runs == Schedule(alarm.first, alarm.answers)
                  && Due(alarm.first, alarm.answers) == now + period && alarm.timer == Timer(nticks, false))
      modifies alarm`timer
      ensures alarm.OnTime(now) && alarm.timer == Rearmed(old(alarm.timer), nticks, period)
    {
      RearmedTracks(now, period);
      alarm.timer := alarm.timer.(time := (alarm.timer.time + period) % 0x1_0000_0000);
      if alarm.timer.time < nticks {
        alarm.timer := alarm.timer.(rollover := true);
      }
    }

    /** Alarms before place j have had this tick and those from there on have not. */
    ghost predicate Walk(alarm: Alarm, j: nat, spares: seq<Alarm>)
      reads this, ring
    {
      && Listed() && 0 < now && 0 < j <= |ring| && alarm == (if j < |ring| then ring[j] else head)
      && (forall k | 0 < k < j :: ring[k].OnTime(now) && ring[k].Live())
      && (forall k | j <= k < |ring| :: ring[k].OnTime(now - 1) && ring[k].Live())
      && (forall k | j <= k < |ring| :: ring[k] !in spares)
    }

    /** The history of the callback that runs: it runs now, and returns `period`. */
    ghost method Log(alarm: Alarm, period: Word, saved: Alarm, j: nat, spares: seq<Alarm>)
      requires Split(alarm, saved, j, spares)
      modifies alarm`answers
      ensures Split(alarm, saved, j, spares) && alarm.answers == old(alarm.answers) + [period]
      ensures forall i | old(Place(ring, alarm, i)) :: Place(ring, alarm, i)
    {
      hide Linked, Distinct;
      alarm.answers := alarm.answers + [period];
    }

    ghost method LogRun(alarm: Alarm, saved: Alarm, j: nat, spares: seq<Alarm>)
      requires Split(alarm, saved, j, spares)
      modifies alarm`runs
      ensures Split(alarm, saved, j, spares) && alarm.runs == old(alarm.runs) + [now]
      ensures forall i | old(Place(ring, alarm, i)) :: Place(ring, alarm, i)
    {
      hide Linked, Distinct;
      alarm.runs := alarm.runs + [now];
    }

    /** Run an expired alarm's callback. */
    method Expire(alarm: Alarm, saved: Alarm, ghost i: nat, spares: seq<Alarm>) returns (ghost j: nat)
      requires Split(alarm, saved, i + 1, spares) && Place(ring, alarm, i) && 0 < i && 0 < now
      requires alarm.Live() && alarm !in spares
      requires (alarm.exact ==>
                  && alarm.runs == Schedule(alarm.first, alarm.answers)
                  && Due(alarm.first, alarm.answers) == now && alarm.timer == Timer(nticks, false))
      modifies this`ring, (set a | a in ring)`next, (set a | a in ring)`previous, (set a | a in ring)`stopped
      modifies alarm, spares
      ensures Walk(saved, j, spares) && |ring| - j < old(|ring|) - i
      ensures Grows(old(alarm.History()), alarm.History()) && alarm.OnSchedule()
      ensures forall a | a in ring :: a in old(ring) || a in spares || fresh(a)
      ensures forall a | a in old(ring) && a.Live() :: a in ring
    {
      hide Linked, Distinct, Alarm.OnTime, Split, Walk, Schedule, Due;
      ghost var i', j';
      var period;
      period, i', j' := Callback(alarm, saved, i, i + 1, spares);
      OneAnswerMore(alarm.first, old(alarm.answers), period);
      j := Settle(alarm, saved, period, i', j', spares);
    }

    /** Act on the callback's answer. */
    method Settle(alarm: Alarm, saved: Alarm, period: Word, ghost i: nat, ghost j: nat,
                  ghost spares: seq<Alarm>)
      returns (ghost j': nat)
      requires Split(alarm, saved, j, spares) && i < j && Place(ring, alarm, i) && 0 < now
      requires 0 < i && period != 0 ==> alarm.Live()
      requires period == 0 ==> !alarm.Live()
      requires (period != 0 && alarm.exact ==>
                  && alarm.runs == Schedule(alarm.first, alarm.answers)
                  && Due(alarm.first, alarm.answers) == now + period && alarm.timer == Timer(nticks, false))
      modifies this`ring, (set a | a in ring)`next, (set a | a in ring)`previous
      modifies alarm`next, alarm`previous, alarm`timer
      ensures Walk(saved, j', spares) && |ring| - j' == old(|ring|) - j
      ensures forall a | a in ring :: a in old(ring)
      ensures forall a | a in old(ring) && a.Live() :: a in ring
    {
      hide Linked, Alarm.OnTime, Alarm.Live, Rearmed, Tracks;
      if period == 0 {
        Stop(alarm, i);
        j' := if i == 0 then j else j - 1;
      } else {
        Rearm(alarm, period);
        j' := j;
      }
    }

    /** The alarms that were on the list when the tick began have run on their ticks only, and what was
        recorded of them then still holds.  The first of them is the head, which never runs. */
    ghost predicate Recorded(listed: seq<Alarm>, past: seq<Past>)
      reads listed
    {
      && |past| == |listed|
      && (forall k | 0 <= k < |listed| :: Grows(past[k], listed[k].History()) && (0 < k ==> listed[k].OnSchedule()))
    }

    /** One turn of the tick's loop. */
    method Visit(alarm: Alarm, ghost i: nat, spares: seq<Alarm>, ghost listed: seq<Alarm>, ghost past: seq<Past>)
      returns (saved: Alarm, ghost j: nat)
      requires Walk(alarm, i, spares) && alarm != head
      requires Recorded(listed, past) && forall s | s in spares :: s !in listed
      modifies this`ring, ring, spares
      ensures Walk(saved, j, spares) && |ring| - j < old(|ring|) - i && Recorded(listed, past)
      ensures forall a | a in ring :: a in old(ring) || a in spares || fresh(a)
      ensures forall a | a in old(ring) && a.Live() :: a in ring
    {
      hide Alarm.OnTime, Alarm.OnSchedule, Alarm.Live, Linked, Distinct, Grows;
      NextOf(i);
      saved, j := alarm.next, i + 1;
      var expired := Look(alarm);
      if expired {
        ghost var before := alarm.History();
        label Looked:
        j := Expire(alarm, saved, i, spares);
        forall k | 0 <= k < |listed|
          ensures Grows(past[k], listed[k].History()) && (0 < k ==> listed[k].OnSchedule())
        {
          var a: Alarm := listed[k];
          assert a in listed && a !in spares;
          if a == alarm {
            GrowsOn(past[k], before, a.History());
          } else {
            assert unchanged@Looked(a`exact, a`first, a`answers, a`runs);
          }
        }
      }
    }

    lemma NextOf(i: nat)
      requires Listed() && 0 < i < |ring|
      ensures ring[i].next == if i + 1 < |ring| then ring[i + 1] else head
      ensures ring[i] !in ring[i + 1..] && ring[i] !in ring[..i]
    {
    }

    /** Why a callback must not stop the next alarm: the tick would go on to it and, since it is linked
        to itself, find it again after every turn of its loop, whatever its callback answers. */
    method TurnOnStopped(alarm: Alarm, period: Word) returns (saved: Alarm)
      requires Listed() && Place(ring, alarm, 0) && alarm != head
      modifies this`ring, (set a | a in ring)`next, (set a | a in ring)`previous, alarm
      ensures saved == alarm && Listed() && Place(ring, alarm, 0) && ring == old(ring)
      ensures var seen := Cleared(old(alarm.timer), nticks);
              alarm.timer == if Expired(seen, nticks) && period != 0 then Rearmed(seen, nticks, period) else seen
    {
      hide Linked, Distinct;
      saved := alarm.next;
      alarm.timer := Cleared(alarm.timer, nticks);
      if Expired(alarm.timer, nticks) {
        if period == 0 {
          Stop(alarm, 0);
        } else {
          alarm.timer := Rearmed(alarm.timer, nticks, period);
        }
      }
    }

    /** The counter moves on; no alarm has had the new tick yet. */
    method Count(ghost spares: seq<Alarm>)
      requires Valid() && forall s | s in spares :: s !in ring
      modifies this`nticks, this`now
      ensures head.next != null && Walk(head.next, 1, spares) && now == old(now) + 1
    {
      hide Alarm.OnTime, Alarm.Live, Distinct;
      nticks := (nticks + 1) % 0x1_0000_0000;
      now := now + 1;
    }

    /** The walk is back at the head only when every alarm has had the tick. */
    lemma WalkEnds(j: nat, spares: seq<Alarm>)
      requires Walk(head, j, spares)
      ensures j == |ring| && Valid()
    {
    }

    /** What is recorded when a tick begins. */
    ghost method StartRecord() returns (past: seq<Past>)
      requires Valid()
      ensures Recorded(ring, past) && forall k | 0 <= k < |ring| :: past[k] == ring[k].History()
    {
      past := [];
      while |past| < |ring|
        invariant |past| <= |ring| && forall k | 0 <= k < |past| :: past[k] == ring[k].History()
      {
        past := past + [ring[|past|].History()];
      }
    }

    /** The loop of the tick. */
    method VisitAll(spares: seq<Alarm>, ghost past: seq<Past>)
      requires Valid() && Recorded(ring, past) && forall s | s in spares :: s !in ring
      modifies this`nticks, this`now, this`ring, ring, spares
      ensures Valid() && now == old(now) + 1 && Recorded(old(ring), past)
      ensures forall a | a in ring :: a in old(ring) || a in spares || fresh(a)
      ensures forall a | a in old(ring) && a.Live() :: a in ring
    {
      hide Linked, Distinct, Alarm.OnTime, Alarm.Live, Recorded;
      ghost var listed := ring;
      Count(spares);
      var alarm: Alarm := head.next;
      ghost var i := 1;
      while alarm != head
        invariant Walk(alarm, i, spares) && now == old(now) + 1 && Recorded(listed, past)
        invariant forall a | a in ring :: a in old(ring) || a in spares || fresh(a)
        invariant forall a | a in old(ring) && a.Live() :: a in ring
        decreases |ring| - i
      {
        alarm, i := Visit(alarm, i, spares, listed, past);
      }
      WalkEnds(i, spares);
    }

    /** alt_tick.  Of the alarms that were on the list, those stay that are still live.  All of them, also
        those that ended, keep their start and their past, and have run on their ticks only.  The spares
        are the alarms that callbacks may start besides new ones. */
    method Tick(spares: seq<Alarm>)
      requires Valid() && forall s | s in spares :: s !in ring
      modifies this`nticks, this`now, this`ring, ring, spares
      ensures Valid() && now == old(now) + 1
      ensures forall a | a in ring :: a in old(ring) || a in spares || fresh(a)
      ensures forall a | a in old(ring) && a.Live() :: a in ring
      ensures forall a | a in old(ring) :: Grows(old(a.History()), a.History()) && (a != head ==> a.OnSchedule())
    {
      hide Linked, Distinct, Alarm.OnTime, Alarm.OnSchedule, Alarm.Live;
      ghost var past := StartRecord();
      VisitAll(spares, past);
    }
  }
}
