/** The pool of file descriptors with its exclusive locks: allocation, the high-water mark, open,
    ioctl, close and the redirection of the standard streams. */
module FdPool {
  import opened Arithmetic
  import opened Errno

  const MAX_FD: nat := 32

  /** An entry of the device list or of the file-system list. */
  datatype Device = Device(id: nat, fileSystem: bool)

  /** A descriptor.  `excl` and `isDev` are the bits ALT_FD_EXCL and ALT_FD_DEV of its flags. */
  datatype Fd = Fd(dev: Option<Device>, excl: bool, isDev: bool, mode: nat)

  const FREE := Fd(None, false, false, 0)

  datatype Pool = Pool(fds: seq<Fd>, maxFd: int)

  /** The first free descriptor at or after i. */
  function FirstFree(fds: seq<Fd>, i: nat): (r: nat)
    requires i <= |fds|
    ensures i <= r <= |fds| && (r < |fds| ==> fds[r].dev.None?)
    ensures forall k | i <= k < r :: fds[k].dev.Some?
    decreases |fds| - i
  {
    if i == |fds| || fds[i].dev.None? then i else FirstFree(fds, i + 1)
  }

  /** Some other descriptor on the device, up to the high-water mark, holds a lock. */
  predicate LockSeen(p: Pool, i: int)
    requires 0 <= i < |p.fds| && p.maxFd < |p.fds|
  {
    exists k :: 0 <= k <= p.maxFd && k != i && p.fds[k].excl && p.fds[k].dev == p.fds[i].dev
  }

  /** Some other descriptor below the high-water mark is open on the device. */
  predicate OtherSeen(p: Pool, i: int)
    requires 0 <= i < |p.fds| && p.maxFd <= |p.fds|
  {
    exists k :: 0 <= k < p.maxFd && k != i && p.fds[k].dev == p.fds[i].dev
  }

  /** alt_get_fd: the pool when the descriptor at the first free place is taken. */
  function Taken(p: Pool, d: Device): Pool
    requires |p.fds| == MAX_FD && FirstFree(p.fds, 0) < MAX_FD
  {
    var i := FirstFree(p.fds, 0);
    Pool(p.fds[i := p.fds[i].(dev := Some(d))], if i > p.maxFd then i else p.maxFd)
  }

  /** open with a free descriptor, before it looks for locks. */
  function Filled(p: Pool, d: Device, mode: nat): Pool
    requires |p.fds| == MAX_FD && FirstFree(p.fds, 0) < MAX_FD
  {
    var t := Taken(p, d);
    t.(fds := t.fds[FirstFree(p.fds, 0) := Fd(Some(d), false, !d.fileSystem, mode)])
  }

  /** alt_release_fd. */
  function Released(p: Pool, i: int): Pool
    requires i < |p.fds|
  {
    if i > 2 then p.(fds := p.fds[i := p.fds[i].(dev := None, excl := false, isDev := false, mode := 0)])
    else p
  }

  /** What open finds: the entry on one of the two lists, and the status of its own open function. */
  datatype Found = Missing | Entry(dev: Device, status: int)

  datatype Outcome = Outcome(pool: Pool, rc: int, errno: int)

  /** open: the pool, the descriptor or -1, and on failure errno. */
  function Opened(p: Pool, found: Found, mode: nat): Outcome
    requires |p.fds| == MAX_FD && p.maxFd < MAX_FD
  {
    if found.Missing? then Outcome(p, -1, ENODEV)
    else if FirstFree(p.fds, 0) == MAX_FD then Outcome(p, -1, EMFILE)
    else
      var i := FirstFree(p.fds, 0);
      var q := Filled(p, found.dev, mode);
      if !found.dev.fileSystem && LockSeen(q, i) then Outcome(Released(q, i), -1, EACCES)
      else if found.status < 0 then Outcome(Released(q, i), -1, -found.status)
      else Outcome(q, i, 0)
  }

  /** alt_fd_lock. */
  function Locked(p: Pool, i: nat): (r: (Pool, int))
    requires i < |p.fds| && p.maxFd < |p.fds|
  {
    if OtherSeen(p, i) then (p, -EACCES) else (p.(fds := p.fds[i := p.fds[i].(excl := true)]), 0)
  }

  /** alt_fd_unlock. */
  function Unlocked(p: Pool, i: nat): Pool
    requires i < |p.fds|
  {
    p.(fds := p.fds[i := p.fds[i].(excl := false)])
  }

  /** alt_open_fd: open, and make standard stream s refer to what was opened. */
  function Redirected(p: Pool, s: nat, found: Found, mode: nat): Pool
    requires |p.fds| == MAX_FD && p.maxFd < MAX_FD && s <= 2
  {
    var o := Opened(p, found, mode);
    if o.rc < 0 then o.pool
    else Released(o.pool.(fds := o.pool.fds[s := o.pool.fds[o.rc]]), o.rc)
  }

  datatype Request = Tiocexcl | Tiocnxcl | OtherRequest

  datatype Call =
    | Open(found: Found, mode: nat)
    | Exclude(fd: nat)          // ioctl TIOCEXCL
    | Share(fd: nat)          // ioctl TIOCNXCL
    | Close(fd: nat)
    | Redirect(stream: nat, found: Found, mode: nat)

  /** What the caller owes: a descriptor passed in is an open one. */
  predicate Legal(p: Pool, c: Call)
  {
    match c
    case Open(_, _) => true
    case Redirect(s, _, _) => s <= 2
    case _ => c.fd < |p.fds| && p.fds[c.fd].dev.Some?
  }

  function After(p: Pool, c: Call): Pool
    requires |p.fds| == MAX_FD && p.maxFd < MAX_FD && Legal(p, c)
  {
    match c
    case Open(found, mode) => Opened(p, found, mode).pool
    case Exclude(fd) => if p.fds[fd].isDev then Locked(p, fd).0 else p
    case Share(fd) => if p.fds[fd].isDev then Unlocked(p, fd) else p
    case Close(fd) => Released(p, fd)
    case Redirect(s, found, mode) => Redirected(p, s, found, mode)
  }

  /** The pool at start-up: the standard streams on /dev/null. */
  function Initial(): Pool
  {
    var nul := Fd(Some(Device(0, false)), false, false, 0);
    Pool(seq(MAX_FD, i => if i <= 2 then nul else FREE), -1)
  }

  predicate Shape(p: Pool)
  {
    && |p.fds| == MAX_FD && -1 <= p.maxFd < MAX_FD
    && (p.maxFd == -1 || 3 <= p.maxFd)
    && (forall i | 0 <= i <= 2 :: p.fds[i].dev.Some?)
    && (forall i | 3 <= i < MAX_FD && p.maxFd < i :: p.fds[i].dev.None?)
    && (forall i | 0 <= i < MAX_FD && p.fds[i].dev.None? :: p.fds[i] == FREE)
    && (forall i | 0 <= i < MAX_FD && p.fds[i].isDev ::
          3 <= p.maxFd && p.fds[i].dev.Some? && !p.fds[i].dev.value.fileSystem)
    && (forall i | 0 <= i < MAX_FD && p.fds[i].excl :: p.fds[i].isDev)
  }

  /** No two descriptors hold a lock on one device. */
  predicate OneHolder(p: Pool)
  {
    forall i, j | 0 <= i < |p.fds| && 0 <= j < |p.fds| && p.fds[i].excl && p.fds[j].excl ::
      p.fds[i].dev == p.fds[j].dev ==> i == j
  }

  /** A lock held at the high-water mark is held by the only descriptor on its device. */
  predicate SoleAtMark(p: Pool)
  {
    && p.maxFd < |p.fds|
    && (0 <= p.maxFd && p.fds[p.maxFd].excl ==>
          forall k | 0 <= k < |p.fds| && k != p.maxFd :: p.fds[k].dev != p.fds[p.maxFd].dev)
  }

  predicate Inv(p: Pool)
  {
    Shape(p) && OneHolder(p) && SoleAtMark(p)
  }

  predicate Held(p: Pool, d: Device)
  {
    exists i :: 0 <= i < |p.fds| && p.fds[i].excl && p.fds[i].dev == Some(d)
  }

  lemma InitialHolds()
    ensures Inv(Initial())
  {
  }

  /** Scanning up to the high-water mark finds a lock exactly when there is one anywhere. */
  lemma LockSeenIsHeld(p: Pool, d: Device, mode: nat)
    requires Inv(p) && FirstFree(p.fds, 0) < MAX_FD
    ensures LockSeen(Filled(p, d, mode), FirstFree(p.fds, 0)) <==> Held(p, d)
  {
    var i, q := FirstFree(p.fds, 0), Filled(p, d, mode);
    if Held(p, d) {
      var k :| 0 <= k < |p.fds| && p.fds[k].excl && p.fds[k].dev == Some(d);
      assert k != i && q.fds[k] == p.fds[k];
      assert k <= q.maxFd;
    }
    if LockSeen(q, i) {
      var k :| 0 <= k <= q.maxFd && k != i && q.fds[k].excl && q.fds[k].dev == q.fds[i].dev;
      assert p.fds[k] == q.fds[k];
    }
  }

  /** open is refused with EACCES exactly when a descriptor anywhere in the pool holds a lock on the
      device, or the device's own open says so. */
  lemma OpenRefusal(p: Pool, found: Found, mode: nat)
    requires Inv(p) && found.Entry? && FirstFree(p.fds, 0) < MAX_FD
    ensures (Opened(p, found, mode).rc == -1 && Opened(p, found, mode).errno == EACCES
             <==> (Held(p, found.dev) && !found.dev.fileSystem) || found.status == -EACCES)
  {
    LockSeenIsHeld(p, found.dev, mode);
  }

  /** While a lock is held on a device every open of it fails, and changes no descriptor. */
  lemma LockedOpenFails(p: Pool, found: Found, mode: nat)
    requires Inv(p) && found.Entry? && !found.dev.fileSystem && Held(p, found.dev)
    ensures Opened(p, found, mode).rc == -1 && Opened(p, found, mode).errno in {EACCES, EMFILE}
    ensures forall k | 0 <= k < MAX_FD && p.fds[k].dev.Some? :: Opened(p, found, mode).pool.fds[k] == p.fds[k]
    ensures forall k | 0 <= k < MAX_FD && p.fds[k].dev.None? :: Opened(p, found, mode).pool.fds[k].dev.None?
  {
    if FirstFree(p.fds, 0) < MAX_FD {
      LockSeenIsHeld(p, found.dev, mode);
    }
  }

  /** An open that succeeds takes a descriptor that was free and marks it for the device. */
  lemma OpenSucceeds(p: Pool, found: Found, mode: nat)
    requires Inv(p) && Opened(p, found, mode).rc >= 0
    ensures found.Entry? && found.status >= 0 && (found.dev.fileSystem || !Held(p, found.dev))
    ensures var o := Opened(p, found, mode);
            && o.rc == FirstFree(p.fds, 0) < MAX_FD && 3 <= o.rc <= o.pool.maxFd && p.maxFd <= o.pool.maxFd
            && o.pool.fds == p.fds[o.rc := Fd(Some(found.dev), false, !found.dev.fileSystem, mode)]
  {
    LockSeenIsHeld(p, found.dev, mode);
  }

  /** An open that fails at most moves the high-water mark. */
  lemma OpenFails(p: Pool, found: Found, mode: nat)
    requires Inv(p) && Opened(p, found, mode).rc < 0
    ensures var o := Opened(p, found, mode);
            && |o.pool.fds| == MAX_FD && p.maxFd <= o.pool.maxFd < MAX_FD
            && (p.maxFd == o.pool.maxFd || 3 <= o.pool.maxFd)
            && (forall k | 0 <= k < MAX_FD && p.fds[k].dev.Some? :: o.pool.fds[k] == p.fds[k])
            && (forall k | 0 <= k < MAX_FD && p.fds[k].dev.None? :: o.pool.fds[k] == FREE)
  {
  }

  /** A fresh descriptor of a device without a lock, or of a file system, breaks nothing. */
  lemma FreshDescriptorKeeps(p: Pool, i: nat, d: Device, mode: nat, maxFd: nat)
    requires Inv(p) && 3 <= i <= maxFd < MAX_FD && p.fds[i].dev.None? && p.maxFd <= maxFd
    requires d.fileSystem || !Held(p, d)
    ensures Inv(Pool(p.fds[i := Fd(Some(d), false, !d.fileSystem, mode)], maxFd))
  {
    var q := Pool(p.fds[i := Fd(Some(d), false, !d.fileSystem, mode)], maxFd);
    assert Shape(q);
    assert OneHolder(q) by { hide Shape, Held; }
    assert SoleAtMark(q);
  }

  lemma OpenKeeps(p: Pool, found: Found, mode: nat)
    requires Inv(p)
    ensures Inv(Opened(p, found, mode).pool)
  {
    var o := Opened(p, found, mode);
    if o.rc >= 0 {
      OpenSucceeds(p, found, mode);
      hide Held, Opened;
      FreshDescriptorKeeps(p, o.rc, found.dev, mode, o.pool.maxFd);
    } else {
      OpenFails(p, found, mode);
      hide Opened;
    }
  }

  /** The lock scan stops before the high-water mark, yet it never grants a second lock: a lock held
      at the mark has no other descriptor on its device to compete with. */
  lemma LockKeeps(p: Pool, i: nat)
    requires Inv(p) && i < MAX_FD && p.fds[i].isDev
    ensures Inv(Locked(p, i).0)
  {
    var q := Locked(p, i).0;
    if Locked(p, i).1 == 0 {
      forall j | 0 <= j < MAX_FD && j != i && q.fds[j].excl
        ensures q.fds[j].dev != q.fds[i].dev
      {
        assert p.fds[j].dev == p.fds[i].dev ==> j == p.maxFd;
      }
    }
  }

  lemma CloseKeeps(p: Pool, i: nat)
    requires Inv(p) && i < MAX_FD
    ensures Inv(Released(p, i))
  {
  }

  lemma RedirectKeeps(p: Pool, s: nat, found: Found, mode: nat)
    requires Inv(p) && s <= 2
    ensures Inv(Redirected(p, s, found, mode))
  {
    OpenKeeps(p, found, mode);
    if Opened(p, found, mode).rc >= 0 {
      OpenSucceeds(p, found, mode);
    }
    hide Opened;
  }

  lemma AfterKeeps(p: Pool, c: Call)
    requires Inv(p) && Legal(p, c)
    ensures Inv(After(p, c))
  {
    match c
    case Open(found, mode) => OpenKeeps(p, found, mode);
    case Exclude(fd) => if p.fds[fd].isDev { LockKeeps(p, fd); }
    case Share(fd) =>
    case Close(fd) => CloseKeeps(p, fd);
    case Redirect(s, found, mode) => RedirectKeeps(p, s, found, mode);
  }

  predicate AllLegal(p: Pool, calls: seq<Call>)
    requires Inv(p)
    decreases |calls|
  {
    calls == [] || (Legal(p, calls[0]) && (AfterKeeps(p, calls[0]); AllLegal(After(p, calls[0]), calls[1..])))
  }

  /** The pool after a run of calls. */
  function Run(p: Pool, calls: seq<Call>): (q: Pool)
    requires Inv(p) && AllLegal(p, calls)
    ensures Inv(q)
    decreases |calls|
  {
    if calls == [] then p else (AfterKeeps(p, calls[0]); Run(After(p, calls[0]), calls[1..]))
  }

  /** Over every run from start-up no device has two locks, and every open of a locked device fails. */
  lemma LocksExclude(calls: seq<Call>, found: Found, mode: nat)
    requires Inv(Initial()) && AllLegal(Initial(), calls)
    ensures var p := Run(Initial(), calls);
            && OneHolder(p)
            && (found.Entry? && !found.dev.fileSystem && Held(p, found.dev) ==> Opened(p, found, mode).rc == -1)
  {
    var p := Run(Initial(), calls);
    if found.Entry? && !found.dev.fileSystem && Held(p, found.dev) {
      LockedOpenFails(p, found, mode);
    }
  }

  /** What a failed open reports: ENODEV for a name that is not found, EMFILE without a free descriptor,
      EACCES for a locked device, and otherwise what the device's own open says. */
  lemma OpenErrors(p: Pool, found: Found, mode: nat)
    requires Inv(p)
    ensures var o := Opened(p, found, mode); var full := forall k | 0 <= k < MAX_FD :: p.fds[k].dev.Some?;
            && (found.Missing? ==> o.rc == -1 && o.errno == ENODEV && o.pool == p)
            && (found.Entry? && full ==> o.rc == -1 && o.errno == EMFILE && o.pool == p)
            && (found.Entry? && !full ==>
                  var locked := Held(p, found.dev) && !found.dev.fileSystem;
                  && (o.rc < 0 <==> locked || found.status < 0)
                  && (o.rc < 0 ==> o.errno == if locked then EACCES else -found.status))
  {
    if found.Entry? && FirstFree(p.fds, 0) < MAX_FD {
      LockSeenIsHeld(p, found.dev, mode);
    }
  }

  /** A lock is granted exactly if no other descriptor below the mark is on the device; then it is held
      through this descriptor, and otherwise nothing changes. */
  lemma LockIsHeld(p: Pool, i: nat)
    requires Inv(p) && i < MAX_FD && p.fds[i].isDev
    ensures var (q, rc) := Locked(p, i);
            && (rc == 0 <==> forall k | 0 <= k < p.maxFd && k != i :: p.fds[k].dev != p.fds[i].dev)
            && (rc == 0 ==> Held(q, p.fds[i].dev.value) && q.fds[i] == p.fds[i].(excl := true))
            && (rc != 0 ==> rc == -EACCES && q == p)
            && q.maxFd == p.maxFd && |q.fds| == MAX_FD
            && (forall k | 0 <= k < MAX_FD && k != i :: q.fds[k] == p.fds[k])
  {
    var (q, rc) := Locked(p, i);
    if rc == 0 {
      assert q.fds[i].excl && q.fds[i].dev == p.fds[i].dev;
    }
  }

  /** Unlocking through the descriptor that holds the lock leaves the device unlocked, so that it can be
      opened again; through another descriptor it changes nothing. */
  lemma UnlockReleases(p: Pool, i: nat)
    requires Inv(p) && i < MAX_FD && p.fds[i].isDev
    ensures p.fds[i].excl ==> !Held(Unlocked(p, i), p.fds[i].dev.value)
    ensures !p.fds[i].excl ==> Unlocked(p, i) == p
    ensures (forall d: Device | Some(d) != p.fds[i].dev :: Held(Unlocked(p, i), d) <==> Held(p, d))
    ensures Unlocked(p, i).fds[i] == p.fds[i].(excl := false) && Unlocked(p, i).maxFd == p.maxFd
  {
    var q := Unlocked(p, i);
    assert |q.fds| == |p.fds| && forall k | 0 <= k < |p.fds| && k != i :: q.fds[k] == p.fds[k];
    forall d: Device | Some(d) != p.fds[i].dev ensures Held(q, d) <==> Held(p, d) {
      if Held(p, d) {
        var k :| 0 <= k < |p.fds| && p.fds[k].excl && p.fds[k].dev == Some(d);
        assert q.fds[k] == p.fds[k];
      }
    }
  }

  /** After a close the descriptor is free, unless it is a standard stream, which stays as it is. */
  lemma CloseFrees(p: Pool, i: nat)
    requires Inv(p) && i < MAX_FD
    ensures 2 < i ==> Released(p, i).fds == p.fds[i := Fd(None, false, false, 0)]
    ensures i <= 2 ==> Released(p, i) == p
    ensures Released(p, i).maxFd == p.maxFd
  {
  }

  /** A redirected stream refers to what was opened, with no lock, and no other descriptor changes; if
      the open fails the streams stay as they are. */
  lemma RedirectRefers(p: Pool, s: nat, found: Found, mode: nat)
    requires Inv(p) && s <= 2
    ensures var q := Redirected(p, s, found, mode);
            if Opened(p, found, mode).rc >= 0
            then q.fds == p.fds[s := Fd(Some(found.dev), false, !found.dev.fileSystem, mode)]
            else forall k | 0 <= k < MAX_FD && p.fds[k].dev.Some? :: q.fds[k] == p.fds[k]
  {
    if Opened(p, found, mode).rc >= 0 {
      OpenSucceeds(p, found, mode);
    } else {
      OpenFails(p, found, mode);
    }
    hide Opened;
  }

  predicate Shared(p: Pool, i: nat)
    requires i < |p.fds|
  {
    exists k :: 0 <= k < |p.fds| && k != i && p.fds[k].dev == p.fds[i].dev
  }

  /** A lock is granted although the device is open elsewhere exactly when the only other descriptor
      on it is the one at the high-water mark. */
  lemma GrantedThoughShared(p: Pool, i: nat)
    requires Inv(p) && i < MAX_FD && p.fds[i].isDev
    ensures (Locked(p, i).1 == 0 && Shared(p, i)
             <==> (i != p.maxFd && p.fds[p.maxFd].dev == p.fds[i].dev && !OtherSeen(p, i)))
  {
    if Locked(p, i).1 == 0 && Shared(p, i) {
      var k :| 0 <= k < |p.fds| && k != i && p.fds[k].dev == p.fds[i].dev;
      assert k == p.maxFd;
    }
  }

  lemma FirstOpen(p: Pool, d: Device)
    requires p == Initial() && !d.fileSystem
    ensures Inv(p) && After(p, Open(Entry(d, 0), 0)) == Pool(p.fds[3 := Fd(Some(d), false, true, 0)], 3)
  {
    InitialHolds();
    assert Opened(p, Entry(d, 0), 0).pool.fds == p.fds[3 := Fd(Some(d), false, true, 0)];
  }

  lemma SecondOpen(p: Pool, d: Device)
    requires p == Pool(Initial().fds[3 := Fd(Some(d), false, true, 0)], 3) && !d.fileSystem
    ensures After(p, Open(Entry(d, 0), 0)) == Pool(p.fds[4 := Fd(Some(d), false, true, 0)], 4)
  {
    assert p.fds[4].dev.None? && p.fds[3].dev.Some?;
    assert forall k | 0 <= k <= 2 :: p.fds[k] == Initial().fds[k];
    assert FirstFree(p.fds, 0) == 4;
    assert Opened(p, Entry(d, 0), 0).pool.fds == p.fds[4 := Fd(Some(d), false, true, 0)];
  }

  lemma LockFirst(p: Pool, d: Device)
    requires p == Pool(Initial().fds[3 := Fd(Some(d), false, true, 0)][4 := Fd(Some(d), false, true, 0)], 4)
    requires d.id == 1
    ensures Legal(p, Exclude(3)) && After(p, Exclude(3)).fds[3] == Fd(Some(d), true, true, 0)
    ensures After(p, Exclude(3)).fds[4].dev == Some(d)
  {
    assert !OtherSeen(p, 3);
  }

  lemma RunFirst(p: Pool, c: Call, rest: seq<Call>)
    requires Inv(p) && Legal(p, c) && Inv(After(p, c)) && AllLegal(After(p, c), rest)
    ensures AllLegal(p, [c] + rest) && Run(p, [c] + rest) == Run(After(p, c), rest)
  {
    hide After, Inv, Legal;
    assert ([c] + rest)[1..] == rest;
  }

  /** It does happen: a device opened twice can be locked through the first descriptor. */
  lemma SharedLockExample(p: Pool, d: Device)
    requires p == Initial() && d == Device(1, false)
    ensures Inv(p) && AllLegal(p, [Open(Entry(d, 0), 0), Open(Entry(d, 0), 0), Exclude(3)])
    ensures var q := Run(p, [Open(Entry(d, 0), 0), Open(Entry(d, 0), 0), Exclude(3)]);
            q.fds[3].excl && q.fds[3].dev == q.fds[4].dev == Some(d)
  {
    var open := Open(Entry(d, 0), 0);
    FirstOpen(p, d);
    var p1 := Pool(p.fds[3 := Fd(Some(d), false, true, 0)], 3);
    SecondOpen(p1, d);
    var p2 := Pool(p1.fds[4 := Fd(Some(d), false, true, 0)], 4);
    LockFirst(p2, d);
    hide After, Inv, Initial, OtherSeen;
    AfterKeeps(p, open);
    AfterKeeps(p1, open);
    AfterKeeps(p2, Exclude(3));
    RunFirst(p2, Exclude(3), []);
    assert [Exclude(3)] + [] == [Exclude(3)];
    RunFirst(p1, open, [Exclude(3)]);
    assert [open] + [Exclude(3)] == [open, Exclude(3)];
    RunFirst(p, open, [open, Exclude(3)]);
    assert [open] + [open, Exclude(3)] == [open, open, Exclude(3)];
  }

  /** close gives up a lock exactly when the descriptor is not one of the standard streams. */
  lemma CloseReleasesLock(p: Pool, i: nat)
    requires Inv(p) && i < MAX_FD && p.fds[i].excl
    ensures Held(Released(p, i), p.fds[i].dev.value) <==> i <= 2
  {
    if i <= 2 {
      assert Released(p, i).fds[i].excl;
    }
  }

  /** It happens: a lock taken through standard input is still held after the close. */
  lemma StreamLockExample(p: Pool, d: Device)
    requires p == Initial() && d == Device(1, false)
    ensures Inv(p) && AllLegal(p, [Redirect(0, Entry(d, 0), 0), Exclude(0), Close(0)])
    ensures Held(Run(p, [Redirect(0, Entry(d, 0), 0), Exclude(0), Close(0)]), d)
  {
    var redirect := Redirect(0, Entry(d, 0), 0);
    FirstOpen(p, d);
    var p1 := After(p, redirect);
    RedirectFirst(p, d);
    var p2 := After(p1, Exclude(0));
    LockStream(p1, d);
    hide After, Inv, Initial, OtherSeen, Held;
    AfterKeeps(p, redirect);
    AfterKeeps(p1, Exclude(0));
    AfterKeeps(p2, Close(0));
    RunFirst(p2, Close(0), []);
    assert [Close(0)] + [] == [Close(0)];
    RunFirst(p1, Exclude(0), [Close(0)]);
    assert [Exclude(0)] + [Close(0)] == [Exclude(0), Close(0)];
    RunFirst(p, redirect, [Exclude(0), Close(0)]);
    assert [redirect] + [Exclude(0), Close(0)] == [redirect, Exclude(0), Close(0)];
  }

  lemma RedirectFirst(p: Pool, d: Device)
    requires p == Initial() && d == Device(1, false)
    ensures Legal(p, Redirect(0, Entry(d, 0), 0))
    ensures After(p, Redirect(0, Entry(d, 0), 0)) == Pool(p.fds[0 := Fd(Some(d), false, true, 0)], 3)
  {
    FirstOpen(p, d);
    assert After(p, Redirect(0, Entry(d, 0), 0)).fds == p.fds[0 := Fd(Some(d), false, true, 0)];
  }

  lemma LockStream(p: Pool, d: Device)
    requires p == Pool(Initial().fds[0 := Fd(Some(d), false, true, 0)], 3) && d == Device(1, false)
    ensures Legal(p, Exclude(0)) && Legal(After(p, Exclude(0)), Close(0))
    ensures Held(After(After(p, Exclude(0)), Close(0)), d)
  {
    assert !OtherSeen(p, 0);
    var q := After(p, Exclude(0));
    assert q.fds[0] == Fd(Some(d), true, true, 0);
    assert After(q, Close(0)) == q;
  }

  class Files {
    const list: array<Fd>
    var maxFd: int
    var errno: int

    ghost function Contents(): Pool
      reads this, list
    {
      Pool(list[..], maxFd)
    }

    ghost predicate Valid()
      reads this, list
    {
      Inv(Contents())
    }

    constructor ()
      ensures Valid() && Contents() == Initial() && fresh(list)
    {
      list := new Fd[MAX_FD](i => if 0 <= i <= 2 then Fd(Some(Device(0, false)), false, false, 0) else FREE);
      maxFd, errno := -1, 0;
      new;
      assert list[..] == Initial().fds;
      InitialHolds();
    }

    /** alt_get_fd. */
    method GetFd(d: Device) returns (rc: int)
      requires list.Length == MAX_FD
      modifies list, `maxFd
      ensures (var p := old(Contents()); if FirstFree(p.fds, 0) == MAX_FD
               then rc == -EMFILE && Contents() == p
               else rc == FirstFree(p.fds, 0) && Contents() == Taken(p, d))
    {
      rc := -EMFILE;
      var i := 0;
      while i < MAX_FD
        invariant 0 <= i <= MAX_FD && rc == -EMFILE && Contents() == old(Contents())
        invariant FirstFree(list[..], 0) == FirstFree(list[..], i)
      {
        if list[i].dev.None? {
          list[i] := list[i].(dev := Some(d));
          if i > maxFd {
            maxFd := i;
          }
          return i;
        }
        i := i + 1;
      }
    }

    /** alt_release_fd. */
    method ReleaseFd(fd: int)
      requires list.Length == MAX_FD && fd < MAX_FD
      modifies list
      ensures Contents() == Released(old(Contents()), fd)
    {
      if fd > 2 {
        list[fd] := list[fd].(excl := false, isDev := false, mode := 0);
        list[fd] := list[fd].(dev := None);
      }
    }

    /** alt_file_locked. */
    method FileLocked(fd: int) returns (rc: int)
      requires list.Length == MAX_FD && 0 <= fd < MAX_FD && maxFd < MAX_FD
      modifies list
      ensures list[..] == old(list[..])[fd := old(list[fd]).(isDev := true)]
      ensures rc == if LockSeen(Contents(), fd) then -EACCES else 0
    {
      list[fd] := list[fd].(isDev := true);
      var i := 0;
      while i <= maxFd
        invariant 0 <= i
        invariant (forall k | 0 <= k < i && k <= maxFd && k != fd ::
                     !(list[k].excl && list[k].dev == list[fd].dev))
      {
        if list[i].dev == list[fd].dev && list[i].excl && i != fd {
          assert Contents().fds[i].excl;
          return -EACCES;
        }
        i := i + 1;
      }
      return 0;
    }

    /** ALT_OPEN. */
    method Open(found: Found, mode: nat) returns (rc: int)
      requires Valid()
      modifies list, `maxFd, `errno
      ensures Valid()
      ensures Contents() == Opened(old(Contents()), found, mode).pool
      ensures Contents() == After(old(Contents()), Call.Open(found, mode))
      ensures rc == Opened(old(Contents()), found, mode).rc
      ensures errno == if rc < 0 then Opened(old(Contents()), found, mode).errno else old(errno)
    {
      OpenKeeps(Contents(), found, mode);
      hide Inv;
      var index, status := -1, -ENODEV;
      if found.Entry? {
        index := GetFd(found.dev);
        if index < 0 {
          status := index;
        } else {
          list[index] := list[index].(excl := false, isDev := false, mode := mode);
          status := 0;
          if !found.dev.fileSystem {
            status := FileLocked(index);
          }
          assert Contents() == Filled(old(Contents()), found.dev, mode);
          if status >= 0 {
            status := found.status;
          }
        }
      }
      if status < 0 {
        ReleaseFd(index);
        errno := -status;
        return -1;
      }
      return index;
    }

    /** alt_fd_lock. */
    method FdLock(fd: nat) returns (rc: int)
      requires list.Length == MAX_FD && fd < MAX_FD && maxFd < MAX_FD
      modifies list
      ensures (Contents(), rc) == Locked(old(Contents()), fd)
    {
      rc := 0;
      var i := 0;
      while i < maxFd
        invariant 0 <= i
        invariant forall k | 0 <= k < i && k < maxFd && k != fd :: list[k].dev != list[fd].dev
      {
        if i != fd && list[i].dev == list[fd].dev {
          assert Contents().fds[i].dev == Contents().fds[fd].dev;
          return -EACCES;
        }
        i := i + 1;
      }
      list[fd] := list[fd].(excl := true);
    }

    /** ALT_IOCTL.  `driver` is what the device's own ioctl answers. */
    method Ioctl(file: int, req: Request, driver: int) returns (rc: int)
      requires Valid()
      requires 0 <= file ==> file < MAX_FD && list[file].dev.Some?
      modifies list, `errno
      ensures Valid()
      ensures file < 0 ==> rc == -EBADFD && Contents() == old(Contents())
      ensures (0 <= file && old(list[file]).isDev && req == Tiocexcl ==>
                 (Contents(), rc) == Locked(old(Contents()), file))
      ensures (0 <= file && old(list[file]).isDev && req == Tiocnxcl ==>
                 Contents() == Unlocked(old(Contents()), file) && rc == 0)
      ensures (0 <= file && (!old(list[file]).isDev || req == OtherRequest) ==>
                 Contents() == old(Contents()) && rc == driver)
      ensures 0 <= file && req == Tiocexcl ==> Contents() == After(old(Contents()), Exclude(file))
      ensures 0 <= file && req == Tiocnxcl ==> Contents() == After(old(Contents()), Share(file))
      ensures errno == if rc < 0 then -rc else old(errno)
    {
      if 0 <= file {
        if list[file].isDev && req == Tiocexcl {
          LockKeeps(Contents(), file);
          rc := FdLock(file);
        } else if list[file].isDev && req == Tiocnxcl {
          assert list[..][file].dev.Some?;
          list[file] := list[file].(excl := false);
          rc := 0;
        } else {
          rc := driver;
        }
      } else {
        rc := -EBADFD;
      }
      if rc < 0 {
        errno := -rc;
      }
    }

    /** ALT_CLOSE.  `driver` is what the device's own close answers. */
    method Close(fildes: int, driver: int) returns (rc: int)
      requires Valid()
      requires 0 <= fildes ==> fildes < MAX_FD && list[fildes].dev.Some?
      modifies list, `errno
      ensures Valid() && Contents() == Released(old(Contents()), fildes)
      ensures 0 <= fildes ==> Contents() == After(old(Contents()), Call.Close(fildes))
      ensures rc == if fildes < 0 || driver < 0 then -1 else 0
      ensures errno == if fildes < 0 then EBADFD else if driver < 0 then -driver else old(errno)
    {
      if 0 <= fildes {
        CloseKeeps(Contents(), fildes);
        ReleaseFd(fildes);
        if driver < 0 {
          errno := -driver;
          return -1;
        }
        return 0;
      } else {
        errno := EBADFD;
        return -1;
      }
    }

    /** alt_open_fd, which redirects a standard stream. */
    method OpenFd(stream: nat, found: Found, mode: nat)
      requires Valid() && stream <= 2
      modifies list, `maxFd, `errno
      ensures Valid() && Contents() == Redirected(old(Contents()), stream, found, mode)
      ensures Contents() == After(old(Contents()), Redirect(stream, found, mode))
    {
      RedirectKeeps(Contents(), stream, found, mode);
      if Opened(Contents(), found, mode).rc >= 0 {
        OpenSucceeds(Contents(), found, mode);
      }
      hide Opened, Inv;
      var fd := Open(found, mode);
      if fd >= 0 {
        list[stream] := list[fd];
        ReleaseFd(fd);
      }
    }
  }
}
