/** The Delicate Device Locking Protocol of libburn/ddlpa.c: all device files of a drive are
    opened and locked together, or none of them. */
module DeviceLock {
  import opened Options

  /** What stat tells about a device file: where its inode is, and which device it stands for. */
  datatype File = File(dev: int, inode: int, rdev: int)

  predicate SameInode(a: File, b: File) { a.dev == b.dev && a.inode == b.inode }

  // --------------------------------------------------------------- who gets opened

  /** Sibling i is to be opened: not the main file, and no earlier sibling is the same inode. */
  predicate ToOpen(main: File, files: seq<File>, i: nat)
    requires i < |files|
  {
    !SameInode(files[i], main) && forall j | 0 <= j < i :: !SameInode(files[j], files[i])
  }

  /** Sibling i, if opened, is opened with O_EXCL: its device has not been met before. */
  predicate Exclusive(main: File, files: seq<File>, i: nat)
    requires i < |files|
  {
    files[i].rdev != main.rdev && forall j | 0 <= j < i :: files[j].rdev != files[i].rdev
  }

  /** One inode belongs to one device. */
  predicate Coherent(main: File, files: seq<File>)
  {
    forall a, b | a in [main] + files && b in [main] + files && SameInode(a, b) :: a.rdev == b.rdev
  }

  /** The first sibling with an inode. */
  function Least(files: seq<File>, f: File, from: nat, i: nat): (k: nat)
    requires from <= i < |files| && SameInode(files[i], f)
    requires forall k | 0 <= k < from :: !SameInode(files[k], f)
    ensures k <= i && SameInode(files[k], f) && forall n | 0 <= n < k :: !SameInode(files[n], f)
    decreases i - from
  {
    if SameInode(files[from], f) then from else Least(files, f, from + 1, i)
  }

  /** Every inode among the siblings is opened exactly once, or is that of the main file. */
  lemma EachInodeOnce(main: File, files: seq<File>, i: nat)
    requires i < |files| && (files[i].dev != main.dev || files[i].inode != main.inode)
    ensures exists j: nat | j < |files| ::
              files[j].dev == files[i].dev && files[j].inode == files[i].inode && ToOpen(main, files, j)
    ensures forall j: nat, k: nat | j < |files| && k < |files| && ToOpen(main, files, j) && ToOpen(main, files, k)
              && files[j].dev == files[k].dev && files[j].inode == files[k].inode :: j == k
  {
    var j := Least(files, files[i], 0, i);
    assert ToOpen(main, files, j);
  }

  function LeastRdev(files: seq<File>, rdev: int, from: nat, i: nat): (k: nat)
    requires from <= i < |files| && files[i].rdev == rdev
    requires forall k | 0 <= k < from :: files[k].rdev != rdev
    ensures k <= i && files[k].rdev == rdev && forall n | 0 <= n < k :: files[n].rdev != rdev
    decreases i - from
  {
    if files[from].rdev == rdev then from else LeastRdev(files, rdev, from + 1, i)
  }

  /** Every device among the siblings is opened exactly once with O_EXCL, or is that of the
      main file, which always is. */
  lemma EachDeviceExclusiveOnce(main: File, files: seq<File>, i: nat)
    requires i < |files| && files[i].rdev != main.rdev && Coherent(main, files)
    ensures exists j: nat | j < |files| :: files[j].rdev == files[i].rdev && ToOpen(main, files, j)
              && Exclusive(main, files, j)
    ensures forall j: nat, k: nat | j < |files| && k < |files| && Exclusive(main, files, j) && Exclusive(main, files, k)
              && files[j].rdev == files[k].rdev :: j == k
  {
    var j := LeastRdev(files, files[i].rdev, 0, i);
    assert files[j] in [main] + files && main in [main] + files;
    forall k | 0 <= k < j
      ensures !SameInode(files[k], files[j])
    {
      assert files[k] in [main] + files;
    }
    assert ToOpen(main, files, j) && Exclusive(main, files, j);
  }

  /** Some sibling makes the lock hold the device with O_EXCL. */
  ghost predicate HeldBySibling(main: File, files: seq<File>, rdev: int)
  {
    exists k: nat | k < |files| :: files[k].rdev == rdev && ToOpen(main, files, k) && Exclusive(main, files, k)
  }

  /** Without any assumption: a device among the siblings, not that of the main file, is held
      with O_EXCL if and only if the inode of its first sibling has not been met before. */
  lemma DeviceHeldExactly(main: File, files: seq<File>, i: nat)
    requires i < |files| && files[i].rdev != main.rdev
    ensures var j := LeastRdev(files, files[i].rdev, 0, i);
            HeldBySibling(main, files, files[i].rdev)
            <==> !SameInode(files[j], main) && forall m | 0 <= m < j :: !SameInode(files[m], files[j])
  {
    var j := LeastRdev(files, files[i].rdev, 0, i);
    assert Exclusive(main, files, j);
    if HeldBySibling(main, files, files[i].rdev) {
      var k: nat :| k < |files| && files[k].rdev == files[i].rdev && ToOpen(main, files, k)
          && Exclusive(main, files, k);
      assert k == j;
    }
  }

  /** Two siblings of which the second is not opened at all. The same inode shows two device
      numbers only if the node was replaced between the two calls of stat. */
  lemma IncoherentUnlocked() returns (main: File, files: seq<File>)
    ensures |files| == 2 && !Coherent(main, files) && files[1].rdev != main.rdev
    ensures forall j: nat | j < 2 && files[j].rdev == files[1].rdev :: !ToOpen(main, files, j)
  {
    main := File(1, 1, 1);
    files := [File(1, 2, 2), File(1, 2, 3)];
    assert SameInode(files[0], files[1]) && files[0] in [main] + files && files[1] in [main] + files;
  }

  // ------------------------------------------------------------ the open files

  datatype Handle = Handle(file: File, excl: bool, locked: bool)

  predicate Held(open: map<int, Handle>, rdev: int)
  {
    exists fd | fd in open :: open[fd].excl && open[fd].file.rdev == rdev
  }

  /** The same files are open in the same way; only locks may differ. */
  predicate SameFiles(a: map<int, Handle>, b: map<int, Handle>)
  {
    a.Keys == b.Keys && forall fd | fd in a :: a[fd].file == b[fd].file && a[fd].excl == b[fd].excl
  }

  /** The operating system as far as it matters: open files of the process, O_EXCL conflicts,
      and fcntl locks, which a process loses by closing any descriptor of the inode. */
  class Kernel {
    var open: map<int, Handle>
    var nextFd: nat
    /** Calls that will be granted before something outside interferes. */
    var patience: nat

    constructor (patience: nat)
      ensures Valid() && open == map[] && this.patience == patience
    {
      this.open, this.nextFd, this.patience := map[], 0, patience;
    }

    predicate Valid()
      reads this
    {
      forall fd | fd in open :: 0 <= fd < nextFd
    }

    method Open(file: File, excl: bool) returns (fd: int)
      requires Valid()
      modifies this
      ensures Valid() && fd >= -1
      ensures fd == -1 ==> open == old(open) && (patience == 0 || (excl && Held(open, file.rdev)))
      ensures fd >= 0 ==> fd !in old(open) && open == old(open)[fd := Handle(file, excl, false)]
    {
      if patience == 0 || (excl && Held(open, file.rdev)) {
        return -1;
      }
      patience := patience - 1;
      fd := nextFd;
      open := open[nextFd := Handle(file, excl, false)];
      nextFd := nextFd + 1;
    }

    method SetLock(fd: int) returns (ok: bool)
      requires Valid() && fd in open
      modifies this
      ensures Valid() && open == if ok then old(open)[fd := old(open)[fd].(locked := true)] else old(open)
      ensures !ok ==> patience == 0
    {
      if patience == 0 {
        return false;
      }
      patience := patience - 1;
      open := open[fd := open[fd].(locked := true)];
      ok := true;
    }

    method Close(fd: int)
      requires Valid() && fd in open
      modifies this`open
      ensures Valid() && open == Closed(old(open), fd)
    {
      open := Closed(open, fd);
    }
  }

  function Closed(open: map<int, Handle>, fd: int): (now: map<int, Handle>)
    requires fd in open
    ensures SameFiles(now, open - {fd})
    ensures forall f | f in now && !SameInode(open[f].file, open[fd].file) :: now[f] == open[f]
  {
    map f | f in open && f != fd :: if SameInode(open[f].file, open[fd].file) then open[f].(locked := false)
        else open[f]
  }

  // ----------------------------------------------------------------- the protocol

  /** ddlpa_occupy: open and lock, or leave nothing open */
  method Occupy(kernel: Kernel, file: File, noExcl: bool) returns (fd: int)
    requires kernel.Valid()
    modifies kernel
    ensures kernel.Valid() && fd >= -1
    ensures fd >= 0 ==> fd !in old(kernel.open) && kernel.open == old(kernel.open)[fd := Handle(file, !noExcl, true)]
    ensures fd == -1 ==>
              && SameFiles(kernel.open, old(kernel.open))
              && (forall f | f in kernel.open && !SameInode(kernel.open[f].file, file) ::
                  kernel.open[f] == old(kernel.open)[f])
              && (kernel.patience == 0 || (!noExcl && Held(old(kernel.open), file.rdev)))
  {
    ghost var was := kernel.open;
    fd := kernel.Open(file, !noExcl);
    if fd == -1 {
      return;
    }
    var ok := kernel.SetLock(fd);
    if !ok {
      kernel.Close(fd);
      assert kernel.open.Keys == was.Keys;
      fd := -1;
    }
  }

  const MAX_SIBLINGS := 5

  /** The descriptors of one locking attempt: those of siblings, -1 for none, then the main one. */
  predicate Own(fds: seq<int>, f: int) { exists k | 0 <= k < |fds| :: fds[k] == f }

  /** The descriptors in use differ from each other. */
  predicate Distinct(fds: seq<int>)
  {
    forall j, k | 0 <= j < k < |fds| && fds[j] >= 0 :: fds[j] != fds[k]
  }

  /** Besides its own descriptors the attempt finds the files open that were open before. */
  predicate Only(open: map<int, Handle>, base: map<int, Handle>, fds: seq<int>)
  {
    && Distinct(fds) && (forall k | 0 <= k < |fds| :: fds[k] >= -1)
    && (forall f | f in open :: f >= 0 && (f in base || Own(fds, f)))
    && (forall k | 0 <= k < |fds| && fds[k] >= 0 :: fds[k] in open && fds[k] !in base)
    && forall f | f in base :: f in open && open[f].file == base[f].file && open[f].excl == base[f].excl
  }

  /** The first n siblings have been dealt with as the protocol demands. */
  predicate Dealt(open: map<int, Handle>, main: File, files: seq<File>, fds: seq<int>, n: nat)
    requires n <= |files| <= |fds|
  {
    forall k | 0 <= k < n ::
      if ToOpen(main, files, k) then fds[k] >= 0 && fds[k] in open
          && open[fds[k]] == Handle(files[k], Exclusive(main, files, k), true)
      else fds[k] == -1
  }

  lemma OnlyOpened(open: map<int, Handle>, open': map<int, Handle>, base: map<int, Handle>, fds: seq<int>, k: nat,
                   fd: int, h: Handle)
    requires Only(open, base, fds) && k < |fds| && fds[k] == -1 && 0 <= fd && fd !in open && open' == open[fd := h]
    ensures Only(open', base, fds[k := fd])
  {
    var fds' := fds[k := fd];
    forall f | f in open'
      ensures f in base || Own(fds', f)
    {
      if f != fd && f !in base {
        var j :| 0 <= j < |fds| && fds[j] == f;
        assert fds'[j] == f;
      } else if f == fd {
        assert fds'[k] == f;
      }
    }
  }

  lemma OnlySame(open: map<int, Handle>, open': map<int, Handle>, base: map<int, Handle>, fds: seq<int>)
    requires Only(open, base, fds) && SameFiles(open', open)
    ensures Only(open', base, fds)
  {
    forall f | f in open'
      ensures f in base || Own(fds, f)
    {
      assert f in open;
    }
  }

  lemma OnlyClosed(open: map<int, Handle>, base: map<int, Handle>, fds: seq<int>, k: nat)
    requires Only(open, base, fds) && k < |fds| && fds[k] >= 0
    ensures Only(Closed(open, fds[k]), base, fds[k := -1])
  {
    var fds' := fds[k := -1];
    var open' := Closed(open, fds[k]);
    forall f | f in open'
      ensures f in base || Own(fds', f)
    {
      if f !in base {
        var j :| 0 <= j < |fds| && fds[j] == f;
        assert fds'[j] == f;
      }
    }
  }

  lemma OnlyNone(open: map<int, Handle>, base: map<int, Handle>, fds: seq<int>)
    requires Only(open, base, fds) && forall k | 0 <= k < |fds| :: fds[k] == -1
    ensures SameFiles(open, base)
  {
    BaseOpen(open, base, fds);
    assert forall f | f in open :: f in base;
    assert forall f: int :: f in open.Keys <==> f in base.Keys;
  }

  /** Somebody holds one of the devices already. */
  predicate Hindered(main: File, files: seq<File>, open: map<int, Handle>)
  {
    Held(open, main.rdev) || exists k | 0 <= k < |files| :: Exclusive(main, files, k) && Held(open, files[k].rdev)
  }

  /** struct ddlpa_lock once the siblings are known */
  class Lock {
    const main: File
    const siblings: seq<File>
    const fds: array<int>
    var fd: int

    constructor (main: File, siblings: seq<File>)
      requires |siblings| <= MAX_SIBLINGS
      ensures this.main == main && this.siblings == siblings && fd == -1
      ensures fds.Length == MAX_SIBLINGS && fresh(fds) && forall k | 0 <= k < MAX_SIBLINGS :: fds[k] == -1
    {
      this.main, this.siblings := main, siblings;
      this.fd := -1;
      this.fds := new int[MAX_SIBLINGS](_ => -1);
    }

    predicate Sized()
      reads this
    {
      fds.Length == MAX_SIBLINGS && |siblings| <= MAX_SIBLINGS
    }

    function All(): seq<int>
      reads this, fds
    {
      fds[..] + [fd]
    }

    /** The two tests of ddlpa_open_all for sibling i */
    method Examine(i: nat) returns (skip: bool, noExcl: bool)
      requires Sized() && i < |siblings|
      ensures skip <==> !ToOpen(main, siblings, i)
      ensures !skip ==> noExcl == !Exclusive(main, siblings, i)
    {
      if SameInode(siblings[i], main) {
        return true, false;
      }
      noExcl := siblings[i].rdev == main.rdev;
      var j := 0;
      while j < i
        invariant j <= i
        invariant forall k | 0 <= k < j :: !SameInode(siblings[k], siblings[i])
        invariant noExcl == (siblings[i].rdev == main.rdev
                    || exists k | 0 <= k < j :: siblings[k].rdev == siblings[i].rdev)
      {
        if SameInode(siblings[j], siblings[i]) {
          break;
        }
        if siblings[j].rdev == siblings[i].rdev {
          noExcl := true;
        }
        j := j + 1;
      }
      skip := j < i;
    }

    /** No descriptor of this attempt stands in the way of an exclusive one for the device. */
    lemma OwnNoHindrance(open: map<int, Handle>, base: map<int, Handle>, n: nat, rdev: int)
      requires Sized() && n <= |siblings| && fd == -1
      requires Only(open, base, All()) && Dealt(open, main, siblings, fds[..], n)
                 && (forall k | n <= k < MAX_SIBLINGS :: fds[k] == -1)
      requires forall j | 0 <= j < n :: siblings[j].rdev != rdev || !Exclusive(main, siblings, j)
      ensures Held(open, rdev) ==> Held(base, rdev)
    {
      if Held(open, rdev) {
        var f :| f in open && open[f].excl && open[f].file.rdev == rdev;
        assert f in base || Own(All(), f);
        assert forall k | 0 <= k < n :: fds[..][k] != f;
        assert forall k | 0 <= k < |All()| :: All()[k] != f;
      }
    }

    /** The sibling loop of ddlpa_open_all, and the main file */
    method OpenAll(kernel: Kernel) returns (ok: bool)
      requires Sized() && fd == -1 && kernel.Valid() && forall k | 0 <= k < MAX_SIBLINGS :: fds[k] == -1
      modifies this`fd, fds, kernel
      ensures kernel.Valid() && Only(kernel.open, old(kernel.open), All())
      ensures forall k | |siblings| <= k < MAX_SIBLINGS :: fds[k] == -1
      ensures !ok ==> fd == -1
      ensures ok ==> Dealt(kernel.open, main, siblings, fds[..], |siblings|)
      ensures ok ==> fd in kernel.open && kernel.open[fd] == Handle(main, true, true)
      ensures ok ==> forall f | f in old(kernel.open) :: kernel.open[f] == old(kernel.open)[f]
      ensures !ok ==> kernel.patience == 0 || Hindered(main, siblings, old(kernel.open))
    {
      ghost var base := kernel.open;
      assert Only(base, base, All()) by { NothingYet(base); }
      for i := 0 to |siblings|
        invariant Along(kernel, base, i)
      {
        ok := OpenSibling(kernel, i, base);
        if !ok {
          return;
        }
      }
      ok := OpenMain(kernel, base);
    }

    lemma NothingYet(base: map<int, Handle>)
      requires Sized() && fd == -1 && (forall k | 0 <= k < MAX_SIBLINGS :: fds[k] == -1)
                 && forall f | f in base :: f >= 0
      ensures Only(base, base, All())
    {
    }

    /** The loop of ddlpa_open_all has come to sibling i. */
    ghost predicate Along(kernel: Kernel, base: map<int, Handle>, i: nat)
      reads this, fds, kernel
    {
      && Sized() && i <= |siblings| && fd == -1
      && kernel.Valid() && Only(kernel.open, base, All()) && Dealt(kernel.open, main, siblings, fds[..], i)
      && (forall k | i <= k < MAX_SIBLINGS :: fds[k] == -1)
      && forall f | f in base :: kernel.open[f] == base[f]
    }

    method OpenSibling(kernel: Kernel, i: nat, ghost base: map<int, Handle>) returns (ok: bool)
      requires Along(kernel, base, i) && i < |siblings|
      modifies fds, kernel
      ensures ok ==> Along(kernel, base, i + 1)
      ensures kernel.Valid() && Only(kernel.open, base, All()) && fd == -1
      ensures forall k | |siblings| <= k < MAX_SIBLINGS :: fds[k] == -1
      ensures !ok ==> kernel.patience == 0 || Hindered(main, siblings, base)
    {
      hide Only; hide ToOpen; hide Exclusive; hide Held;
      var skip, noExcl := Examine(i);
      if skip {
        return true;
      }
      ghost var open, own := kernel.open, fds[..];
      BaseOpen(open, base, All());
      var f := Occupy(kernel, siblings[i], noExcl);
      ok := f != -1;
      if ok {
        OnlyOpened(open, kernel.open, base, All(), i, f, Handle(siblings[i], !noExcl, true));
        fds[i] := f;
        assert All() == (own + [-1])[i := f];
        StillDealt(open, kernel.open, own, i, f);
      } else {
        OnlySame(open, kernel.open, base, All());
        if !noExcl {
          FirstOfDevice(i);
          OwnNoHindrance(open, base, i, siblings[i].rdev);
        }
      }
    }

    lemma FirstOfDevice(i: nat)
      requires Sized() && i < |siblings| && Exclusive(main, siblings, i)
      ensures forall j | 0 <= j < i :: siblings[j].rdev != siblings[i].rdev
    {
    }

    lemma StillDealt(open: map<int, Handle>, open': map<int, Handle>, own: seq<int>, i: nat, f: int)
      requires Sized() && |own| == MAX_SIBLINGS && i < |siblings| && Dealt(open, main, siblings, own, i)
                 && ToOpen(main, siblings, i)
      requires 0 <= f && f !in open && open' == open[f := Handle(siblings[i], Exclusive(main, siblings, i), true)]
      ensures Dealt(open', main, siblings, own[i := f], i + 1)
    {
      hide ToOpen; hide Exclusive;
    }

    method OpenMain(kernel: Kernel, ghost base: map<int, Handle>) returns (ok: bool)
      requires Along(kernel, base, |siblings|)
      modifies this`fd, kernel
      ensures kernel.Valid() && Only(kernel.open, base, All())
      ensures ok ==> Dealt(kernel.open, main, siblings, fds[..], |siblings|)
      ensures ok ==> fd in kernel.open && kernel.open[fd] == Handle(main, true, true)
      ensures ok ==> forall f | f in base :: kernel.open[f] == base[f]
      ensures !ok ==> fd == -1 && (kernel.patience == 0 || Hindered(main, siblings, base))
    {
      hide Only; hide ToOpen; hide Held;
      ghost var open, own := kernel.open, All();
      BaseOpen(open, base, own);
      OwnNoHindrance(open, base, |siblings|, main.rdev);
      fd := Occupy(kernel, main, false);
      ok := fd != -1;
      if ok {
        OnlyOpened(open, kernel.open, base, own, MAX_SIBLINGS, fd, Handle(main, true, true));
        assert All() == own[MAX_SIBLINGS := fd];
      } else {
        OnlySame(open, kernel.open, base, All());
      }
    }

    /** ddlpa_destroy */
    method Destroy(kernel: Kernel, ghost base: map<int, Handle>)
      requires Sized() && kernel.Valid() && Only(kernel.open, base, All())
                 && forall k | |siblings| <= k < MAX_SIBLINGS :: fds[k] == -1
      modifies this`fd, fds, kernel
      ensures kernel.Valid() && SameFiles(kernel.open, base) && kernel.patience == old(kernel.patience)
    {
      hide Only;
      for i := 0 to |siblings|
        invariant fd == old(fd) && kernel.patience == old(kernel.patience) && kernel.Valid()
                    && Only(kernel.open, base, All())
        invariant forall k | 0 <= k < i :: fds[k] == -1
        invariant forall k | |siblings| <= k < MAX_SIBLINGS :: fds[k] == -1
      {
        ghost var own := All();
        if fds[i] != -1 {
          OwnIsOpen(kernel.open, base, own, i);
          OnlyClosed(kernel.open, base, own, i);
          kernel.Close(fds[i]);
          fds[i] := -1;
        }
        assert All() == own[i := -1];
      }
      ghost var own := All();
      if fd != -1 {
        OwnIsOpen(kernel.open, base, own, MAX_SIBLINGS);
        OnlyClosed(kernel.open, base, own, MAX_SIBLINGS);
        kernel.Close(fd);
        fd := -1;
      }
      assert All() == own[MAX_SIBLINGS := -1];
      OnlyNone(kernel.open, base, All());
    }
  }

  lemma BaseOpen(open: map<int, Handle>, base: map<int, Handle>, fds: seq<int>)
    requires Only(open, base, fds)
    ensures forall f | f in base :: f in open
  {
  }

  lemma OwnIsOpen(open: map<int, Handle>, base: map<int, Handle>, fds: seq<int>, k: nat)
    requires Only(open, base, fds) && k < |fds| && fds[k] != -1
    ensures fds[k] >= 0 && fds[k] in open
  {
  }

  /** ddlpa_lock_path once the standard path is known: lock the main file of the drive and all
      its siblings, or leave no descriptor open. */
  method LockAll(kernel: Kernel, main: File, files: seq<File>) returns (lock: Lock?)
    requires kernel.Valid() && |files| <= MAX_SIBLINGS
    modifies kernel
    ensures kernel.Valid()
    ensures lock == null ==> SameFiles(kernel.open, old(kernel.open))
    ensures lock == null ==> kernel.patience == 0 || Hindered(main, files, old(kernel.open))
    ensures lock != null ==>
              && fresh(lock) && fresh(lock.fds) && lock.main == main && lock.siblings == files && lock.Sized()
              && Only(kernel.open, old(kernel.open), lock.All())
              && Dealt(kernel.open, main, files, lock.fds[..], |files|)
              && lock.fd in kernel.open && kernel.open[lock.fd] == Handle(main, true, true)
              && (forall f | f in old(kernel.open) :: kernel.open[f] == old(kernel.open)[f])
              && (forall k | |files| <= k < MAX_SIBLINGS :: lock.fds[k] == -1)
  {
    ghost var base := kernel.open;
    var o := new Lock(main, files);
    var ok := o.OpenAll(kernel);
    if ok {
      lock := o;
    } else {
      o.Destroy(kernel, base);
      lock := null;
    }
  }

  /** All own files are opened and locked; each inode once, each device once exclusively. */
  lemma LockMeaning(open: map<int, Handle>, main: File, files: seq<File>, fds: seq<int>, i: nat)
    requires |files| <= |fds| && Dealt(open, main, files, fds, |files|) && Coherent(main, files) && i < |files|
    ensures SameInode(files[i], main)
            || exists j: nat | j < |files| :: fds[j] >= 0 && fds[j] in open && open[fds[j]].locked
                && SameInode(open[fds[j]].file, files[i])
    ensures files[i].rdev == main.rdev
            || exists j: nat | j < |files| :: fds[j] >= 0 && fds[j] in open && open[fds[j]].excl
                && open[fds[j]].file.rdev == files[i].rdev
    ensures forall j: nat, k: nat | j < |files| && k < |files| && fds[j] >= 0 && fds[k] >= 0
              && SameInode(files[j], files[k]) :: j == k
  {
    if !SameInode(files[i], main) {
      EachInodeOnce(main, files, i);
    }
    if files[i].rdev != main.rdev {
      EachDeviceExclusiveOnce(main, files, i);
    }
    forall j: nat, k: nat | j < |files| && k < |files| && fds[j] >= 0 && fds[k] >= 0 && SameInode(files[j], files[k])
      ensures j == k
    {
      assert ToOpen(main, files, j) && ToOpen(main, files, k);
    }
  }

  // ---------------------------------------------------------- finding the siblings

  datatype Kind = Hd | Sr | Scd | Sg

  datatype Address = Address(bus: int, host: int, channel: int, id: int, lun: int)

  /** A standard path: what stat and the SCSI address inquiry tell about it, if they succeed. */
  datatype Candidate = Candidate(kind: Kind, file: Option<File>, address: Option<Address>)

  datatype Result = Found(siblings: seq<File>) | TooMany | TooFew

  predicate Matches(c: Candidate, a: Address)
  {
    && c.kind != Hd && c.file.Some? && c.address.Some?
    && c.address.value.host == a.host && c.address.value.channel == a.channel
    && c.address.value.id == a.id && c.address.value.lun == a.lun
  }

  function Siblings(candidates: seq<Candidate>, a: Address): seq<File>
  {
    if candidates == [] then []
    else
      var c := candidates[|candidates| - 1];
      Siblings(candidates[..|candidates| - 1], a) + if Matches(c, a) then [c.file.value] else []
  }

  predicate Has(candidates: seq<Candidate>, a: Address, kind: Kind)
  {
    exists c | c in candidates :: Matches(c, a) && c.kind == kind
  }

  lemma {:induction false} SiblingsGrow(candidates: seq<Candidate>, a: Address, n: nat)
    requires n <= |candidates|
    ensures |Siblings(candidates[..n], a)| <= |Siblings(candidates, a)|
    decreases |candidates|
  {
    if n < |candidates| {
      SiblingsGrow(candidates[..|candidates| - 1], a, n);
      assert candidates[..|candidates| - 1][..n] == candidates[..n];
    } else {
      assert candidates[..n] == candidates;
    }
  }

  /** A standard path of a drive that shows the file, with the same address but for the bus */
  predicate ShownBy(c: Candidate, a: Address, f: File)
  {
    c.kind in {Sr, Scd, Sg} && c.file == Some(f) && c.address.Some? && c.address.value.(bus := a.bus) == a
  }

  /** A file is a sibling if and only if some candidate shows it. */
  lemma {:induction false} SiblingsSay(candidates: seq<Candidate>, a: Address, f: File)
    ensures f in Siblings(candidates, a) <==> exists i :: 0 <= i < |candidates| && ShownBy(candidates[i], a, f)
  {
    if candidates != [] {
      var n := |candidates| - 1;
      SiblingsSay(candidates[..n], a, f);
      assert ShownBy(candidates[n], a, f) <==> Matches(candidates[n], a) && candidates[n].file.value == f;
      assert forall i | 0 <= i < n :: candidates[..n][i] == candidates[i];
    }
  }

  /** The search loop of ddlpa_collect_siblings */
  method CollectSiblings(candidates: seq<Candidate>, a: Address, allowMissing: bool) returns (r: Result)
    ensures r.TooMany? <==> |Siblings(candidates, a)| > MAX_SIBLINGS
    ensures r.Found? ==> r.siblings == Siblings(candidates, a)
    ensures |Siblings(candidates, a)| <= MAX_SIBLINGS ==>
              (r.Found? <==>
                  allowMissing || (Has(candidates, a, Sg) && Has(candidates, a, Sr) && Has(candidates, a, Scd)))
  {
    var siblings: seq<File> := [];
    var haveSg, haveSr, haveScd := false, false, false;
    for i := 0 to |candidates|
      invariant siblings == Siblings(candidates[..i], a) && |siblings| <= MAX_SIBLINGS
      invariant haveSg == Has(candidates[..i], a, Sg) && haveSr == Has(candidates[..i], a, Sr)
                  && haveScd == Has(candidates[..i], a, Scd)
    {
      var c := candidates[i];
      assert candidates[..i + 1] == candidates[..i] + [c] && candidates[..i + 1][..i] == candidates[..i];
      HasNext(candidates[..i], c, a);
      if Matches(c, a) {
        if |siblings| >= MAX_SIBLINGS {
          SiblingsGrow(candidates, a, i + 1);
          return TooMany;
        }
        if c.kind == Sg {
          haveSg := true;
        } else if c.kind == Sr {
          haveSr := true;
        } else if c.kind == Scd {
          haveScd := true;
        }
        siblings := siblings + [c.file.value];
      }
    }
    assert candidates[..|candidates|] == candidates;
    if (haveSg && haveSr && haveScd) || allowMissing {
      r := Found(siblings);
    } else {
      r := TooFew;
    }
  }

  lemma HasNext(candidates: seq<Candidate>, c: Candidate, a: Address)
    ensures forall kind :: Has(candidates + [c], a, kind)
              == (Has(candidates, a, kind) || (Matches(c, a) && c.kind == kind))
  {
    forall kind
      ensures Has(candidates + [c], a, kind) == (Has(candidates, a, kind) || (Matches(c, a) && c.kind == kind))
    {
      if Has(candidates, a, kind) {
        var d :| d in candidates && Matches(d, a) && d.kind == kind;
        assert d in candidates + [c];
      }
      if Matches(c, a) && c.kind == kind {
        assert c in candidates + [c];
      }
    }
  }
}
