/** The file-descriptor table: a fixed pool scanned up to a high-water mark, with exclusive device locks. */
module FdTable {
  import opened Basics

  /** A descriptor: its device (0 if it is free), the EXCL and DEV flags, and the open flags. */
  datatype Fd = Fd(dev: nat, excl: bool, isDev: bool, mode: nat)

  const FREE: Fd := Fd(0, false, false, 0)

  /** Descriptor j shares the device of descriptor i. */
  predicate Shares(fds: seq<Fd>, i: nat, j: nat)
    requires i < |fds| && j < |fds|
  {
    j != i && fds[j].dev == fds[i].dev
  }

  /** Every locked descriptor is alone on its device. */
  ghost predicate ExclAlone(fds: seq<Fd>) {
    forall i, j :: 0 <= i < |fds| && 0 <= j < |fds| && fds[i].excl ==> !Shares(fds, i, j)
  }

  /** Some descriptor has device d locked. */
  ghost predicate LockedSomewhere(fds: seq<Fd>, d: nat) {
    exists i :: 0 <= i < |fds| && fds[i].dev == d && fds[i].excl
  }

  ghost predicate HasFree(fds: seq<Fd>) {
    exists i :: 0 <= i < |fds| && fds[i].dev == 0
  }

  class Table {
    const fds: array<Fd>
    const isFilesystem: nat -> bool
    var maxFd: int

    /** The standard descriptors are always open; free ones are blank; nothing is open above both them and the
        high-water mark; only devices, never filesystems, carry the DEV flag, and only those the EXCL flag. */
    ghost predicate Valid()
      reads this, fds
    {
      && 3 <= fds.Length && -1 <= maxFd < fds.Length
      && (forall i :: 0 <= i < 3 ==> fds[i].dev != 0)
      && (forall i :: 0 <= i < fds.Length && fds[i].dev == 0 ==> fds[i] == FREE)
      && (forall i :: 3 <= i < fds.Length && maxFd < i ==> fds[i].dev == 0)
      && (forall i :: 0 <= i < fds.Length && fds[i].isDev ==> !isFilesystem(fds[i].dev))
      && (forall i :: 0 <= i < fds.Length && fds[i].excl ==> fds[i].isDev)
    }

    /** The pool at start-up: the three standard descriptors on the null device. */
    constructor (n: nat, nullDevice: nat, isFilesystem: nat -> bool)
      requires 3 <= n && nullDevice != 0
      ensures Valid() && ExclAlone(fds[..]) && fds.Length == n && fresh(fds) && maxFd == -1
      ensures forall i :: 0 <= i < n ==> fds[i] == if i < 3 then Fd(nullDevice, false, false, 0) else FREE
      ensures this.isFilesystem == isFilesystem
    {
      fds := new Fd[n](i => if i < 3 then Fd(nullDevice, false, false, 0) else FREE);
      this.isFilesystem := isFilesystem;
      maxFd := -1;
    }

    /** `alt_get_fd`: claims the first free descriptor. */
    method GetFd(dev: nat) returns (rc: int)
      requires Valid() && dev != 0
      modifies this`maxFd, fds
      ensures Valid() && old(maxFd) <= maxFd
      ensures rc >= 0 ==> maxFd == if rc > old(maxFd) then rc else old(maxFd)
      ensures rc < 0 ==> rc == -EMFILE && !HasFree(old(fds[..])) && fds[..] == old(fds[..])
      ensures rc >= 0 ==> && 3 <= rc < fds.Length && rc <= maxFd && old(fds[rc]) == FREE
                          && fds[..] == old(fds[..])[rc := Fd(dev, false, false, 0)]
                          && (forall i :: 0 <= i < rc ==> fds[i].dev != 0)
    {
      for i := 0 to fds.Length
        invariant Valid() && fds[..] == old(fds[..]) && maxFd == old(maxFd)
        invariant forall j :: 0 <= j < i ==> fds[j].dev != 0
      {
        if fds[i].dev == 0 {
          fds[i] := fds[i].(dev := dev);
          if i > maxFd {
            maxFd := i;
          }
          return i;
        }
      }
      return -EMFILE;
    }

    /** `alt_release_fd`: frees a descriptor, unless it is a standard one or no descriptor at all. */
    method ReleaseFd(fd: int)
      requires Valid() && fd < fds.Length
      modifies fds
      ensures Valid() && fds[..] == if fd > 2 then old(fds[..])[fd := FREE] else old(fds[..])
    {
      if fd > 2 {
        fds[fd] := FREE;
      }
    }

    /** `alt_file_locked`: marks the descriptor as a device's and looks for a lock on the device up to the
        high-water mark, which is as good as looking everywhere. */
    method FileLocked(fd: nat) returns (rc: int)
      requires Valid() && 3 <= fd < fds.Length && fd <= maxFd && fds[fd].dev != 0
      requires !isFilesystem(fds[fd].dev) && !fds[fd].excl
      modifies fds
      ensures Valid() && fds[..] == old(fds[..])[fd := old(fds[fd]).(isDev := true)]
      ensures rc == if LockedSomewhere(old(fds[..]), old(fds[fd]).dev) then -EACCES else 0
    {
      fds[fd] := fds[fd].(isDev := true);
      for i := 0 to maxFd + 1
        invariant forall j :: 0 <= j < i && fds[j].dev == fds[fd].dev && fds[j].excl ==> j == fd
      {
        if fds[i].dev == fds[fd].dev && fds[i].excl && i != fd {
          assert old(fds[..])[i].dev == old(fds[fd]).dev && old(fds[..])[i].excl;
          return -EACCES;
        }
      }
      assert forall j :: 0 <= j < |old(fds[..])| && old(fds[..])[j].dev == fds[fd].dev ==> !old(fds[..])[j].excl by {
        assert forall j :: 0 <= j < fds.Length && j != fd ==> old(fds[..])[j] == fds[j];
      }
      return 0;
    }

    lemma FilesystemsAreUnlocked(dev: nat)
      requires Valid()
      ensures isFilesystem(dev) ==> !LockedSomewhere(fds[..], dev)
    {
    }

    /** Claims a descriptor for an open, with its flags cleared, and looks for a lock if it is a device's. A
        negative result says why there can be no open; `index` is negative if no descriptor was claimed. */
    method Claim(dev: nat, mode: nat) returns (index: int, status: int)
      requires Valid() && dev != 0
      modifies this`maxFd, fds
      ensures Valid() && old(maxFd) <= maxFd
      ensures index >= 0 ==> maxFd == if index > old(maxFd) then index else old(maxFd)
      ensures status == if !HasFree(old(fds[..])) then -EMFILE
                        else if !isFilesystem(dev) && LockedSomewhere(old(fds[..]), dev) then -EACCES else 0
      ensures index < 0 ==> status == -EMFILE && fds[..] == old(fds[..])
      ensures index >= 0 ==> && 3 <= index < fds.Length && old(fds[index]) == FREE
                             && fds[..] == old(fds[..])[index := Fd(dev, false, !isFilesystem(dev), mode)]
                             && (forall i :: 0 <= i < index ==> old(fds[..])[i].dev != 0)
    {
      ghost var before := fds[..];
      hide LockedSomewhere, HasFree;
      index := GetFd(dev);
      if index < 0 {
        return index, index;
      }
      FreeAt(before, index);
      ghost var claimed := fds[..];
      assert forall i :: 0 <= i < index ==> before[i] == claimed[i];
      fds[index] := fds[index].(excl := false, isDev := false, mode := mode);
      LockedIgnoresUnlocked(before, index, fds[index], dev);
      assert fds[..] == before[index := fds[index]];
      status := 0;
      if !isFilesystem(dev) {
        status := FileLocked(index);
      }
    }

    /** `open`, on the device or filesystem its name was found to mean (0 for none). `callback` is what that
        one's own open returns. */
    method Open(dev: nat, mode: nat, callback: int) returns (rc: int, errno: int)
      requires Valid()
      modifies this`maxFd, fds
      ensures Valid() && (old(ExclAlone(fds[..])) ==> ExclAlone(fds[..]))
      ensures rc >= 0 || rc == -1
      ensures rc < 0 <==> || dev == 0
                          || !HasFree(old(fds[..]))
                          || (!isFilesystem(dev) && LockedSomewhere(old(fds[..]), dev))
                          || callback < 0
      ensures rc < 0 ==> fds[..] == old(fds[..])
      ensures rc < 0 ==> errno == if dev == 0 then ENODEV
                                  else if !HasFree(old(fds[..])) then EMFILE
                                  else if !isFilesystem(dev) && LockedSomewhere(old(fds[..]), dev) then EACCES
                                  else -callback
      ensures old(maxFd) <= maxFd && (rc >= 0 ==> maxFd == if rc > old(maxFd) then rc else old(maxFd))
      ensures rc >= 0 ==> && rc < fds.Length && old(fds[rc]) == FREE
                          && fds[..] == old(fds[..])[rc := Fd(dev, false, !isFilesystem(dev), mode)]
                          && (forall i :: 0 <= i < rc ==> old(fds[..])[i].dev != 0)
    {
      ghost var before := fds[..];
      FilesystemsAreUnlocked(dev);
      hide LockedSomewhere, ExclAlone, HasFree;
      var index, status := -1, -ENODEV;
      errno := 0;
      if dev != 0 {
        index, status := Claim(dev, mode);
        if status >= 0 {
          status := callback;
        }
      }
      if status < 0 {
        ReleaseFd(index);
        assert fds[..] == before;
        return -1, -status;
      }
      ReplaceKeepsAlone(before, index, fds[index]);
      return index, 0;
    }

    /** `close`, of a descriptor that is open; a negative one is an error. `callback` is what the device's own
        close returns. */
    method Close(fd: int, callback: int) returns (rc: int, errno: int)
      requires Valid() && fd < fds.Length && (0 <= fd ==> fds[fd].dev != 0)
      modifies fds
      ensures Valid() && (old(ExclAlone(fds[..])) ==> ExclAlone(fds[..]))
      ensures fds[..] == if fd > 2 then old(fds[..])[fd := FREE] else old(fds[..])
      ensures rc == (if fd < 0 || callback < 0 then -1 else 0)
      ensures rc < 0 ==> errno == if fd < 0 then EBADFD else -callback
    {
      if fd < 0 {
        return -1, EBADFD;
      }
      ReplaceKeepsAlone(fds[..], fd, FREE);
      ReleaseFd(fd);
      if callback < 0 {
        return -1, -callback;
      }
      return 0, 0;
    }

    /** `alt_fd_lock`. Its scan stops one short of the high-water mark. */
    method Lock(fd: nat) returns (rc: int)
      requires Valid() && fd < fds.Length && fds[fd].isDev
      modifies fds
      ensures Valid()
      ensures rc == if exists i :: 0 <= i < maxFd && Shares(old(fds[..]), fd, i) then -EACCES else 0
      ensures fds[..] == if rc == 0 then old(fds[..])[fd := old(fds[fd]).(excl := true)] else old(fds[..])
      ensures rc == 0 && old(ExclAlone(fds[..])) ==>
                (ExclAlone(fds[..]) <==> !MissedByLock(old(fds[..]), fd, maxFd))
    {
      ghost var before := fds[..];
      for i := 0 to if maxFd > 0 then maxFd else 0
        invariant fds[..] == before
        invariant forall j :: 0 <= j < i ==> !Shares(before, fd, j)
      {
        if i != fd && fds[i].dev == fds[fd].dev {
          assert Shares(before, fd, i);
          return -EACCES;
        }
      }
      LockKeepsAlone(before, fd);
      fds[fd] := fds[fd].(excl := true);
      assert fds[..] == before[fd := before[fd].(excl := true)];
      return 0;
    }

    /** `alt_fd_unlock` */
    method Unlock(fd: nat) returns (rc: int)
      requires Valid() && fd < fds.Length
      modifies fds
      ensures Valid() && (old(ExclAlone(fds[..])) ==> ExclAlone(fds[..]))
      ensures rc == 0 && fds[..] == old(fds[..])[fd := old(fds[fd]).(excl := false)]
    {
      UnlockKeepsAlone(fds[..], fd);
      fds[fd] := fds[fd].(excl := false);
      return 0;
    }

    /** `ioctl` for the lock requests: only a device's descriptor is locked or unlocked here, any other is left
        to its driver, which answers `driver`. */
    method Ioctl(fd: int, exclusive: bool, driver: int) returns (rc: int)
      requires Valid() && fd < fds.Length
      modifies fds
      ensures Valid()
      ensures fd < 0 ==> rc == -EBADFD && fds[..] == old(fds[..])
      ensures fd >= 0 && !old(fds[fd]).isDev ==> rc == driver && fds[..] == old(fds[..])
      ensures fd >= 0 && old(fds[fd]).isDev && !exclusive ==>
                rc == 0 && fds[..] == old(fds[..])[fd := old(fds[fd]).(excl := false)]
      ensures fd >= 0 && old(fds[fd]).isDev && exclusive ==>
                && rc == (if exists i :: 0 <= i < maxFd && Shares(old(fds[..]), fd, i) then -EACCES else 0)
                && fds[..] == if rc == 0 then old(fds[..])[fd := old(fds[fd]).(excl := true)] else old(fds[..])
      ensures old(ExclAlone(fds[..])) ==>
                (ExclAlone(fds[..]) <==> !(&& fd >= 0 && old(fds[fd]).isDev && exclusive && rc == 0
                                           && MissedByLock(old(fds[..]), fd, maxFd)))
    {
      if fd < 0 {
        return -EBADFD;
      }
      if !fds[fd].isDev {
        return driver;
      }
      if exclusive {
        rc := Lock(fd);
      } else {
        rc := Unlock(fd);
      }
    }
  }

  /** A descriptor on the same device that a lock's scan does not reach. */
  ghost predicate MissedByLock(fds: seq<Fd>, fd: nat, maxFd: int)
    requires fd < |fds|
  {
    exists j :: maxFd <= j < |fds| && 0 <= j && Shares(fds, fd, j)
  }

  /** Locking breaks exclusiveness exactly when some descriptor shares the device. */
  lemma LockKeepsAlone(fds: seq<Fd>, fd: nat)
    requires fd < |fds|
    ensures ExclAlone(fds) ==>
              (ExclAlone(fds[fd := fds[fd].(excl := true)]) <==> forall j :: 0 <= j < |fds| ==> !Shares(fds, fd, j))
  {
    var t := fds[fd := fds[fd].(excl := true)];
    assert forall i, j :: 0 <= i < |fds| && 0 <= j < |fds| ==> Shares(t, i, j) == Shares(fds, i, j);
    assert t[fd].excl;
  }

  lemma UnlockKeepsAlone(fds: seq<Fd>, fd: nat)
    requires fd < |fds|
    ensures ExclAlone(fds) ==> ExclAlone(fds[fd := fds[fd].(excl := false)])
  {
    var t := fds[fd := fds[fd].(excl := false)];
    assert forall i, j :: 0 <= i < |fds| && 0 <= j < |fds| ==> Shares(t, i, j) == Shares(fds, i, j);
  }

  lemma FreeAt(fds: seq<Fd>, i: nat)
    requires i < |fds| && fds[i].dev == 0
    ensures HasFree(fds)
  {
  }

  lemma LockedIgnoresUnlocked(fds: seq<Fd>, k: nat, fd: Fd, d: nat)
    requires k < |fds| && !fd.excl && !fds[k].excl
    ensures LockedSomewhere(fds[k := fd], d) <==> LockedSomewhere(fds, d)
  {
    assert forall i :: 0 <= i < |fds| && i != k ==> fds[k := fd][i] == fds[i];
  }

  /** Replacing an entry by an unlocked descriptor of an unlocked device, or of none, leaves every lock alone. */
  lemma ReplaceKeepsAlone(fds: seq<Fd>, k: nat, fd: Fd)
    requires k < |fds| && !fd.excl && !LockedSomewhere(fds, fd.dev)
    ensures ExclAlone(fds) ==> ExclAlone(fds[k := fd])
  {
    if ExclAlone(fds) {
      var t := fds[k := fd];
      forall i, j | 0 <= i < |t| && 0 <= j < |t| && t[i].excl
        ensures !Shares(t, i, j)
      {
        assert t[i] == fds[i] && !Shares(fds, i, j);
      }
    }
  }

  datatype Op =
    | DoOpen(dev: nat, mode: nat, openResult: int)
    | DoClose(fd: int, closeResult: int)
    | DoIoctl(fd: int, exclusive: bool, driverResult: int)

  /** The pool between two calls. */
  datatype Pool = Pool(fds: seq<Fd>, maxFd: int)

  /** The request is for a lock that the scan grants, overlooking a descriptor of the same device. */
  ghost predicate Overlooks(pool: Pool, op: Op) {
    && op.DoIoctl? && op.exclusive && 0 <= op.fd < |pool.fds|
    && pool.fds[op.fd].dev != 0 && pool.fds[op.fd].isDev
    && !(exists i :: 0 <= i < pool.maxFd && i < |pool.fds| && Shares(pool.fds, op.fd, i))
    && MissedByLock(pool.fds, op.fd, pool.maxFd)
  }

  /** One call, if its descriptor is open. */
  method Call(table: Table, op: Op)
    requires table.Valid()
    modifies table`maxFd, table.fds
    ensures table.Valid() && old(table.maxFd) <= table.maxFd
    ensures old(ExclAlone(table.fds[..])) ==>
              (ExclAlone(table.fds[..]) <==> !Overlooks(old(Pool(table.fds[..], table.maxFd)), op))
  {
    hide ExclAlone, MissedByLock;
    match op {
      case DoOpen(dev, mode, openResult) =>
        var rc, errno := table.Open(dev, mode, openResult);
      case DoClose(fd, closeResult) =>
        if fd < table.fds.Length && (fd < 0 || table.fds[fd].dev != 0) {
          var rc, errno := table.Close(fd, closeResult);
        }
      case DoIoctl(fd, exclusive, driverResult) =>
        if fd < table.fds.Length && (fd < 0 || table.fds[fd].dev != 0) {
          var rc := table.Ioctl(fd, exclusive, driverResult);
        }
    }
  }

  /** Any run of calls, with the pools it goes through: a lock stays exclusive up to the first call that
      overlooks a descriptor, and that call breaks it. */
  method Run(table: Table, ops: seq<Op>) returns (ghost pools: seq<Pool>)
    requires table.Valid() && ExclAlone(table.fds[..])
    modifies table`maxFd, table.fds
    ensures table.Valid()
    ensures |pools| == |ops| + 1
    ensures pools[0] == old(Pool(table.fds[..], table.maxFd)) && pools[|ops|] == Pool(table.fds[..], table.maxFd)
    ensures forall n :: 0 <= n <= |ops| && (forall k :: 0 <= k < n ==> !Overlooks(pools[k], ops[k])) ==>
              ExclAlone(pools[n].fds) && (n < |ops| && Overlooks(pools[n], ops[n]) ==> !ExclAlone(pools[n + 1].fds))
  {
    hide ExclAlone, Overlooks;
    pools := [Pool(table.fds[..], table.maxFd)];
    for k := 0 to |ops|
      invariant table.Valid()
      invariant |pools| == k + 1 && pools[0] == old(Pool(table.fds[..], table.maxFd))
      invariant pools[k] == Pool(table.fds[..], table.maxFd)
      invariant forall j :: 0 <= j < k && ExclAlone(pools[j].fds) ==>
                  (ExclAlone(pools[j + 1].fds) <==> !Overlooks(pools[j], ops[j]))
    {
      Call(table, ops[k]);
      pools := pools + [Pool(table.fds[..], table.maxFd)];
    }
    assert ExclAlone(pools[0].fds);
    StaysAlone(pools, ops);
  }

  lemma StaysAlone(pools: seq<Pool>, ops: seq<Op>)
    requires |pools| == |ops| + 1 && ExclAlone(pools[0].fds)
    requires forall j :: 0 <= j < |ops| && ExclAlone(pools[j].fds) ==>
               (ExclAlone(pools[j + 1].fds) <==> !Overlooks(pools[j], ops[j]))
    ensures forall n :: 0 <= n <= |ops| && (forall k :: 0 <= k < n ==> !Overlooks(pools[k], ops[k])) ==>
              ExclAlone(pools[n].fds)
  {
    hide ExclAlone, Overlooks;
    for m := 0 to |ops|
      invariant (forall k :: 0 <= k < m ==> !Overlooks(pools[k], ops[k])) ==> ExclAlone(pools[m].fds)
      invariant forall n :: 0 <= n <= m && (forall k :: 0 <= k < n ==> !Overlooks(pools[k], ops[k])) ==>
                  ExclAlone(pools[n].fds)
    {
    }
  }

  /** Such a run exists: of two descriptors opened on one device, the lower one is granted the lock. */
  method LockOverlooksTopDescriptor() returns (table: Table, first: int, second: int, locked: int)
    ensures first == 3 && second == 4 && locked == 0
    ensures table.Valid() && !ExclAlone(table.fds[..])
  {
    table := new Table(5, 1, _ => false);
    var errno;
    assert table.fds[..][3].dev == 0;
    first, errno := table.Open(2, 0, 0);
    ghost var one := table.fds[..];
    assert one[4].dev == 0;
    second, errno := table.Open(2, 0, 0);
    ghost var two := table.fds[..];
    assert table.maxFd == 4;
    locked := table.Ioctl(first, true, 0);
    assert Shares(table.fds[..], 3, 4) && table.fds[..][3].excl;
  }
}
