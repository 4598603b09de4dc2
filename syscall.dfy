/** The cachestat() system call (mm/cachestat.c, lines 37-109): argument
    checks in a fixed order, the page-range computation, the scan, and the
    copy of the counters to user memory.

    The kernel services the call relies on are inputs here: `file` is what
    `fdget(fd)` resolves to (`None` for a bad descriptor), `accessOk` is the
    verdict of `access_ok(cstat, ...)`, and `copyOk` says whether
    `copy_to_user` copies every byte. */
module Syscall {
  import opened Range
  import opened Scan

  const EBADF: int := 9
  const EFAULT: int := 14
  const EINVAL: int := 22

  datatype Option<T> = None | Some(value: T)

  /** The part of a file's `struct address_space` the call reads: its page
      index and whether `shmem_mapping` holds of it. */
  datatype AddressSpace = AddressSpace(pages: PageIndex, shmem: bool)

  /** Returns the system call's result and what it stores at `cstat`
      (`None`: user memory is left untouched). The checks run in order:
      a negative offset is `-EINVAL`, an inaccessible `cstat` is `-EFAULT`,
      a descriptor that does not resolve is `-EBADF`; after the scan a failed
      copy is `-EFAULT`. Only a successful call stores anything, and what it
      stores is the scan of the file's index over `PageBounds(off, len)`. */
  method Cachestat(file: Option<AddressSpace>, off: i64, len: u64, accessOk: bool, copyOk: bool, env: Oracles)
    returns (ret: int, stored: Option<CacheStat>)
    ensures ret in {0, -EINVAL, -EFAULT, -EBADF}
    ensures ret == 0 <==> stored.Some?
    ensures off < 0 ==> ret == -EINVAL
    ensures off >= 0 && !accessOk ==> ret == -EFAULT
    ensures off >= 0 && accessOk && file.None? ==> ret == -EBADF
    ensures off >= 0 && accessOk && file.Some? ==>
      if copyOk
      then ret == 0 && stored == Some(Tally(file.value.pages, PageBounds(off, len), file.value.shmem, env))
      else ret == -EFAULT
  {
    if off < 0 {
      return -EINVAL, None;
    }
    if !accessOk {
      return -EFAULT, None;
    }
    if file.Some? {
      var mapping := file.value;
      var range := PageBounds(off, len);
      var cs := ScanRange(mapping.pages, range, mapping.shmem, env);
      if !copyOk {
        return -EFAULT, None;
      }
      return 0, Some(cs);
    }
    return -EBADF, None;
  }
}
