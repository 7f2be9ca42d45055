/**
 * The read-only copies of util/memdup.c: a string is copied into a fresh
 * anonymous mapping rounded up to whole pages, the tail is zero, and the
 * mapping is then made read-only. The page arithmetic is modelled with the
 * 64-bit wrap-around of size_t; mmap and mprotect are outcomes passed in.
 */
module Memdup {

  /** MEMDUP_PAGE_SIZE. */
  const PageSize: int := 4096

  /** 2^64: size_t arithmetic is modulo this. */
  const SizeModulus: int := 0x1_0000_0000_0000_0000

  type Byte = bv8

  predicate IsSize(n: int) {
    0 <= n < SizeModulus
  }

  /** memdup_sizeof: the number of whole pages that hold nStr bytes, times the page size, as a size_t. */
  function MemdupSizeof(nStr: int): (r: int)
    requires IsSize(nStr)
    ensures IsSize(r)
  {
    var nPage := nStr / PageSize + (if nStr % PageSize != 0 then 1 else 0);
    (nPage * PageSize) % SizeModulus
  }

  /** The size is always a whole number of pages. */
  lemma SizeofPageMultiple(nStr: int)
    requires IsSize(nStr)
    ensures MemdupSizeof(nStr) % PageSize == 0
  {
    var nPage := nStr / PageSize + (if nStr % PageSize != 0 then 1 else 0);
    assert nPage * PageSize <= SizeModulus;
  }

  /**
   * Whenever the rounding does not overflow size_t, the size is the least
   * multiple of the page size that is at least nStr: no smaller, and less
   * than one page more.
   */
  lemma SizeofLeastCover(nStr: int)
    requires IsSize(nStr) && nStr <= SizeModulus - PageSize
    ensures nStr <= MemdupSizeof(nStr) < nStr + PageSize
    ensures forall m :: m % PageSize == 0 && m >= nStr ==> MemdupSizeof(nStr) <= m
  {
    var q := nStr / PageSize;
    var nPage := q + (if nStr % PageSize != 0 then 1 else 0);
    assert nPage * PageSize < SizeModulus;
    forall m | m % PageSize == 0 && m >= nStr ensures nPage * PageSize <= m {
      var k := m / PageSize;
      assert m == k * PageSize;
      if nStr % PageSize != 0 {
        assert k * PageSize > q * PageSize;
        assert k > q;
      } else {
        assert k * PageSize >= q * PageSize;
        assert k >= q;
      }
    }
  }

  /** The size equals nStr exactly when nStr is a whole number of pages; so 0 bytes take 0 pages. */
  lemma SizeofExact(nStr: int)
    requires IsSize(nStr)
    ensures MemdupSizeof(nStr) == nStr <==> nStr % PageSize == 0
    ensures MemdupSizeof(0) == 0
  {
    if nStr % PageSize != 0 {
      SizeofPageMultiple(nStr);
    }
  }

  /**
   * Past the last whole page of size_t the rounding wraps: the size is 0,
   * so the mapping cannot hold the bytes.
   */
  lemma SizeofWraps(nStr: int)
    requires IsSize(nStr) && nStr > SizeModulus - PageSize
    ensures MemdupSizeof(nStr) == 0
  {
    assert nStr / PageSize == SizeModulus / PageSize - 1;
  }

  /** The contents of a read-only copy: the nStr source bytes, then zeros to the end of the last page. */
  function CopyContents(src: seq<Byte>, nStr: int): (r: seq<Byte>)
    requires 0 <= nStr <= |src| && IsSize(nStr) && nStr <= SizeModulus - PageSize
    ensures |r| == MemdupSizeof(nStr) && r[..nStr] == src[..nStr]
    ensures forall i :: nStr <= i < |r| ==> r[i] == 0
  {
    SizeofLeastCover(nStr);
    src[..nStr] + seq(MemdupSizeof(nStr) - nStr, _ => 0)
  }

  /**
   * memdup_readonly: null for a null source, or when mmap or mprotect
   * fails; mmap refuses a length of 0, so empty and wrapped sizes also give
   * null. Otherwise a fresh page-rounded buffer cleared to zero and then
   * holding the nStr source bytes. The source reads nStr bytes of zStr,
   * which is the precondition.
   */
  method MemdupReadonly(zStr: seq<Byte>, isNull: bool, nStr: int, mmapOk: bool, mprotectOk: bool)
    returns (p: array?<Byte>)
    requires IsSize(nStr) && (!isNull ==> nStr <= |zStr|)
    ensures p == null <==> isNull || MemdupSizeof(nStr) == 0 || !mmapOk || !mprotectOk
    ensures p != null ==> nStr <= SizeModulus - PageSize && fresh(p) && p[..] == CopyContents(zStr, nStr)
  {
    if isNull {
      return null;
    }
    var nSize := MemdupSizeof(nStr);
    if nSize == 0 || !mmapOk {
      return null;
    }
    if nStr > SizeModulus - PageSize {
      SizeofWraps(nStr);
      assert false;
    }
    SizeofLeastCover(nStr);
    var buf := new Byte[nSize];
    var i := 0;
    while i < nSize
      invariant 0 <= i <= nSize
      invariant forall k :: 0 <= k < i ==> buf[k] == 0
    {
      buf[i] := 0;
      i := i + 1;
    }
    i := 0;
    while i < nStr
      invariant 0 <= i <= nStr
      invariant forall k :: 0 <= k < i ==> buf[k] == zStr[k]
      invariant forall k :: nStr <= k < nSize ==> buf[k] == 0
    {
      buf[i] := zStr[i];
      i := i + 1;
    }
    if !mprotectOk {
      return null;
    }
    assert buf[..] == CopyContents(zStr, nStr);
    return buf;
  }

  /**
   * memdup_free: for a buffer memdup_readonly returned for nStr bytes, make
   * it writable again, clear every byte of the page-rounded size and unmap
   * it. Nothing happens for null, and nothing is cleared when the mprotect
   * back to read-write fails.
   */
  method MemdupFree(p: array?<Byte>, nStr: int, mprotectOk: bool)
    requires IsSize(nStr) && (p != null ==> p.Length == MemdupSizeof(nStr))
    modifies p
    ensures p != null && mprotectOk ==> forall k :: 0 <= k < p.Length ==> p[k] == 0
    ensures p != null && !mprotectOk ==> p[..] == old(p[..])
  {
    if p == null {
      return;
    }
    var nSize := MemdupSizeof(nStr);
    if !mprotectOk {
      return;
    }
    var i := 0;
    while i < nSize
      invariant 0 <= i <= nSize
      invariant forall k :: 0 <= k < i ==> p[k] == 0
    {
      p[i] := 0;
      i := i + 1;
    }
  }
}
