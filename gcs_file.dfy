/**
 * The driver's file handle: the `MultiPartFile` struct, its creation by
 * `driver_fopen`, and the cursor that `driver_fseek` and `driver_fread` move.
 * Calls into the storage client are parameters: `getFileSize` answers an object's
 * size (or -1), `download` answers a range read with a byte count (or -1).
 */
module GcsFile {
  import opened Wrappers
  import opened GcsUri

  const TwoTo63: int := 0x8000_0000_0000_0000
  const TwoTo64: int := 0x1_0000_0000_0000_0000

  /** `long long` / `tOffset` / `std::int64_t`. */
  type Int64 = x: int | -TwoTo63 <= x < TwoTo63

  /** `size_t`. */
  type UInt64 = x: int | 0 <= x < TwoTo64

  predicate IsInt64(x: int) {
    -TwoTo63 <= x < TwoTo63
  }

  /** Conversion of an unsigned 64-bit value to `std::int64_t` (two's complement). */
  function ToInt64(u: UInt64): (r: Int64)
    ensures r % TwoTo64 == u
  {
    if u < TwoTo63 then u else u - TwoTo64
  }

  /** The `whence` values of `std::ios::seekdir`. */
  const Beg: int := 0
  const Cur: int := 1
  const End: int := 2

  /** A range read as the driver asks the client for it. */
  datatype RangeRequest = RangeRequest(bucket: string, objectName: string, bufferLength: UInt64,
                                       startRange: Int64, endRange: Int64)

  /**
   * The request `driver_fread` issues: `size * count` is computed in `size_t`, the
   * end of the range as `offset + toRead` in unsigned arithmetic, converted back to
   * a signed 64-bit value.
   */
  function ReadRequest(bucket: string, objectName: string, offset: Int64, size: UInt64, count: UInt64): (r: RangeRequest)
    ensures r.bucket == bucket && r.objectName == objectName && r.startRange == offset
    ensures r.bufferLength == (size * count) % TwoTo64
    ensures IsInt64(offset + r.bufferLength) ==> r.endRange == offset + r.bufferLength
  {
    var toRead := (size * count) % TwoTo64;
    var endRange := ToInt64((offset + toRead) % TwoTo64);
    assert IsInt64(offset + toRead) ==> endRange == offset + toRead by {
      if IsInt64(offset + toRead) {
        ToInt64OfModulo(offset + toRead);
      }
    }
    RangeRequest(bucket, objectName, toRead, offset, endRange)
  }

  /** Without wrap-around, the request covers `[offset, offset + size*count]` and asks for `size*count` bytes. */
  lemma ReadRequestInRange(bucket: string, objectName: string, offset: Int64, size: UInt64, count: UInt64)
    requires size * count < TwoTo64 && IsInt64(offset + size * count)
    ensures ReadRequest(bucket, objectName, offset, size, count)
         == RangeRequest(bucket, objectName, size * count, offset, offset + size * count)
  {
    SmallModulo(size * count);
  }

  /** Reducing a signed value modulo 2^64 and converting it back gives the value. */
  lemma ToInt64OfModulo(x: Int64)
    ensures ToInt64(x % TwoTo64) == x
  {
    if x >= 0 {
      SmallModulo(x);
    } else {
      SmallModulo(x + TwoTo64);
      assert x % TwoTo64 == (x + TwoTo64) % TwoTo64;
    }
  }

  lemma SmallModulo(x: int)
    requires 0 <= x < TwoTo64
    ensures x % TwoTo64 == x
  {
  }

  /** What a download of `req` may answer: -1, or at most the requested number of bytes. */
  predicate IsDownloadResult(req: RangeRequest, n: int) {
    n == -1 || 0 <= n <= req.bufferLength
  }

  /**
   * The offset `driver_fseek` moves to, or None when it returns -1: from the
   * beginning any offset is taken as it is; from the current position or the end a
   * negative result is refused; any other `whence` is refused.
   */
  function SeekTarget(cursor: int, total: int, off: int, whence: int): (r: Option<int>)
    ensures whence == Beg ==> r == Some(off)
    ensures whence == Cur ==> (r.Some? <==> cursor + off >= 0) && (r.Some? ==> r.value == cursor + off)
    ensures whence == End ==> (r.Some? <==> total + off >= 0) && (r.Some? ==> r.value == total + off)
    ensures whence != Beg && whence != Cur && whence != End ==> r.None?
    ensures r.Some? && whence != Beg ==> r.value >= 0
  {
    if whence == Beg then Some(off)
    else if whence == Cur then (if cursor + off < 0 then None else Some(cursor + off))
    else if whence == End then (if total + off < 0 then None else Some(total + off))
    else None
  }

  /** Only a seek from the beginning can leave the cursor negative. */
  lemma SeekFromBeginAcceptsNegative(cursor: int, total: int, off: int)
    requires off < 0
    ensures SeekTarget(cursor, total, off, Beg) == Some(off)
    ensures SeekTarget(off, total, 0, Cur) == None
  {
  }

  /** Seeking `off` from the end is seeking `total + off` from the beginning, when that is not negative. */
  lemma SeekFromEndIsAbsolute(cursor: int, total: int, off: int)
    requires total + off >= 0
    ensures SeekTarget(cursor, total, off, End) == SeekTarget(cursor, total, total + off, Beg)
  {
  }

  /** Two accepted relative seeks add up to one. */
  lemma SeekFromCurrentComposes(cursor: int, total: int, a: int, b: int)
    requires SeekTarget(cursor, total, a, Cur).Some?
    requires SeekTarget(SeekTarget(cursor, total, a, Cur).value, total, b, Cur).Some?
    ensures SeekTarget(cursor, total, a + b, Cur)
         == SeekTarget(SeekTarget(cursor, total, a, Cur).value, total, b, Cur)
  {
  }

  /** The handle behind the `void*` that the driver hands out. */
  class MultiPartFile {
    var bucketname: string
    var filename: string
    var offset: Int64
    var filenames: seq<string>
    var cumulativeSize: seq<Int64>

    /** `new MultiPartFile` with its names and a zero offset; the vectors start empty. */
    constructor (bucketname: string, filename: string)
      ensures this.bucketname == bucketname && this.filename == filename
      ensures offset == 0 && filenames == [] && cumulativeSize == []
    {
      this.bucketname := bucketname;
      this.filename := filename;
      offset := 0;
      filenames := [];
      cumulativeSize := [];
    }

    /** totalSize: the last cumulative size; its index underflows on a handle without parts. */
    function TotalSize(): (r: Int64)
      reads this
      requires |cumulativeSize| > 0
      ensures r in cumulativeSize
    {
      cumulativeSize[|cumulativeSize| - 1]
    }

    /**
     * driver_fseek. Signed overflow of the computed offset, and an end-anchored seek
     * on a handle without parts, have no defined outcome in the source.
     */
    method Seek(off: Int64, whence: int) returns (status: int)
      requires whence == Cur ==> IsInt64(offset + off)
      requires whence == End ==> |cumulativeSize| > 0 && IsInt64(TotalSize() + off)
      modifies this`offset
      ensures var target := SeekTarget(old(offset), if whence == End then TotalSize() else 0, off, whence);
        && (status == 0 <==> target.Some?)
        && (status == -1 <==> target.None?)
        && offset == if target.Some? then target.value else old(offset)
    {
      if whence == Beg {
        offset := off;
        return 0;
      } else if whence == Cur {
        var computedOffset := offset + off;
        if computedOffset < 0 {
          return -1;
        }
        offset := computedOffset;
        return 0;
      } else if whence == End {
        var computedOffset := TotalSize() + off;
        if computedOffset < 0 {
          return -1;
        }
        offset := computedOffset;
        return 0;
      } else {
        return -1;
      }
    }

    /**
     * driver_fread: asks for `size * count` bytes at the cursor from the handle's
     * single object and advances the cursor by what the download returned, unless
     * it returned -1.
     */
    method Read(size: UInt64, count: UInt64, download: RangeRequest -> int) returns (numRead: int)
      requires var req := ReadRequest(bucketname, filename, offset, size, count);
        IsDownloadResult(req, download(req)) && (download(req) != -1 ==> IsInt64(offset + download(req)))
      modifies this`offset
      ensures numRead == download(ReadRequest(bucketname, filename, old(offset), size, count))
      ensures offset == if numRead == -1 then old(offset) else old(offset) + numRead
    {
      var toRead := (size * count) % TwoTo64;
      var req := RangeRequest(bucketname, filename, toRead, offset, ToInt64((offset + toRead) % TwoTo64));
      numRead := download(req);
      if numRead != -1 {
        offset := offset + numRead;
      }
    }
  }

  /**
   * driver_fopen: 'r' records the object as the only part with the size the client
   * reports, 'w' records nothing, every other mode gives null.
   */
  method Open(filename: string, mode: char, globalBucketName: string, getFileSize: (string, string) -> Int64)
    returns (h: MultiPartFile?)
    ensures var p := Resolve(filename, "", "", globalBucketName);
      mode == 'r' ==>
        && h != null && fresh(h)
        && h.bucketname == p.bucket && h.filename == p.objectName && h.offset == 0
        && h.filenames == [p.objectName]
        && h.cumulativeSize == [getFileSize(p.bucket, p.objectName)]
        && h.TotalSize() == getFileSize(p.bucket, p.objectName)
    ensures var p := Resolve(filename, "", "", globalBucketName);
      mode == 'w' ==>
        && h != null && fresh(h)
        && h.bucketname == p.bucket && h.filename == p.objectName && h.offset == 0
        && h.filenames == [] && h.cumulativeSize == []
    ensures mode != 'r' && mode != 'w' ==> h == null
  {
    var bucketName, objectName := GetBucketAndObjectNames(filename, "", "", globalBucketName);
    var f := new MultiPartFile(bucketName, objectName);
    if mode == 'r' {
      f.filenames := f.filenames + [objectName];
      var fileSize := getFileSize(bucketName, objectName);
      f.cumulativeSize := f.cumulativeSize + [fileSize];
      return f;
    } else if mode == 'w' {
      return f;
    } else {
      return null;
    }
  }
}
