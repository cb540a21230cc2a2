/**
 * `BufferIOWrapper`: a file-like writer over a fixed-size byte buffer,
 * used to pickle messages into a preallocated region.
 */
module BufferIO {
  import opened Wrappers

  /** `IOError` with its message. */
  datatype IOError = IOError(message: string)

  const BufferFull: string := "buffer full."

  class BufferIOWrapper {
    const buffer: array<byte>
    const totalBytes: nat
    var fptr: nat
    /** Everything written so far, in order. */
    ghost var written: seq<byte>

    ghost predicate Valid()
      reads this, buffer
    {
      && totalBytes == buffer.Length
      && fptr == |written| <= totalBytes
      && buffer[..fptr] == written
    }

    /** Wrap `barray`; writing starts at its first byte. */
    constructor (barray: array<byte>)
      ensures Valid()
      ensures buffer == barray && totalBytes == barray.Length && fptr == 0 && written == []
    {
      buffer := barray;
      totalBytes := barray.Length;
      fptr := 0;
      written := [];
    }

    /**
     * `write(data)`: copy the bytes at the write position and advance it;
     * data that does not fit raises `IOError("buffer full.")` and nothing
     * is written.
     */
    method Write(data: seq<byte>) returns (r: Result<(), IOError>)
      requires Valid()
      modifies buffer, this`fptr, this`written
      ensures Valid()
      ensures r.Failure? <==> old(fptr) + |data| > totalBytes
      ensures r.Failure? ==>
                r.error == IOError(BufferFull) && fptr == old(fptr) && written == old(written) &&
                buffer[..] == old(buffer[..])
      ensures r.Success? ==>
                && written == old(written) + data
                && fptr == old(fptr) + |data|
                && buffer[fptr..] == old(buffer[..])[fptr..]
    {
      var end := fptr + |data|;
      if end > totalBytes {
        return Failure(IOError(BufferFull));
      }
      forall i | fptr <= i < end {
        buffer[i] := data[i - fptr];
      }
      written := written + data;
      fptr := end;
      return Success(());
    }
  }

  /**
   * Writes that fit land back to back: the buffer's prefix holds the
   * concatenation of the pieces, and a piece that does not fit leaves the
   * earlier ones intact.
   */
  method WriteBoth(barray: array<byte>, first: seq<byte>, second: seq<byte>)
    returns (r1: Result<(), IOError>, r2: Result<(), IOError>)
    modifies barray
    ensures r1.Success? <==> |first| <= barray.Length
    ensures r1.Success? ==> (r2.Success? <==> |first| + |second| <= barray.Length)
    ensures r1.Success? && r2.Success? ==> barray[..|first| + |second|] == first + second
    ensures r1.Success? && r2.Failure? ==> barray[..|first|] == first
  {
    var w := new BufferIOWrapper(barray);
    r1 := w.Write(first);
    if r1.Failure? {
      r2 := r1;
      return;
    }
    r2 := w.Write(second);
  }
}
