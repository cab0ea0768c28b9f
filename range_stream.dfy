/** The body phase of `writeRangeFileStream`: the file is copied to the response through one
    `ByteBuffer` of the configured size, by one of two loops, and the whole method is the header
    phase of RangeHeader followed by the loop the parsed plan selects. */
module RangeStream {
  import opened Wrappers
  import opened JavaLang
  import opened Nio
  import opened RangeHeader

  /** The bytes of the file from `start` on; none when `start` is at or past the end. */
  function Remaining(file: seq<bv8>, start: nat): (r: seq<bv8>)
    ensures |r| == if start < |file| then |file| - start else 0
    ensures forall k :: 0 <= k < |r| ==> r[k] == file[start + k]
  {
    if start < |file| then file[start..] else []
  }

  /** The smallest multiple of `b` that is at least `c` (0 for `c <= 0`): how many bytes the
      closed loop has read, in whole buffers, once it has read `c`. */
  function RoundUp(c: int, b: nat): (r: nat)
    requires b > 0
    ensures c <= 0 ==> r == 0
    ensures c > 0 ==> c <= r < c + b && b <= r
    decreases c
  {
    if c <= 0 then 0 else b + RoundUp(c - b, b)
  }

  /** RoundUp agrees with the arithmetic ceiling `ceil(c / b) * b` for a positive `c`. */
  lemma {:induction false} RoundUpIsCeiling(c: int, b: nat)
    requires b > 0 && c > 0
    ensures RoundUp(c, b) == ((c + b - 1) / b) * b
    decreases c
  {
    if c <= b {
      DivUnique(c + b - 1, b, 1, c - 1);
    } else {
      RoundUpIsCeiling(c - b, b);
      var q := (c - 1) / b;
      DivShift(c + b - 1, b);
      assert (q + 1) * b == q * b + b;
    }
  }

  /** Adding the divisor to a non-negative dividend adds one to the quotient. */
  lemma DivShift(x: int, b: nat)
    requires b > 0 && x >= b
    ensures x / b == (x - b) / b + 1
  {
    var q, r := (x - b) / b, (x - b) % b;
    assert x == b * (q + 1) + r by {
      assert b * (q + 1) == b * q + b;
    }
    DivUnique(x, b, q + 1, r);
  }

  /** Euclidean division has one quotient for each remainder in [0, b). */
  lemma DivUnique(x: int, b: nat, q: int, r: int)
    requires b > 0 && 0 <= r < b && x == b * q + r
    ensures x / b == q
  {
    var q', r' := x / b, x % b;
    assert b * (q - q') == r' - r by {
      assert b * (q - q') == b * q - b * q';
    }
    MultipleBounds(b, q - q');
  }

  /** A non-zero multiple of `b` is at least `b` away from 0. */
  lemma MultipleBounds(b: int, k: int)
    requires b > 0
    ensures k >= 1 ==> b * k >= b
    ensures k <= -1 ==> b * k <= -b
  {
    if k >= 1 {
      assert b * k == b + b * (k - 1);
    } else if k <= -1 {
      assert b * k == -b - b * (-k - 1);
    }
  }

  /** The sum of read sizes. */
  function Sum(s: seq<nat>): nat
  {
    if s == [] then 0 else Sum(s[..|s| - 1]) + s[|s| - 1]
  }

  /** Read sizes of the open-ended loop: each positive, none above the buffer's capacity and
      none above the one before it. */
  ghost predicate ShrinkingReads(sizes: seq<nat>, capacity: nat)
  {
    (forall i :: 0 <= i < |sizes| ==> 0 < sizes[i] <= capacity)
    && (forall i, j :: 0 <= i < j < |sizes| ==> sizes[j] <= sizes[i])
  }

  /** One more read, no larger than the last, keeps the sizes shrinking and adds to the sum. */
  lemma AppendRead(sizes: seq<nat>, capacity: nat, n: nat)
    requires ShrinkingReads(sizes, capacity) && 0 < n <= capacity
    requires sizes != [] ==> n <= sizes[|sizes| - 1]
    ensures ShrinkingReads(sizes + [n], capacity)
    ensures Sum(sizes + [n]) == Sum(sizes) + n
  {
    ShrinkingAppend(sizes, capacity, n);
    SumAppend(sizes, n);
  }

  /** The sum half of AppendRead. */
  lemma SumAppend(sizes: seq<nat>, n: nat)
    ensures Sum(sizes + [n]) == Sum(sizes) + n
  {
    assert (sizes + [n])[..|sizes|] == sizes;
  }

  /** The shrinking half of AppendRead. */
  lemma ShrinkingAppend(sizes: seq<nat>, capacity: nat, n: nat)
    requires ShrinkingReads(sizes, capacity) && 0 < n <= capacity
    requires sizes != [] ==> n <= sizes[|sizes| - 1]
    ensures ShrinkingReads(sizes + [n], capacity)
  {
    var longer := sizes + [n];
    forall i | 0 <= i < |longer|
      ensures 0 < longer[i] <= capacity
    {
      if i < |sizes| {
        assert longer[i] == sizes[i];
      }
    }
    forall i, j | 0 <= i < j < |longer|
      ensures longer[j] <= longer[i]
    {
      assert longer[i] == sizes[i];
      if j < |sizes| {
        assert longer[j] == sizes[j];
      } else {
        var last := |sizes| - 1;
        assert j == |sizes| && longer[j] == n;
        if i < last {
          assert sizes[last] <= sizes[i];
        }
      }
    }
  }

  /** What the closed loop writes when asked for `contentLength` bytes from `start`: whole
      buffers until at least `contentLength` bytes are read, cut short by the end of the file. */
  function ClosedWritten(file: seq<bv8>, start: nat, contentLength: int, bufferSize: nat): (r: seq<bv8>)
    requires bufferSize > 0
    ensures r <= Remaining(file, start)
    ensures contentLength <= 0 ==> r == []
    ensures 0 < contentLength <= |Remaining(file, start)| ==>
              contentLength <= |r| < contentLength + bufferSize
    ensures contentLength > |Remaining(file, start)| ==> r == Remaining(file, start)
  {
    var rest := Remaining(file, start);
    rest[..Min(RoundUp(contentLength, bufferSize), |rest|)]
  }

  /** A prefix of the remaining bytes followed by the bytes of the file that come next is a
      longer prefix. */
  lemma ExtendPrefix(file: seq<bv8>, start: nat, out: seq<bv8>, chunk: seq<bv8>)
    requires chunk != [] && |out| <= |Remaining(file, start)| && out == Remaining(file, start)[..|out|]
    requires start + |out| + |chunk| <= |file| && chunk == file[start + |out|..start + |out| + |chunk|]
    ensures |out + chunk| <= |Remaining(file, start)|
    ensures out + chunk == Remaining(file, start)[..|out + chunk|]
  {
    var longer := out + chunk;
    forall k | 0 <= k < |longer|
      ensures longer[k] == Remaining(file, start)[k]
    {
      if k < |out| {
        assert longer[k] == out[k];
      } else {
        assert longer[k] == chunk[k - |out|];
      }
    }
  }

  /** Lines 115-118 and the next call at line 114: after a read of `n` bytes, `flip`,
      `get(buf, 0, n)` and `flip` hand those bytes to `buf` (they are what `out.write` writes)
      and leave room for `n` bytes, so the next `read` takes at most `n`. */
  method PassOnAndRead(fc: FileChannel, buffer: ByteBuffer, buf: array<bv8>, n: nat)
    returns (chunk: seq<bv8>, next: int)
    requires buffer.Valid() && buf.Length == buffer.capacity && buf != buffer.hb
    requires 0 < n == buffer.position && n <= fc.pos <= |fc.data|
    requires buffer.hb[..n] == fc.data[fc.pos - n..fc.pos]
    modifies fc, buffer, buffer.hb, buf
    ensures buffer.Valid()
    ensures chunk == fc.data[old(fc.pos) - n..old(fc.pos)]
    ensures next == if old(fc.pos) == |fc.data| then -1 else Min(n, |fc.data| - old(fc.pos))
    ensures next != -1 ==> buffer.position == next && fc.pos == old(fc.pos) + next
                           && buffer.hb[..next] == fc.data[old(fc.pos)..fc.pos]
    ensures next == -1 ==> fc.pos == old(fc.pos)
  {
    buffer.Flip();
    var ok := buffer.Get(buf, 0, n);
    assert ok;
    chunk := buf[..n];
    buffer.Flip();
    next := fc.Read(buffer);
  }

  /** Lines 104-105, 108, 112 and the first read at line 114: the buffer and `buf` of the
      configured size, the channel moved to `start`, and a first read into the empty buffer. */
  method OpenAndRead(file: seq<bv8>, start: nat, bufferSize: nat)
    returns (fc: FileChannel, buffer: ByteBuffer, buf: array<bv8>, n: int)
    requires bufferSize > 0
    ensures fresh(fc) && fresh(buffer) && fresh(buffer.hb) && fresh(buf)
    ensures buffer.Valid() && buffer.capacity == bufferSize && buf.Length == bufferSize
    ensures buf != buffer.hb && fc.data == file
    ensures n == if start >= |file| then -1 else Min(bufferSize, |file| - start)
    ensures n != -1 ==> buffer.position == n && fc.pos == start + n
                        && buffer.hb[..n] == file[start..fc.pos]
    ensures n == -1 ==> fc.pos == start
  {
    buffer := new ByteBuffer.Allocate(bufferSize);
    buf := new bv8[bufferSize];
    fc := new FileChannel.Open(file);
    fc.Position(start);
    n := fc.Read(buffer);
  }

  /** Lines 110-119: the loop for an open-ended range and for a whole-file download.
      `fc.read` fills the buffer, `flip` makes the read bytes readable, `get` copies them
      to `buf`, they are written, and the second `flip` leaves the buffer's limit at the size
      of that read, so the next read asks for at most as many bytes. The loop ends when
      `read` returns -1. `sizes` records the size of each read. */
  method CopyToEnd(file: seq<bv8>, start: nat, bufferSize: nat) returns (out: seq<bv8>, ghost sizes: seq<nat>)
    requires bufferSize > 0
    ensures out == Remaining(file, start)
    ensures ShrinkingReads(sizes, bufferSize) && Sum(sizes) == |out|
  {
    var fc, buffer, buf, n := OpenAndRead(file, start, bufferSize);
    out, sizes := [], [];
    while n != -1
      invariant buffer.capacity == bufferSize && fc.data == file
      invariant n != -1 ==> Pending(file, start, fc, buffer, buf, n, out)
      invariant n != -1 && sizes != [] ==> n <= sizes[|sizes| - 1]
      invariant n == -1 ==> out == Remaining(file, start)
      invariant ShrinkingReads(sizes, bufferSize) && Sum(sizes) == |out|
      decreases |file| - fc.pos + (if n == -1 then 0 else 1)
    {
      var next;
      out, next := CopyStep(file, start, fc, buffer, buf, n, out);
      AppendRead(sizes, bufferSize, n);
      sizes := sizes + [n];
      n := next;
    }
  }

  /** The state of the open-ended loop between a read of `n` bytes and passing them on: the
      buffer holds those bytes, the file's next `n` bytes after what has been written, and what
      has been written is a prefix of the remaining bytes. */
  ghost predicate Pending(file: seq<bv8>, start: nat, fc: FileChannel, buffer: ByteBuffer, buf: array<bv8>,
                          n: int, out: seq<bv8>)
    reads fc, buffer, buffer.hb
  {
    buffer.Valid() && buf.Length == buffer.capacity && buf != buffer.hb && fc.data == file
    && 0 < n == buffer.position && n <= fc.pos <= |file|
    && buffer.hb[..n] == file[fc.pos - n..fc.pos]
    && |out| <= |Remaining(file, start)| && out == Remaining(file, start)[..|out|]
    && start + |out| == fc.pos - n
  }

  /** One pass of the open-ended loop: the `n` bytes last read are appended to what has been
      written, which stays a prefix of the remaining bytes, and the next read is made; it is
      no larger than `n`, and when it finds the end of the file everything has been written. */
  method CopyStep(file: seq<bv8>, start: nat, fc: FileChannel, buffer: ByteBuffer, buf: array<bv8>,
                  n: nat, out: seq<bv8>)
    returns (out': seq<bv8>, next: int)
    requires Pending(file, start, fc, buffer, buf, n, out)
    modifies fc, buffer, buffer.hb, buf
    ensures fc.data == file && |out'| == |out| + n
    ensures next == -1 ==> fc.pos == old(fc.pos) && out' == Remaining(file, start)
    ensures next != -1 ==> next <= n && fc.pos == old(fc.pos) + next
                           && Pending(file, start, fc, buffer, buf, next, out')
  {
    var chunk;
    chunk, next := PassOnAndRead(fc, buffer, buf, n);
    ExtendPrefix(file, start, out, chunk);
    out' := out + chunk;
  }

  /** Lines 104-105, 108 and 122: the buffer and `buf` of the configured size and the channel
      moved to `start`, before the closed loop's first read. */
  method OpenAt(file: seq<bv8>, start: nat, bufferSize: nat)
    returns (fc: FileChannel, buffer: ByteBuffer, buf: array<bv8>)
    requires bufferSize > 0
    ensures fresh(fc) && fresh(buffer) && fresh(buffer.hb) && fresh(buf)
    ensures buffer.Valid() && buffer.capacity == bufferSize && buf.Length == bufferSize
    ensures buffer.position == 0 && buffer.limit == bufferSize
    ensures buf != buffer.hb && fc.data == file && fc.pos == start
  {
    buffer := new ByteBuffer.Allocate(bufferSize);
    buf := new bv8[bufferSize];
    fc := new FileChannel.Open(file);
    fc.Position(start);
  }

  /** Lines 126-131: a read into the cleared buffer, `flip`, `get(buf, 0, n)` and `clear`.
      The read asks for a whole buffer. At the end of the file `n` is -1 and `get` throws
      IndexOutOfBoundsException for the negative length: `ok` is false. */
  method ReadWholeAndPassOn(fc: FileChannel, buffer: ByteBuffer, buf: array<bv8>)
    returns (n: int, chunk: seq<bv8>, ok: bool)
    requires buffer.Valid() && buf.Length == buffer.capacity && buf != buffer.hb
    requires buffer.position == 0 && buffer.limit == buffer.capacity && buffer.capacity > 0
    modifies fc, buffer, buffer.hb, buf
    ensures buffer.Valid() && buffer.position == 0 && buffer.limit == buffer.capacity
    ensures n == if old(fc.pos) >= |fc.data| then -1 else Min(buffer.capacity, |fc.data| - old(fc.pos))
    ensures ok <==> n != -1
    ensures ok ==> fc.pos == old(fc.pos) + n && chunk == fc.data[old(fc.pos)..fc.pos]
  {
    n := fc.Read(buffer);
    buffer.Flip();
    ok := buffer.Get(buf, 0, n);
    if ok {
      chunk := buf[..n];
    } else {
      chunk := [];
    }
    buffer.Clear();
  }

  /** Lines 120-132: the loop for a closed range. It reads whole buffers until `readLength`,
      the count of bytes read, reaches `contentLength`, and writes every byte it reads: what
      it writes is ClosedWritten, up to a buffer's worth past the requested end. It completes
      exactly when the file holds `contentLength` bytes from `start`; otherwise it reaches the
      end of the file first and stops with IndexOutOfBoundsException. */
  method CopyClosed(file: seq<bv8>, start: nat, contentLength: int, bufferSize: nat)
    returns (out: seq<bv8>, fault: Option<Fault>)
    requires bufferSize > 0
    ensures out == ClosedWritten(file, start, contentLength, bufferSize)
    ensures fault.None? <==> contentLength <= |Remaining(file, start)|
    ensures fault.Some? ==> fault.value == IndexOutOfBounds
  {
    var fc, buffer, buf := OpenAt(file, start, bufferSize);
    ghost var rest := Remaining(file, start);
    var readLength := 0;
    out := [];
    while readLength < contentLength
      invariant buffer.Valid() && buffer.capacity == bufferSize && buf.Length == bufferSize
      invariant buffer.position == 0 && buffer.limit == bufferSize
      invariant buf != buffer.hb && fc.data == file
      invariant 0 <= readLength <= |rest| && fc.pos == start + readLength
      invariant out == rest[..readLength]
      invariant readLength < contentLength && readLength < |rest| ==>
                  RoundUp(contentLength, bufferSize) == readLength + RoundUp(contentLength - readLength, bufferSize)
      invariant readLength >= contentLength ==> readLength == Min(RoundUp(contentLength, bufferSize), |rest|)
      decreases contentLength - readLength
    {
      var n, chunk, ok := ReadWholeAndPassOn(fc, buffer, buf);
      if !ok {
        return out, Some(IndexOutOfBounds);
      }
      ExtendPrefix(file, start, out, chunk);
      readLength := readLength + n;
      out := out + chunk;
    }
    fault := None;
  }

  /** `writeRangeFileStream`: the headers and status of RangeHeader.Respond, then the body the
      parsed plan selects. `fault` is the exception that escapes the method, if any: a parse
      failure before any byte is written, or IndexOutOfBoundsException from the closed loop. */
  method WriteRangeFileStream(range: Option<string>, file: seq<bv8>, encodedName: string,
                              contentType: string, bufferSize: nat)
    returns (response: Response, body: seq<bv8>, fault: Option<Fault>)
    requires |file| <= LONG_MAX && bufferSize > 0
    ensures response == Respond(range, |file|, encodedName, contentType).response
    ensures var plan := ParseRange(range, |file|);
            match plan
            case Err(e) => body == [] && fault == Some(e)
            case Ok(p) =>
              if p.hasEnd then
                body == ClosedWritten(file, p.startOffset, p.contentLength, bufferSize)
                && (fault.None? <==> p.contentLength <= |Remaining(file, p.startOffset)|)
                && (fault.Some? ==> fault.value == IndexOutOfBounds)
              else body == Remaining(file, p.startOffset) && fault.None?
    ensures !Recognised(range) ==> body == file && fault.None?
  {
    var d := Respond(range, |file|, encodedName, contentType);
    response := d.response;
    match d.plan
    case Err(e) =>
      body, fault := [], Some(e);
    case Ok(p) =>
      if !p.hasEnd {
        ghost var sizes;
        body, sizes := CopyToEnd(file, p.startOffset, bufferSize);
        fault := None;
      } else {
        body, fault := CopyClosed(file, p.startOffset, p.contentLength, bufferSize);
      }
  }
}
