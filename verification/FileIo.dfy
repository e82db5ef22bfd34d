/** Reading and writing through open files. Every handle keeps its own copy of the
    file size and its own position, so a handle may lag behind the inode it names.
    The core below can seek only up to that cached size, can truncate only downwards,
    and may transfer less than it was asked to; the methods of `Handle` state that
    much of it and nothing more. How far it gets each time is an input, an `Outcome`,
    so that what holds for all outcomes holds for every pattern of short transfers
    and errors. */
module FileIo {
  import opened Ondisk

  const INT64_MAX := 0x7FFF_FFFF_FFFF_FFFF

  // ----- what a file is, as POSIX describes it -----

  /** The file with zeros up to `n`, if it is shorter than that. */
  function Padded(d: seq<Byte>, n: nat): (r: seq<Byte>)
    ensures |r| >= n
  {
    if |d| < n then d + ZeroBytes(n - |d|) else d
  }

  function Overlay(d: seq<Byte>, at: nat, b: seq<Byte>): seq<Byte>
    requires at <= |d|
  {
    d[..at] + b + (if at + |b| < |d| then d[at + |b|..] else [])
  }

  /** A positioned write of POSIX: the gap after the end reads as zeros. */
  function Pwrite(d: seq<Byte>, at: nat, b: seq<Byte>): seq<Byte> {
    Overlay(Padded(d, at), at, b)
  }

  function Resized(d: seq<Byte>, n: nat): seq<Byte> {
    if n <= |d| then d[..n] else Padded(d, n)
  }

  /** Byte by byte: the written bytes at their place, the old bytes elsewhere, and
      zeros where there was nothing. */
  lemma PwriteByte(d: seq<Byte>, at: nat, b: seq<Byte>, i: nat)
    requires i < |Pwrite(d, at, b)|
    ensures Pwrite(d, at, b)[i] == if at <= i < at + |b| then b[i - at] else if i < |d| then d[i] else 0
  {
  }

  /** Resizing keeps what fits and fills up with zeros. */
  lemma ResizedByte(d: seq<Byte>, n: nat, i: nat)
    requires i < n
    ensures |Resized(d, n)| == n && Resized(d, n)[i] == if i < |d| then d[i] else 0
  {
  }

  lemma PwriteLength(d: seq<Byte>, at: nat, b: seq<Byte>)
    ensures |Pwrite(d, at, b)| == if |d| < at + |b| then at + |b| else |d|
  {
  }

  /** A short write continued where it stopped is the whole write. */
  lemma ShortWritesCompose(d: seq<Byte>, at: nat, a: seq<Byte>, b: seq<Byte>)
    ensures Pwrite(Pwrite(d, at, a), at + |a|, b) == Pwrite(d, at, a + b)
  {
    hide Pwrite;
    var first := Pwrite(d, at, a);
    var x, y := Pwrite(first, at + |a|, b), Pwrite(d, at, a + b);
    PwriteLength(d, at, a);
    PwriteLength(first, at + |a|, b);
    PwriteLength(d, at, a + b);
    forall i | 0 <= i < |x|
      ensures x[i] == y[i]
    {
      PwriteByte(first, at + |a|, b, i);
      PwriteByte(d, at, a + b, i);
      if i < |first| {
        PwriteByte(d, at, a, i);
      }
    }
  }

  /** Writing past the end is growing to the offset and appending there. */
  lemma GrowThenAppend(d: seq<Byte>, at: nat, b: seq<Byte>)
    requires |d| <= at
    ensures Pwrite(d, at, b) == Resized(d, at) + b
  {
    var p := Padded(d, at);
    assert Resized(d, at) == p;
    assert p[..at] == p;
  }

  /** Appending is a positioned write at the end. */
  lemma AppendIsPwrite(d: seq<Byte>, b: seq<Byte>)
    ensures Pwrite(d, |d|, b) == d + b
  {
    assert d[..|d|] == d;
  }

  /** Only at the end of the inode: a write at any other position, such as the end a
      stale handle remembers, is not an append. */
  lemma AppendsOnlyAtEnd(d: seq<Byte>, at: nat, b: seq<Byte>)
    requires b != []
    ensures Pwrite(d, at, b) == d + b <==> at == |d|
  {
    AppendIsPwrite(d, b);
    PwriteLength(d, at, b);
  }

  /** Zeros written behind zeros. */
  lemma MoreZeros(d: seq<Byte>, k: nat, z: seq<Byte>)
    requires forall i :: 0 <= i < |z| ==> z[i] == 0
    ensures Pwrite(d + ZeroBytes(k), |d| + k, z) == d + ZeroBytes(k + |z|)
  {
    AppendIsPwrite(d + ZeroBytes(k), z);
    assert ZeroBytes(k) + z == ZeroBytes(k + |z|);
    assert (d + ZeroBytes(k)) + z == d + (ZeroBytes(k) + z);
  }

  // ----- the layer below -----

  /** What the core will do with one transfer: report r, after at most `limit` bytes,
      having brought the handle's cached size up to date or not. */
  datatype Outcome = Outcome(r: Errno, limit: nat, refresh: bool)

  function Min(a: nat, b: nat): (m: nat)
    ensures m <= a && m <= b && (m == a || m == b)
  {
    if a < b then a else b
  }

  function Max(a: nat, b: nat): (m: nat)
    ensures a <= m && b <= m && (m == a || m == b)
  {
    if a < b then b else a
  }

  /** n is the least of the three. */
  predicate Least(n: nat, a: nat, b: nat, c: nat) {
    n <= a && n <= b && n <= c && (n == a || n == b || n == c)
  }

  /** How growing by `need` bytes in chunks goes, given the outcomes of the writes
      from the k-th on: what is reported and how many bytes were added. */
  function Growth(need: nat, chunk: nat, outcomes: nat -> Outcome, k: nat): (g: (Errno, nat))
    ensures g.1 <= need
    ensures g.0 == EOK ==> g.1 == need
    decreases need
  {
    if need == 0 then (EOK, 0)
    else
      var w := Min(outcomes(k).limit, Min(chunk, need));
      if outcomes(k).r != EOK then (outcomes(k).r, w)
      else if w == 0 then (EIO, 0)
      else
        var rest := Growth(need - w, chunk, outcomes, k + 1);
        (rest.0, w + rest.1)
  }

  /** After k writes and `done` bytes, with r reported by the last write, the whole
      growth ends as the rest of it will. */
  ghost predicate Reached(need: nat, chunk: nat, outcomes: nat -> Outcome, k: nat, r: Errno, done: nat) {
    var g := Growth(need, chunk, outcomes, 0);
    && done <= need
    && (r == EOK ==>
         var rest := Growth(need - done, chunk, outcomes, k);
         g.0 == rest.0 && g.1 == done + rest.1)
    && (r != EOK ==> g == (r, done))
  }

  lemma ReachedStep(need: nat, chunk: nat, outcomes: nat -> Outcome, k: nat, done: nat)
    requires chunk > 0 && done < need && Reached(need, chunk, outcomes, k, EOK, done)
    ensures var w := Min(outcomes(k).limit, Min(chunk, need - done));
            var r := if outcomes(k).r == EOK && w == 0 then EIO else outcomes(k).r;
            Reached(need, chunk, outcomes, k + 1, r, done + w)
  {
  }

  lemma GrowthEnds(need: nat, chunk: nat, outcomes: nat -> Outcome, k: nat)
    ensures need == 0 ==> Growth(need, chunk, outcomes, k) == (EOK, 0)
    ensures k == 0 ==> Reached(need, chunk, outcomes, 0, EOK, 0)
  {
  }

  /** The first write that fails or takes nothing decides: its own error is reported, or
      EIO when it claimed success. */
  lemma {:induction false} GrowthStops(need: nat, chunk: nat, outcomes: nat -> Outcome, k: nat) returns (j: nat)
    requires chunk > 0 && Growth(need, chunk, outcomes, k).0 != EOK
    ensures j >= k && (outcomes(j).r != EOK || outcomes(j).limit == 0)
    ensures forall i :: k <= i < j ==> outcomes(i).r == EOK && outcomes(i).limit > 0
    ensures Growth(need, chunk, outcomes, k).0 == if outcomes(j).r != EOK then outcomes(j).r else EIO
    decreases need
  {
    j := k;
    var w := Min(outcomes(k).limit, Min(chunk, need));
    if outcomes(k).r == EOK && w > 0 {
      j := GrowthStops(need - w, chunk, outcomes, k + 1);
    }
  }

  function Chunks(n: nat, chunk: nat): nat {
    if n == 0 then 0 else chunk + Chunks(n - 1, chunk)
  }

  lemma {:induction false} ChunksIs(n: nat, chunk: nat)
    ensures Chunks(n, chunk) == n * chunk
  {
    if n != 0 {
      ChunksIs(n - 1, chunk);
      assert n * chunk == (n - 1) * chunk + chunk;
    }
  }

  /** As long as the writes are full, each adds one whole chunk. */
  lemma {:induction false} GrowthChunks(need: nat, chunk: nat, outcomes: nat -> Outcome, k: nat, n: nat)
    requires chunk > 0 && Chunks(n, chunk) <= need
    requires forall i :: k <= i < k + n ==> outcomes(i).r == EOK && outcomes(i).limit >= chunk
    ensures var rest := Growth(need - Chunks(n, chunk), chunk, outcomes, k + n);
            Growth(need, chunk, outcomes, k) == (rest.0, Chunks(n, chunk) + rest.1)
    decreases n
  {
    hide Growth;
    if n != 0 {
      GrowthChunks(need - chunk, chunk, outcomes, k + 1, n - 1);
      GrowthOne(need, chunk, outcomes, k);
    }
  }

  lemma GrowthOne(need: nat, chunk: nat, outcomes: nat -> Outcome, k: nat)
    requires 0 < chunk <= need && outcomes(k).r == EOK && outcomes(k).limit >= chunk
    ensures var rest := Growth(need - chunk, chunk, outcomes, k + 1);
            Growth(need, chunk, outcomes, k) == (rest.0, chunk + rest.1)
  {
  }

  /** And the first one that fails, or that has the rest to write, ends the growth. */
  lemma GrowthFull(need: nat, chunk: nat, outcomes: nat -> Outcome, n: nat)
    requires chunk > 0 && n * chunk < need
    requires forall i :: 0 <= i < n ==> outcomes(i).r == EOK && outcomes(i).limit >= chunk
    ensures need <= n * chunk + chunk && outcomes(n).r == EOK && outcomes(n).limit >= chunk ==>
              Growth(need, chunk, outcomes, 0) == (EOK, need)
    ensures outcomes(n).r != EOK ==>
              Growth(need, chunk, outcomes, 0)
              == (outcomes(n).r, n * chunk + Min(outcomes(n).limit, Min(chunk, need - n * chunk)))
  {
    ChunksIs(n, chunk);
    GrowthChunks(need, chunk, outcomes, 0, n);
  }

  /** Writes that succeed and are never empty, however short, complete the growth. */
  lemma {:induction false} GrowthCompletes(need: nat, chunk: nat, outcomes: nat -> Outcome, k: nat)
    requires chunk > 0
    requires forall j: nat :: outcomes(j).r == EOK && outcomes(j).limit > 0
    ensures Growth(need, chunk, outcomes, k) == (EOK, need)
    decreases need
  {
    if need != 0 {
      var w := Min(outcomes(k).limit, Min(chunk, need));
      GrowthCompletes(need - w, chunk, outcomes, k + 1);
    }
  }

  /** How far into a file of `size` bytes one read can get. */
  function Readable(fsize: nat, size: nat, o: Outcome): nat {
    if o.refresh then size else Min(fsize, size)
  }

  class Inode {
    var data: seq<Byte>

    constructor (data: seq<Byte>)
      ensures this.data == data
    {
      this.data := data;
    }
  }

  datatype Access = ReadOnly | WriteOnly | ReadWrite

  /** An open file: what the block layer keeps for it and how it was opened. */
  class Handle {
    const path: string
    const inode: Inode
    const access: Access
    const append: bool
    var fsize: nat
    var fpos: nat

    constructor (path: string, inode: Inode, access: Access, append: bool)
      ensures this.path == path && this.inode == inode
      ensures this.access == access && this.append == append
      ensures Current()
    {
      this.path, this.inode, this.access, this.append := path, inode, access, append;
      this.fsize, this.fpos := |inode.data|, 0;
    }

    /** The cached size is the inode's and the position is within it. */
    ghost predicate Current()
      reads this, inode
    {
      fsize == |inode.data| && fpos <= fsize
    }

    method Fseek(offset: int) returns (r: Errno)
      modifies this`fpos
      ensures r == EOK || r == EINVAL
      ensures r == EOK <==> 0 <= offset <= fsize
      ensures fpos == if r == EOK then offset else old(fpos)
    {
      if offset < 0 || offset > fsize {
        return EINVAL;
      }
      fpos := offset;
      return EOK;
    }

    /** May stop early, with or without an error; what it did write is there. Nothing
        is promised about the file when the position lies beyond its present end. */
    method Fwrite(bytes: seq<Byte>, o: Outcome) returns (r: Errno, written: nat)
      modifies this`fsize, this`fpos, inode
      ensures r == o.r && written == Min(o.limit, |bytes|)
      ensures old(fpos) <= |old(inode.data)| ==> inode.data == Pwrite(old(inode.data), old(fpos), bytes[..written])
      ensures fpos == old(fpos) + written
      ensures fsize == if o.refresh && fpos <= |inode.data| then |inode.data| else Max(old(fsize), fpos)
      ensures old(fpos) <= |old(inode.data)| ==> |inode.data| == Max(|old(inode.data)|, fpos)
    {
      PwriteLength(inode.data, fpos, bytes[..Min(o.limit, |bytes|)]);
      r, written := o.r, Min(o.limit, |bytes|);
      if fpos <= |inode.data| {
        inode.data := Pwrite(inode.data, fpos, bytes[..written]);
      } else {
        inode.data := *;
      }
      fpos := fpos + written;
      fsize := if o.refresh && fpos <= |inode.data| then |inode.data| else Max(fsize, fpos);
    }

    /** May also stop early, and goes past neither the end of the file nor the cached
        size it goes by. */
    method Fread(buffer: array<Byte>, size: nat, o: Outcome) returns (r: Errno, count: nat)
      requires fpos <= fsize && fpos <= |inode.data| && size <= buffer.Length
      modifies this`fsize, this`fpos, buffer
      ensures r == o.r && count == Min(o.limit, Min(size, Readable(old(fsize), |inode.data|, o) - old(fpos)))
      ensures buffer[..count] == inode.data[old(fpos)..old(fpos) + count]
      ensures buffer[count..] == old(buffer[count..])
      ensures fpos == old(fpos) + count
      ensures fsize == if o.refresh then |inode.data| else old(fsize)
    {
      r, count := o.r, Min(o.limit, Min(size, Readable(fsize, |inode.data|, o) - fpos));
      forall i | 0 <= i < count {
        buffer[i] := inode.data[fpos + i];
      }
      fpos := fpos + count;
      fsize := if o.refresh then |inode.data| else fsize;
    }

    /** Only shrinks; an error may leave the file between the two sizes. */
    method Ftruncate(size: nat, o: Outcome) returns (r: Errno)
      requires size <= |inode.data|
      modifies this`fsize, this`fpos, inode
      ensures Current()
      ensures r == o.r
      ensures size <= |inode.data| <= |old(inode.data)|
      ensures inode.data == old(inode.data)[..|inode.data|]
      ensures r == EOK ==> |inode.data| == size
      ensures old(fpos) <= size ==> fpos == old(fpos)
    {
      r := o.r;
      var n := if r == EOK || o.limit >= |inode.data| - size then size else |inode.data| - o.limit;
      inode.data := inode.data[..n];
      fsize := n;
      fpos := Min(fpos, n);
    }
  }

  // ----- the layer above -----

  datatype Reply = Count(n: nat) | Fail(error: Errno)

  /** Whether `names` leads the path a file was opened by to its inode. */
  function LinkCheck(names: map<string, Inode>, file: Handle): (r: Errno)
    ensures r == ENOENT <==> file.path !in names
    ensures r == ESTALE <==> file.path in names && names[file.path] != file.inode
    ensures r == EOK <==> file.path in names && names[file.path] == file.inode
  {
    if file.path !in names then ENOENT
    else if names[file.path] != file.inode then ESTALE
    else EOK
  }

  class Context {
    const readOnly: bool
    const ssizeMax: nat
    const growBuffer: seq<Byte>
    var files: seq<Handle?>
    var names: map<string, Inode>

    constructor (readOnly: bool, ssizeMax: nat, growSize: nat, maxFiles: nat)
      ensures Valid()
      ensures this.readOnly == readOnly && this.ssizeMax == ssizeMax
      ensures |growBuffer| == growSize && |files| == maxFiles
      ensures forall fd :: FileGet(fd) == null
    {
      this.readOnly, this.ssizeMax := readOnly, ssizeMax;
      this.growBuffer := ZeroBytes(growSize);
      this.files := seq(maxFiles, _ => null);
      this.names := map[];
    }

    /** The buffer growth writes from holds nothing but zeros. */
    ghost predicate Valid()
    {
      forall i :: 0 <= i < |growBuffer| ==> growBuffer[i] == 0
    }

    function IoSizeLimit(size: nat): (limit: nat)
      ensures limit <= size && limit <= ssizeMax && (limit == size || limit == ssizeMax)
    {
      if size > ssizeMax then ssizeMax else size
    }

    function FileGet(fd: int): (file: Handle?)
      reads this`files
    {
      if fd < 0 || fd >= |files| then null else files[fd]
    }

    /** Whether the path a file was opened by still leads to it. */
    function NameCheck(file: Handle): Errno
      reads this`names
    {
      LinkCheck(names, file)
    }

    method CurrentFileSize(file: Handle) returns (r: Errno, size: nat)
      ensures r == NameCheck(file)
      ensures r == EOK ==> size == |file.inode.data|
    {
      if file.path !in names {
        return ENOENT, 0;
      }
      var found := names[file.path];
      if found != file.inode {
        return ESTALE, 0;
      }
      return EOK, |found.data|;
    }

    /** Whatever the handle last knew, it ends up at the inode's end or unmoved. */
    method SeekToCurrentEnd(file: Handle) returns (r: Errno)
      modifies file`fsize, file`fpos
      ensures r == if NameCheck(file) != EOK then NameCheck(file)
                   else if |file.inode.data| > INT64_MAX then EOVERFLOW else EOK
      ensures r == EOK ==> file.Current() && file.fpos == |file.inode.data|
      ensures r != EOK ==> file.fsize == old(file.fsize) && file.fpos == old(file.fpos)
    {
      var size;
      r, size := CurrentFileSize(file);
      if r != EOK {
        return;
      }
      if size > INT64_MAX {
        return EOVERFLOW;
      }
      file.fsize := size;
      r := file.Fseek(size);
    }

    /** Why a file cannot be resized at all. */
    function ResizeRefusal(file: Handle): Errno
      reads this`names
    {
      if growBuffer == [] then ENOMEM else NameCheck(file)
    }

    /** The growth loop: zeros from the growth buffer until the size is reached or a
        write fails. */
    method AppendZeros(file: Handle, size: nat, newSize: nat, outcomes: nat -> Outcome) returns (r: Errno)
      requires Valid() && growBuffer != []
      requires file.fsize == size == |file.inode.data| < newSize
      modifies file`fsize, file`fpos, file.inode
      ensures file.Current() && file.fpos == |file.inode.data|
      ensures var g := Growth(newSize - size, |growBuffer|, outcomes, 0);
              && r == g.0 && file.inode.data == old(file.inode.data) + ZeroBytes(g.1)
    {
      hide Growth, Pwrite;
      ghost var was := file.inode.data;
      var currentSize := size;
      r := file.Fseek(currentSize);
      assert was == was + ZeroBytes(0);
      var k: nat := 0;
      GrowthEnds(newSize - size, |growBuffer|, outcomes, 0);
      while r == EOK && currentSize < newSize
        invariant size <= currentSize <= newSize
        invariant file.Current() && file.fpos == currentSize == |file.inode.data|
        invariant file.inode.data == was + ZeroBytes(currentSize - size)
        invariant Reached(newSize - size, |growBuffer|, outcomes, k, r, currentSize - size)
        decreases newSize - currentSize, r == EOK
      {
        var request := |growBuffer|;
        var remaining := newSize - currentSize;
        if remaining < request {
          request := remaining;
        }
        var written;
        ghost var before := currentSize - size;
        r, written := file.Fwrite(growBuffer[..request], outcomes(k));
        MoreZeros(was, before, growBuffer[..request][..written]);
        if r == EOK && written == 0 {
          r := EIO;
        }
        ReachedStep(newSize - size, |growBuffer|, outcomes, k, before);
        currentSize := currentSize + written;
        k := k + 1;
      }
      GrowthEnds(newSize - currentSize, |growBuffer|, outcomes, k);
    }

    /** Grows with zeros or shrinks; success means exactly the requested size, and
        a growth that fails leaves the old bytes with some of the zeros and reports its
        own error. Growing does not move the position, unless another handle has
        shortened the file so far that the position is beyond even the end reached; it
        is that end then, and EINVAL if the growth itself was complete. */
    method ResizeFile(file: Handle, newSize: nat, outcomes: nat -> Outcome) returns (r: Errno)
      requires Valid() && newSize <= INT64_MAX
      modifies file`fsize, file`fpos, file.inode
      ensures old(ResizeRefusal(file)) != EOK ==>
                r == old(ResizeRefusal(file)) && file.fsize == old(file.fsize) && file.fpos == old(file.fpos)
                && file.inode.data == old(file.inode.data)
      ensures growBuffer == [] ==> r == ENOMEM
      ensures growBuffer != [] && file.path !in names ==> r == ENOENT
      ensures growBuffer != [] && file.path in names && names[file.path] != file.inode ==> r == ESTALE
      ensures old(ResizeRefusal(file)) == EOK ==> file.Current()
      ensures r == EOK ==> file.inode.data == Resized(old(file.inode.data), newSize)
      ensures old(ResizeRefusal(file)) == EOK && newSize <= |old(file.inode.data)| ==>
                && r == outcomes(0).r
                && newSize <= |file.inode.data| <= |old(file.inode.data)|
                && file.inode.data == old(file.inode.data)[..|file.inode.data|]
                && (old(file.fpos) <= newSize ==> file.fpos == old(file.fpos))
      ensures old(ResizeRefusal(file)) == EOK && newSize > |old(file.inode.data)| ==>
                var g := Growth(newSize - |old(file.inode.data)|, |growBuffer|, outcomes, 0);
                && r == (if g.0 == EOK && old(file.fpos) > newSize then EINVAL else g.0)
                && file.inode.data == old(file.inode.data) + ZeroBytes(g.1)
                && file.fpos == Min(old(file.fpos), |file.inode.data|)
    {
      if growBuffer == [] {
        return ENOMEM;
      }
      var currentSize;
      r, currentSize := CurrentFileSize(file);
      if r != EOK {
        return;
      }
      if newSize <= currentSize {
        r := file.Ftruncate(newSize, outcomes(0));
        return;
      }

      var originalPosition := file.fpos;
      file.fsize := currentSize;
      r := AppendZeros(file, currentSize, newSize, outcomes);
      ResizedUp(old(file.inode.data), newSize);
      var restoreResult := file.Fseek(originalPosition);
      if r == EOK && restoreResult != EOK {
        r := restoreResult;
      }
    }

    /** Why a write on `fd` is refused before anything is touched. */
    function WriteRefusal(fd: int): Option<Errno>
      reads this`files
    {
      if readOnly then Some(EROFS)
      else if FileGet(fd) == null || FileGet(fd).access == ReadOnly then Some(EBADF)
      else None
    }

    ghost function Footprint(fd: int): set<object>
      reads this`files
    {
      if FileGet(fd) == null then {} else {FileGet(fd), FileGet(fd).inode}
    }

    /** Why an accepted write still fails before its transfer. */
    function AppendCheck(file: Handle): Errno
      reads this`names, file.inode
    {
      if !file.append then EOK
      else if NameCheck(file) != EOK then NameCheck(file)
      else if |file.inode.data| > INT64_MAX then EOVERFLOW
      else EOK
    }

    /** write(): the bytes taken, `bytes[..taken]`, go to the end of the inode on an
        O_APPEND handle however stale that handle is, and to the handle's position
        otherwise, if that still lies within the file. Success reports exactly what
        was taken. */
    method Write(fd: int, bytes: seq<Byte>, o: Outcome) returns (reply: Reply, ghost taken: nat)
      modifies Footprint(fd)
      ensures old(WriteRefusal(fd)).Some? ==> reply == Fail(old(WriteRefusal(fd)).value) && taken == 0
      ensures old(WriteRefusal(fd)).None? ==>
                var check := old(AppendCheck(FileGet(fd)));
                if check != EOK then reply == Fail(check) && taken == 0
                else
                  && taken == Min(o.limit, IoSizeLimit(|bytes|))
                  && reply == (if o.r == EOK then Count(taken) else Fail(o.r))
      ensures old(WriteRefusal(fd)).None? && old(AppendCheck(FileGet(fd))) == EOK ==>
                Least(taken, |bytes|, ssizeMax, o.limit)
      ensures readOnly ==> reply == Fail(EROFS)
      ensures !readOnly && (old(FileGet(fd)) == null || old(FileGet(fd)).access == ReadOnly) ==> reply == Fail(EBADF)
      ensures taken <= |bytes|
      ensures var file := old(FileGet(fd)); file != null ==>
                && (readOnly || file.access == ReadOnly ==> file.inode.data == old(file.inode.data))
                && (file.append ==> file.inode.data == old(file.inode.data) + bytes[..taken])
                && (file.append && taken > 0 ==> file.Current())
                && (old(WriteRefusal(fd)).Some? ==> file.inode.data == old(file.inode.data))
                && (!file.append && old(WriteRefusal(fd)).None? && old(file.fpos) <= |old(file.inode.data)| ==>
                      file.inode.data == Pwrite(old(file.inode.data), old(file.fpos), bytes[..taken]))
                && (!file.append ==> file.fpos == old(file.fpos) + taken)
                && (old(file.fpos) <= old(file.fsize) ==> file.fpos <= file.fsize)
    {
      taken := 0;
      if readOnly {
        return Fail(EROFS), 0;
      }
      var file := FileGet(fd);
      if file == null {
        return Fail(EBADF), 0;
      }
      if file.access == ReadOnly {
        return Fail(EBADF), 0;
      }
      var r;
      if file.append {
        r := SeekToCurrentEnd(file);
        if r != EOK {
          return Fail(r), 0;
        }
      }
      ghost var was := file.inode.data;
      var limit := IoSizeLimit(|bytes|);
      var written;
      r, written := file.Fwrite(bytes[..limit], o);
      taken := written;
      assert bytes[..limit][..written] == bytes[..written];
      if file.append {
        AppendIsPwrite(was, bytes[..taken]);
      }
      if r != EOK {
        return Fail(r), taken;
      }
      return Count(written), taken;
    }

    /** Why positioned I/O on `fd` is refused before anything is touched. */
    function PositionedRefusal(fd: int, offset: int, write: bool): Option<Errno>
      reads this`files, Footprint(fd)
    {
      if offset < 0 then Some(EINVAL)
      else if write && readOnly then Some(EROFS)
      else
        var file := FileGet(fd);
        if file == null then Some(EBADF)
        else if (write && file.access == ReadOnly) || (!write && file.access == WriteOnly) then Some(EBADF)
        else if file.fpos > INT64_MAX then Some(EOVERFLOW)
        else None
    }

    /** What a positioned read answers. */
    ghost predicate ReadAnswer(file: Handle, fsize: nat, d: seq<Byte>, offset: nat, size: nat, o: Outcome,
                               r: Errno, count: nat)
      reads this`names
    {
      if NameCheck(file) != EOK then r == NameCheck(file) && count == 0
      else (r, count) == ReadReply(fsize, |d|, offset, Min(size, ssizeMax), o)
    }

    /** What a positioned write answers, and the file d' it leaves of d. */
    ghost predicate WriteAnswer(file: Handle, fsize: nat, fpos: nat, d: seq<Byte>, d': seq<Byte>, offset: nat,
                                bytes: seq<Byte>, outcomes: nat -> Outcome, o: Outcome, r: Errno, count: nat)
      reads this`names
    {
      var g := if offset > |d| && growBuffer == [] then (ENOMEM, 0)
               else Growth(if offset > |d| then offset - |d| else 0, |growBuffer|, outcomes, 0);
      if NameCheck(file) != EOK then r == NameCheck(file) && count == 0 && d' == d
      else
        && (r, count) == WriteReply(fsize, fpos, |d|, offset, Min(|bytes|, ssizeMax), g.0, o)
        && d' == if g.0 != EOK then d + ZeroBytes(g.1)
                 else if StaleWrite(fsize, fpos, |d|, offset) then Padded(d, offset)
                 else Pwrite(d, offset, bytes[..count])
    }

    /** How much a read moves, and that a failing transfer fails it. */
    lemma ReadMoves(file: Handle, fsize: nat, d: seq<Byte>, offset: nat, size: nat, o: Outcome, r: Errno, count: nat)
      requires ReadAnswer(file, fsize, d, offset, size, o, r, count)
      ensures count <= ssizeMax
      ensures r == EOK && offset < |d| && o.refresh ==> Least(count, Min(size, |d| - offset), ssizeMax, o.limit)
      ensures o.r != EOK && offset < |d| ==> r != EOK
    {
    }

    lemma WriteMoves(file: Handle, fsize: nat, fpos: nat, d: seq<Byte>, d': seq<Byte>, offset: nat, bytes: seq<Byte>,
                     outcomes: nat -> Outcome, o: Outcome, r: Errno, count: nat)
      requires WriteAnswer(file, fsize, fpos, d, d', offset, bytes, outcomes, o, r, count)
      ensures count <= ssizeMax
      ensures r == EOK ==> Least(count, |bytes|, ssizeMax, o.limit)
      ensures o.r != EOK ==> r != EOK
    {
      hide Growth, Pwrite, Padded;
    }

    /** The read of a positioned call, once the inode's size is known. */
    method ReadAt(file: Handle, buffer: array<Byte>, size: nat, fileSize: nat, offset: nat, o: Outcome)
      returns (r: Errno, transferred: nat)
      requires size <= buffer.Length && file.fpos <= file.fsize && fileSize == |file.inode.data|
      modifies file`fsize, file`fpos, buffer
      ensures file.fpos <= file.fsize
      ensures old(file.fpos) <= |file.inode.data| ==> old(file.fpos) <= file.fsize
      ensures old(file.Current()) ==> file.Current()
      ensures transferred <= size
      ensures (r, transferred) == ReadReply(old(file.fsize), |file.inode.data|, offset, Min(size, ssizeMax), o)
      ensures ReadEffect(buffer[..], old(buffer[..]), file.inode.data, offset, transferred)
    {
      r, transferred := EOK, 0;
      if offset >= fileSize {
        return;
      }
      r := file.Fseek(offset);
      if r != EOK {
        return;
      }
      r, transferred := file.Fread(buffer, IoSizeLimit(size), o);
    }

    /** The write of a positioned call: the gap first, if there is one. */
    method WriteAt(file: Handle, bytes: seq<Byte>, fileSize: nat, offset: nat, outcomes: nat -> Outcome, o: Outcome)
      returns (r: Errno, transferred: nat)
      requires Valid() && offset <= INT64_MAX && file.fpos <= file.fsize
      requires NameCheck(file) == EOK && fileSize == |file.inode.data|
      modifies file`fsize, file`fpos, file.inode
      ensures file.fpos <= file.fsize && |old(file.inode.data)| <= |file.inode.data|
      ensures old(file.fpos) <= |old(file.inode.data)| ==> old(file.fpos) <= file.fsize
      ensures old(file.Current()) ==> file.Current()
      ensures transferred <= |bytes|
      ensures WriteAnswer(file, old(file.fsize), old(file.fpos), old(file.inode.data), file.inode.data, offset,
                          bytes, outcomes, o, r, transferred)
    {
      hide Pwrite, Padded, Resized, Growth, NameCheck, LinkCheck;
      GrowthEnds(0, |growBuffer|, outcomes, 0);
      ghost var was := file.inode.data;
      r, transferred := EOK, 0;
      if offset > fileSize {
        PaddedUp(was, offset);
        r := ResizeFile(file, offset, outcomes);
        if r != EOK {
          return;
        }
        ResizedUp(was, offset);
      } else {
        PaddedEnough(was, offset);
      }
      r := file.Fseek(offset);
      if r != EOK {
        return;
      }
      var limit := IoSizeLimit(|bytes|);
      r, transferred := file.Fwrite(bytes[..limit], o);
      assert bytes[..limit][..transferred] == bytes[..transferred];
      PwritePadded(was, offset, bytes[..transferred]);
    }

    /** The transfer itself, which leaves the handle wherever it got to. */
    method TransferAt(file: Handle, buffer: array<Byte>, size: nat, offset: nat, write: bool,
                      outcomes: nat -> Outcome, o: Outcome)
      returns (r: Errno, transferred: nat)
      requires Valid() && 0 < size <= buffer.Length && offset <= INT64_MAX && file.fpos <= file.fsize
      modifies file`fsize, file`fpos, file.inode, buffer
      ensures file.fpos <= file.fsize && |old(file.inode.data)| <= |file.inode.data|
      ensures old(file.fpos) <= |old(file.inode.data)| ==> old(file.fpos) <= file.fsize
      ensures old(file.Current()) ==> file.Current()
      ensures transferred <= size
      ensures write ==> buffer[..] == old(buffer[..])
      ensures write ==>
                WriteAnswer(file, old(file.fsize), old(file.fpos), old(file.inode.data), file.inode.data, offset,
                            buffer[..size], outcomes, o, r, transferred)
      ensures !write ==> file.inode.data == old(file.inode.data)
      ensures !write ==> ReadAnswer(file, old(file.fsize), file.inode.data, offset, size, o, r, transferred)
      ensures !write ==> ReadEffect(buffer[..], old(buffer[..]), file.inode.data, offset, transferred)
    {
      hide Pwrite, Padded, Growth, ReadReply;
      transferred := 0;
      var fileSize;
      r, fileSize := CurrentFileSize(file);
      if r != EOK {
        return;
      }
      if write {
        r, transferred := WriteAt(file, buffer[..size], fileSize, offset, outcomes, o);
      } else {
        r, transferred := ReadAt(file, buffer, size, fileSize, offset, o);
      }
    }

    /** pread() and pwrite(), through a handle that may lag behind the inode. The
        position is restored whenever it still lies within the file. A read returns
        bytes of the file at `offset`, none at or past the end. A write leaves the
        file as POSIX's pwrite does for the bytes transferred, a gap before
        `offset` reading as zeros. The stale handles that are refused EINVAL instead
        are those of StaleRead and StaleWrite. */
    method PositionedIo(fd: int, buffer: array<Byte>, size: nat, offset: int, write: bool,
                        outcomes: nat -> Outcome, o: Outcome)
      returns (reply: Reply, ghost r: Errno, ghost moved: nat)
      requires Valid() && size <= buffer.Length && offset <= INT64_MAX
      requires FileGet(fd) != null ==> FileGet(fd).fpos <= FileGet(fd).fsize
      modifies Footprint(fd), buffer
      ensures write ==> buffer[..] == old(buffer[..])
      ensures var file := old(FileGet(fd)); file != null ==>
                && file.fpos <= file.fsize
                && (old(file.Current()) ==> file.Current())
                && (old(file.fpos) <= |old(file.inode.data)| ==> file.fpos == old(file.fpos))
                && (old(file.fpos) <= file.fsize ==> file.fpos == old(file.fpos))
      ensures old(PositionedRefusal(fd, offset, write)).Some? ==>
                && reply == Fail(old(PositionedRefusal(fd, offset, write)).value)
                && buffer[..] == old(buffer[..])
                && (old(FileGet(fd)) != null ==>
                      old(FileGet(fd)).inode.data == old(FileGet(fd).inode.data))
      ensures offset < 0 ==> reply == Fail(EINVAL)
      ensures offset >= 0 && write && readOnly ==> reply == Fail(EROFS)
      ensures offset >= 0 && !(write && readOnly) ==>
                var file := old(FileGet(fd));
                file == null || file.access == (if write then ReadOnly else WriteOnly) ==> reply == Fail(EBADF)
      ensures var file := old(FileGet(fd)); file != null && (readOnly || file.access == ReadOnly) ==>
                file.inode.data == old(file.inode.data)
      ensures old(PositionedRefusal(fd, offset, write)).None? ==>
                var file := old(FileGet(fd));
                var was := old(file.inode.data);
                && moved <= size && moved <= ssizeMax
                && (size != 0 && write && r == EOK ==> Least(moved, size, ssizeMax, o.limit))
                && (size != 0 && !write && r == EOK && offset < |was| && o.refresh ==>
                      Least(moved, Min(size, |was| - offset), ssizeMax, o.limit))
                && (size != 0 && o.r != EOK && (write || offset < |was|) ==> reply.Fail?)
                && reply == (if r != EOK then Fail(r)
                             else if old(file.fpos) > file.fsize then Fail(EINVAL)
                             else Count(moved))
                && (size == 0 ==> reply == Count(0))
                && (size == 0 || !write ==> file.inode.data == was)
                && (size != 0 && write ==>
                      WriteAnswer(file, old(file.fsize), old(file.fpos), was, file.inode.data, offset,
                                  buffer[..size], outcomes, o, r, moved))
                && (!write ==> ReadEffect(buffer[..], old(buffer[..]), was, offset, moved))
                && (size != 0 && !write ==> ReadAnswer(file, old(file.fsize), was, offset, size, o, r, moved))
    {
      hide WriteAnswer, ReadAnswer;
      r, moved := EOK, 0;
      if offset < 0 {
        return Fail(EINVAL), r, 0;
      }
      if write && readOnly {
        return Fail(EROFS), r, 0;
      }
      var file := FileGet(fd);
      if file == null {
        return Fail(EBADF), r, 0;
      }
      if (write && file.access == ReadOnly) || (!write && file.access == WriteOnly) {
        return Fail(EBADF), r, 0;
      }
      var originalPosition := file.fpos;
      if originalPosition > INT64_MAX {
        return Fail(EOVERFLOW), r, 0;
      }

      var result, transferred := EOK, 0;
      if size != 0 {
        result, transferred := TransferAt(file, buffer, size, offset, write, outcomes, o);
      }
      r, moved := result, transferred;
      if size != 0 && write {
        WriteMoves(file, old(file.fsize), old(file.fpos), old(file.inode.data), file.inode.data, offset, buffer[..size],
                   outcomes, o, r, moved);
      } else if size != 0 {
        ReadMoves(file, old(file.fsize), file.inode.data, offset, size, o, r, moved);
      }
      var restoreResult := file.Fseek(originalPosition);
      if result != EOK {
        return Fail(result), r, moved;
      }
      if restoreResult != EOK {
        return Fail(restoreResult), r, moved;
      }
      return Count(transferred), r, moved;
    }
  }

  // ----- who may read and write -----

  /** A positioned write is refused for its descriptor exactly when a write is, and with
      the same error. */
  lemma RefusedLikeWrite(ctx: Context, fd: int, offset: nat)
    ensures var refusal := ctx.PositionedRefusal(fd, offset, true);
            && (refusal == Some(EROFS) || refusal == Some(EBADF) <==> ctx.WriteRefusal(fd).Some?)
            && (ctx.WriteRefusal(fd).Some? ==> refusal == ctx.WriteRefusal(fd))
            && (refusal == None <==> ctx.WriteRefusal(fd) == None && ctx.FileGet(fd).fpos <= 0x7FFF_FFFF_FFFF_FFFF)
  {
  }

  /** A positioned read is refused for its descriptor exactly when that names no file, or
      one opened for writing only; the volume being read-only does not matter. */
  lemma RefusedRead(ctx: Context, fd: int, offset: nat)
    ensures var refusal := ctx.PositionedRefusal(fd, offset, false);
            && (refusal == Some(EBADF) <==> ctx.FileGet(fd) == null || ctx.FileGet(fd).access == WriteOnly)
            && refusal != Some(EROFS) && refusal != Some(EINVAL)
            && (refusal == None <==>
                 && ctx.FileGet(fd) != null && ctx.FileGet(fd).access != WriteOnly
                 && ctx.FileGet(fd).fpos <= 0x7FFF_FFFF_FFFF_FFFF)
  {
  }

  /** What may not be written may be read, and the other way round. */
  lemma OpenForSomething(ctx: Context, fd: int, offset: nat)
    requires ctx.FileGet(fd) != null && !ctx.readOnly
    ensures ctx.WriteRefusal(fd).Some? ==> ctx.PositionedRefusal(fd, offset, false) != Some(EBADF)
    ensures ctx.PositionedRefusal(fd, offset, false) == Some(EBADF) ==> ctx.WriteRefusal(fd).None?
  {
  }

  // ----- positioned calls through stale handles -----

  /** Reading `limit` bytes at `offset` of a file of `size` bytes through a handle that
      takes it to be `fsize` long: what is reported and how much is read. */
  function ReadReply(fsize: nat, size: nat, offset: nat, limit: nat, o: Outcome): (Errno, nat) {
    if offset >= size then (EOK, 0)
    else if StaleRead(fsize, size, offset) then (EINVAL, 0)
    else (o.r, Min(o.limit, Min(limit, Max(Readable(fsize, size, o), offset) - offset)))
  }

  /** The offset is inside the file, but past where the handle takes its end to be. */
  predicate StaleRead(fsize: nat, size: nat, offset: nat) {
    fsize < offset < size
  }

  /** The same for a write; and past the end, where growth brings the handle up to
      date, the position to restore is beyond even the grown file. */
  predicate StaleWrite(fsize: nat, fpos: nat, size: nat, offset: nat) {
    if offset > size then fpos > offset else fsize < offset
  }

  /** Writing `limit` bytes at `offset` through such a handle at position `fpos`, once
      filling the gap has reported `grown`. */
  function WriteReply(fsize: nat, fpos: nat, size: nat, offset: nat, limit: nat, grown: Errno, o: Outcome): (Errno, nat)
  {
    if grown != EOK then (grown, 0)
    else if StaleWrite(fsize, fpos, size, offset) then (EINVAL, 0)
    else (o.r, Min(o.limit, limit))
  }

  /** POSIX has a read return all there is at the offset, up to the limit, when the core
      is willing to transfer that much. Whether or not the core refreshes the cached
      size, the code does so exactly when there is nothing to read, or the cached size
      does not lag behind, or the whole request lies within it. */
  lemma StaleReadWhole(fsize: nat, size: nat, offset: nat, limit: nat)
    ensures (forall o: Outcome :: o.r == EOK && o.limit >= limit ==>
               ReadReply(fsize, size, offset, limit, o)
               == (EOK, if offset >= size then 0 else Min(limit, size - offset)))
            <==> offset >= size || fsize >= size || offset + limit <= fsize
  {
    var o := Outcome(EOK, limit, false);
    assert o.r == EOK && o.limit >= limit;
    assert offset <= fsize < size ==> ReadReply(fsize, size, offset, limit, o).1 == Min(limit, fsize - offset);
    assert StaleRead(fsize, size, offset) ==> ReadReply(fsize, size, offset, limit, o).0 == EINVAL;
  }

  /** A transfer that fails is reported as a failure, and as its own where the call got
      as far as the transfer; only a read of nothing reports success. */
  lemma FailureReported(fsize: nat, fpos: nat, size: nat, offset: nat, limit: nat, grown: Errno, o: Outcome)
    requires o.r != EOK
    ensures ReadReply(fsize, size, offset, limit, o).0 == EOK <==> offset >= size
    ensures offset < size && offset <= fsize ==> ReadReply(fsize, size, offset, limit, o).0 == o.r
    ensures WriteReply(fsize, fpos, size, offset, limit, grown, o).0 != EOK
    ensures grown != EOK ==> WriteReply(fsize, fpos, size, offset, limit, grown, o) == (grown, 0)
    ensures grown == EOK && (if offset <= size then offset <= fsize else fpos <= offset) ==>
              WriteReply(fsize, fpos, size, offset, limit, grown, o).0 == o.r
  {
  }

  /** End of file in the middle of a file: the core does not refresh the size, and the
      read at ten of a file of twenty bytes succeeds with nothing. */
  lemma StaleReadEmpty()
    ensures ReadReply(10, 20, 10, 5, Outcome(EOK, 5, false)) == (EOK, 0)
  {
  }

  /** The same for a write whose gap, if there is one, could be filled. */
  lemma StaleWriteWhole(fsize: nat, fpos: nat, size: nat, offset: nat, limit: nat)
    ensures (forall o: Outcome :: o.r == EOK && o.limit >= limit ==>
               WriteReply(fsize, fpos, size, offset, limit, EOK, o) == (EOK, limit))
            <==> if offset <= size then offset <= fsize else fpos <= offset
  {
    var o := Outcome(EOK, limit, true);
    assert o.r == EOK && o.limit >= limit;
    assert StaleWrite(fsize, fpos, size, offset) ==>
        WriteReply(fsize, fpos, size, offset, limit, EOK, o).0 == EINVAL;
  }

  /** Both ways to be refused: a handle that takes a file of twenty bytes to have ten
      cannot write at fifteen; and one at position thirty of a file that was cut to ten
      cannot either, although the gap up to fifteen has been filled by then. */
  lemma StaleWriteRefused(limit: nat, o: Outcome)
    ensures WriteReply(10, 0, 20, 15, limit, EOK, o) == (EINVAL, 0)
    ensures WriteReply(30, 30, 10, 15, limit, EOK, o) == (EINVAL, 0)
  {
  }

  /** The error code alone: POSIX lets a read inside the file fail only when the
      transfer fails; the code meets this exactly when the offset is within the cached
      size or at or past the inode's end. */
  lemma StaleReadExact(fsize: nat, size: nat, offset: nat, limit: nat)
    ensures (forall o: Outcome :: o.r == EOK ==> ReadReply(fsize, size, offset, limit, o).0 == EOK)
            <==> offset <= fsize || offset >= size
  {
    var o := Outcome(EOK, limit, true);
    assert o.r == EOK;
    assert StaleRead(fsize, size, offset) ==> ReadReply(fsize, size, offset, limit, o).0 == EINVAL;
  }

  /** A handle that takes a file of twenty bytes to have ten cannot read at fifteen,
      whatever the core would do. */
  lemma StaleReadRefused(limit: nat, o: Outcome)
    ensures ReadReply(10, 20, 15, limit, o) == (EINVAL, 0)
  {
  }

  /** Through a handle that is up to date every positioned call goes ahead, and a read
      that the core does in full returns all there is, up to the limit. */
  lemma CurrentGoesAhead(fpos: nat, size: nat, offset: nat, limit: nat, o: Outcome)
    requires fpos <= size
    ensures !StaleRead(size, size, offset) && !StaleWrite(size, fpos, size, offset)
    ensures offset <= size && o.limit >= limit ==>
              ReadReply(size, size, offset, limit, o).1 == Min(limit, size - offset)
  {
  }

  lemma PwritePadded(d: seq<Byte>, at: nat, b: seq<Byte>)
    ensures Pwrite(Padded(d, at), at, b) == Pwrite(d, at, b)
    ensures |d| <= |Pwrite(d, at, b)|
  {
  }

  lemma PaddedUp(d: seq<Byte>, n: nat)
    requires |d| <= n
    ensures Padded(d, n) == d + ZeroBytes(n - |d|)
  {
  }

  lemma PaddedEnough(d: seq<Byte>, n: nat)
    ensures n <= |d| ==> Padded(d, n) == d
  {
  }

  lemma ResizedUp(d: seq<Byte>, n: nat)
    requires |d| <= n
    ensures Resized(d, n) == Padded(d, n)
  {
    assert d[..|d|] == d;
  }

  /** `count` bytes of the file from `offset` on are at the start of the buffer, and
      the rest of the buffer is as it was. */
  ghost predicate ReadEffect(buffer: seq<Byte>, was: seq<Byte>, d: seq<Byte>, offset: nat, count: nat) {
    && count <= |buffer| == |was|
    && (count > 0 ==> offset + count <= |d|)
    && (forall i :: 0 <= i < count ==> buffer[i] == d[offset + i])
    && (forall i :: count <= i < |buffer| ==> buffer[i] == was[i])
  }

  // ----- runs -----

  datatype Event =
    | Append(fd: int, bytes: seq<Byte>, o: Outcome)
    | Seek(fd: int, offset: int)
    | Relink(names: map<string, Inode>)

  /** What one event added to which file. */
  datatype Entry = Nothing | Added(inode: Inode, bytes: seq<Byte>)

  ghost function AddedTo(log: seq<Entry>, inode: Inode?): seq<Byte> {
    if log == [] then []
    else
      var last := log[|log| - 1];
      AddedTo(log[..|log| - 1], inode) + (if last.Added? && last.inode == inode then last.bytes else [])
  }

  lemma AddedSnoc(log: seq<Entry>, e: Entry, inode: Inode?)
    ensures AddedTo(log + [e], inode) ==
              AddedTo(log, inode) + (if e.Added? && e.inode == inode then e.bytes else [])
  {
    assert (log + [e])[..|log|] == log;
  }

  /** Where the paths lead after some events. */
  ghost function NamesAfter(names: map<string, Inode>, events: seq<Event>): map<string, Inode> {
    if events == [] then names
    else
      var last := events[|events| - 1];
      if last.Relink? then last.names else NamesAfter(names, events[..|events| - 1])
  }

  /** The file an append goes to. */
  ghost function Target(ctx: Context, event: Event): Inode?
    reads ctx`files
  {
    if event.Append? && ctx.FileGet(event.fd) != null then ctx.FileGet(event.fd).inode else null
  }

  ghost function SizeOf(inode: Inode?): nat
    reads inode
  {
    if inode == null then 0 else |inode.data|
  }

  /** What an event answers and adds when the paths lead where `names` says and the
      file appended to has `size` bytes. An append is accepted, with as many of its bytes
      as one call can report and the core will take, unless the volume or the handle is read-only, the path leads
      elsewhere, or the size cannot be expressed; then nothing is added. */
  ghost predicate Explains(ctx: Context, names: map<string, Inode>, size: nat, event: Event, reply: Reply, entry: Entry)
    reads ctx`files
  {
    match event
    case Append(fd, bytes, o) =>
      var file := ctx.FileGet(fd);
      if ctx.readOnly then reply == Fail(EROFS) && entry == Nothing
      else if file == null || file.access == ReadOnly then reply == Fail(EBADF) && entry == Nothing
      else if LinkCheck(names, file) != EOK then reply == Fail(LinkCheck(names, file)) && entry == Nothing
      else if size > INT64_MAX then reply == Fail(EOVERFLOW) && entry == Nothing
      else
        && entry.Added? && entry.inode == file.inode
        && Least(|entry.bytes|, |bytes|, ctx.ssizeMax, o.limit) && entry.bytes == bytes[..|entry.bytes|]
        && reply == (if o.r == EOK then Count(|entry.bytes|) else Fail(o.r))
    case Seek(fd, offset) =>
      && entry == Nothing
      && (if ctx.FileGet(fd) == null then reply == Fail(EBADF)
          else if offset < 0 then reply == Fail(EINVAL)
          else if offset > INT64_MAX then reply in {Fail(EINVAL), Fail(EOVERFLOW)}
          else reply in {Fail(EINVAL), Count(offset)})
    case Relink(_) => entry == Nothing && reply == Count(0)
  }

  ghost function OpenHandles(ctx: Context): set<Handle>
    reads ctx`files
  {
    set h: Handle | h in ctx.files
  }

  ghost function OpenInodes(ctx: Context): set<Inode>
    reads ctx`files
  {
    set h: Handle | h in OpenHandles(ctx) :: h.inode
  }

  lemma OpenFile(ctx: Context, fd: int)
    requires ctx.FileGet(fd) != null
    ensures ctx.FileGet(fd) in OpenHandles(ctx) && ctx.FileGet(fd).inode in OpenInodes(ctx)
  {
    assert ctx.files[fd] in ctx.files;
  }

  /** One event: only the file it names grows, by exactly its entry. */
  method HandleEvent(ctx: Context, event: Event) returns (reply: Reply, ghost entry: Entry)
    requires forall h :: h in OpenHandles(ctx) ==> h.append
    modifies ctx`names, OpenHandles(ctx), OpenInodes(ctx)
    ensures Explains(ctx, old(ctx.names), old(SizeOf(Target(ctx, event))), event, reply, entry)
    ensures ctx.names == if event.Relink? then event.names else old(ctx.names)
    ensures forall inode :: inode in OpenInodes(ctx) ==>
              inode.data == old(inode.data) + (if entry.Added? && entry.inode == inode then entry.bytes else [])
  {
    reply, entry := Count(0), Nothing;
    match event {
      case Append(fd, bytes, o) =>
        ghost var file := ctx.FileGet(fd);
        if file != null {
          OpenFile(ctx, fd);
        }
        ghost var refused := ctx.WriteRefusal(fd).Some? || ctx.AppendCheck(file) != EOK;
        ghost var taken;
        reply, taken := ctx.Write(fd, bytes, o);
        if !refused {
          entry := Added(file.inode, bytes[..taken]);
        }
      case Seek(fd, offset) =>
        var file := ctx.FileGet(fd);
        if file == null {
          return Fail(EBADF), Nothing;
        }
        OpenFile(ctx, fd);
        var r := file.Fseek(offset);
        reply := if r != EOK then Fail(r) else if file.fpos > INT64_MAX then Fail(EOVERFLOW) else Count(file.fpos);
      case Relink(names) =>
        ctx.names := names;
    }
  }

  lemma NamesSnoc(names: map<string, Inode>, events: seq<Event>, k: nat)
    requires k < |events|
    ensures NamesAfter(names, events[..k + 1]) ==
              if events[k].Relink? then events[k].names else NamesAfter(names, events[..k])
  {
    assert events[..k + 1][..k] == events[..k];
  }

  lemma TargetOpen(ctx: Context, event: Event)
    ensures Target(ctx, event) != null ==> Target(ctx, event) in OpenInodes(ctx)
  {
    if Target(ctx, event) != null {
      OpenFile(ctx, event.fd);
    }
  }

  /** How long the files appended to are at one moment. */
  ghost function Sizes(ctx: Context, events: seq<Event>): (sizes: seq<nat>)
    reads ctx`files, OpenInodes(ctx)
    ensures |sizes| == |events| && forall k :: 0 <= k < |events| ==> sizes[k] == SizeOf(Target(ctx, events[k]))
  {
    if events == [] then []
    else
      var last := events[|events| - 1];
      TargetOpen(ctx, last);
      Sizes(ctx, events[..|events| - 1]) + [SizeOf(Target(ctx, last))]
  }

  /** Every answer of a run is the one that where the paths lead by then, and what the
      file has grown to by then, call for. */
  ghost predicate Explained(ctx: Context, names: map<string, Inode>, sizes: seq<nat>, events: seq<Event>,
                            replies: seq<Reply>, log: seq<Entry>)
    requires |replies| == |log| <= |events| == |sizes|
    reads ctx`files
  {
    forall k :: 0 <= k < |log| ==>
      Explains(ctx, NamesAfter(names, events[..k]), sizes[k] + |AddedTo(log[..k], Target(ctx, events[k]))|,
               events[k], replies[k], log[k])
  }

  lemma ExplainedSnoc(ctx: Context, names: map<string, Inode>, sizes: seq<nat>, events: seq<Event>,
                      replies: seq<Reply>, log: seq<Entry>, reply: Reply, entry: Entry)
    requires |replies| == |log| < |events| == |sizes| && Explained(ctx, names, sizes, events, replies, log)
    requires var k := |log|;
             Explains(ctx, NamesAfter(names, events[..k]), sizes[k] + |AddedTo(log, Target(ctx, events[k]))|,
                      events[k], reply, entry)
    ensures Explained(ctx, names, sizes, events, replies + [reply], log + [entry])
  {
    hide Explains, NamesAfter, AddedTo;
    var log' := log + [entry];
    assert log'[..|log|] == log;
    forall k | 0 <= k < |log|
      ensures log'[..k] == log[..k]
    {
    }
  }

  /** Any sequence of appends, seeks and renames, through any of the open handles on
      any of the inodes, in the order the lock admits them: each file is what it was
      followed by what each append added to it, and each append is accepted or refused
      by where its path leads by then and how long its file has become. Nothing is
      assumed about what the handles have cached. */
  method AppendRun(ctx: Context, events: seq<Event>) returns (replies: seq<Reply>, ghost log: seq<Entry>)
    requires forall h :: h in OpenHandles(ctx) ==> h.append
    modifies ctx`names, OpenHandles(ctx), OpenInodes(ctx)
    ensures |replies| == |log| == |events|
    ensures Explained(ctx, old(ctx.names), old(Sizes(ctx, events)), events, replies, log)
    ensures ctx.names == NamesAfter(old(ctx.names), events)
    ensures forall inode :: inode in OpenInodes(ctx) ==> inode.data == old(inode.data) + AddedTo(log, inode)
  {
    hide Explains, Explained, NamesAfter, AddedTo, Sizes;
    replies, log := [], [];
    ghost var names, sizes := ctx.names, Sizes(ctx, events);
    NothingYet(ctx, names, sizes, events);
    for k := 0 to |events|
      invariant ctx.files == old(ctx.files)
      invariant |replies| == |log| == k
      invariant ctx.names == NamesAfter(names, events[..k])
      invariant Explained(ctx, names, sizes, events, replies, log)
      invariant forall inode :: inode in OpenInodes(ctx) ==> inode.data == old(inode.data) + AddedTo(log, inode)
    {
    label Before:
      TargetOpen(ctx, events[k]);
      NothingToNone(log);
      NamesSnoc(names, events, k);
      assert SizeOf(Target(ctx, events[k])) == sizes[k] + |AddedTo(log, Target(ctx, events[k]))|;
      var reply;
      ghost var entry;
      reply, entry := HandleEvent(ctx, events[k]);
      ExplainedSnoc(ctx, names, sizes, events, replies, log, reply, entry);
      forall inode | inode in OpenInodes(ctx)
        ensures inode.data == old(inode.data) + AddedTo(log + [entry], inode)
      {
        AddedSnoc(log, entry, inode);
        ghost var added := if entry.Added? && entry.inode == inode then entry.bytes else [];
        assert inode.data == old@Before(inode.data) + added;
      }
      log := log + [entry];
      replies := replies + [reply];
    }
    assert events[..|events|] == events;
  }

  lemma NothingYet(ctx: Context, names: map<string, Inode>, sizes: seq<nat>, events: seq<Event>)
    requires |sizes| == |events|
    ensures NamesAfter(names, events[..0]) == names && Explained(ctx, names, sizes, events, [], [])
    ensures forall inode: Inode? :: AddedTo([], inode) == []
  {
  }

  lemma {:induction false} NothingToNone(log: seq<Entry>)
    ensures AddedTo(log, null) == []
  {
    if log != [] {
      NothingToNone(log[..|log| - 1]);
    }
  }
}
