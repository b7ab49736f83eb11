/**
 The two storage objects; each method does to the abstract body what BodyStorage says.
 */
module BodyStores {
  import opened Basics
  import opened BodyStorage

  /** The process-wide usage counters. */
  class CacheStats {
    var usage: Usage

    constructor ()
      ensures usage == Usage(0, 0, 0, 0)
    {
      usage := Usage(0, 0, 0, 0);
    }

    method Increment(disk: bool, size: int)
      modifies this
      ensures usage == Opened(old(usage), disk, size)
    {
      if disk {
        usage := usage.(diskFiles := usage.diskFiles + 1);
        usage := usage.(diskBytes := usage.diskBytes + size);
      } else {
        usage := usage.(memoryBuffers := usage.memoryBuffers + 1);
        usage := usage.(memoryBytes := usage.memoryBytes + size);
      }
    }

    method Decrement(disk: bool, size: int)
      modifies this
      ensures usage == Released(old(usage), disk, size)
    {
      if disk {
        usage := usage.(diskFiles := usage.diskFiles - 1);
        if usage.diskFiles < 0 {
          usage := usage.(diskFiles := 0);
        }
        usage := usage.(diskBytes := usage.diskBytes - size);
        if usage.diskBytes < 0 {
          usage := usage.(diskBytes := 0);
        }
      } else {
        usage := usage.(memoryBuffers := usage.memoryBuffers - 1);
        usage := usage.(memoryBytes := usage.memoryBytes - size);
      }
    }
  }

  /** An open file, or a reader over bytes: contents that do not change and a position that does. */
  class Cursor {
    const contents: Bytes
    var pos: nat

    constructor (contents: Bytes)
      ensures this.contents == contents && pos == 0
    {
      this.contents, pos := contents, 0;
    }

    /** The next bytes, at most n of them; the caller has ruled out the end. */
    method Next(n: nat) returns (chunk: Bytes)
      requires pos < |contents|
      modifies this
      ensures (Body(contents, pos, false), Ok(chunk)) == Take(Body(contents, old(pos), false), n)
    {
      var end := Min(pos + n, |contents|);
      chunk := contents[pos..end];
      pos := end;
    }

    method Seek(offset: int, whence: int) returns (r: Outcome<int>)
      modifies this
      ensures (Body(contents, pos, false), r) == SeekTo(Body(contents, old(pos), false), offset, whence)
    {
      if !KnownWhence(whence) {
        return BadSeek;
      }
      var target := offset + if whence == SEEK_START then 0 else if whence == SEEK_CURRENT then pos else |contents|;
      if target < 0 {
        return BadSeek;
      }
      pos := target;
      return Ok(target);
    }
  }

  class MemoryStorage {
    const data: Bytes
    const reader: Cursor
    const size: int
    const stats: CacheStats
    var closed: bool

    ghost predicate Valid() {
      reader.contents == data && size == |data|
    }

    ghost function View(): Body
      reads this, reader
    {
      Body(data, reader.pos, closed)
    }

    constructor (data: Bytes, stats: CacheStats)
      modifies stats
      ensures Valid() && View() == Body(data, 0, false) && this.stats == stats && fresh(reader)
      ensures stats.usage == Opened(old(stats.usage), false, |data|)
    {
      this.data, this.stats, size, closed := data, stats, |data|, false;
      reader := new Cursor(data);
      new;
      stats.Increment(false, size);
    }

    method Read(n: nat) returns (r: Outcome<Bytes>)
      requires Valid()
      modifies reader
      ensures (View(), r) == MemoryRead(old(View()), n)
    {
      if closed {
        return Closed;
      }
      if reader.pos >= |reader.contents| {
        return Eof;
      }
      var chunk := reader.Next(n);
      return Ok(chunk);
    }

    method Seek(offset: int, whence: int) returns (r: Outcome<int>)
      requires Valid()
      modifies reader
      ensures (View(), r) == SeekTo(old(View()), offset, whence)
    {
      if closed {
        return Closed;
      }
      r := reader.Seek(offset, whence);
    }

    /** Hands out the contents without touching the cursor. */
    method Bytes() returns (r: Outcome<Bytes>)
      requires Valid()
      ensures r == AllBytes(View())
    {
      return if closed then Closed else Ok(data);
    }

    /** A cursor of its own, at the start. */
    method NewReader() returns (r: Outcome<Cursor>)
      requires Valid()
      ensures if closed then r == Closed else r.Ok? && fresh(r.value) && r.value.contents == data && r.value.pos == 0
    {
      if closed {
        return Closed;
      }
      var c := new Cursor(data);
      return Ok(c);
    }

    method Close()
      requires Valid()
      modifies this`closed, stats
      ensures View() == old(View()).(closed := true)
      ensures stats.usage == if old(closed) then old(stats.usage) else Released(old(stats.usage), false, size)
    {
      if !closed {
        closed := true;
        stats.Decrement(false, size);
      }
    }
  }

  class DiskStorage {
    const file: Cursor
    const size: int
    const stats: CacheStats
    var closed: bool

    ghost predicate Valid() {
      size == |file.contents|
    }

    ghost function View(): Body
      reads this, file
    {
      Body(file.contents, file.pos, closed)
    }

    constructor (data: Bytes, stats: CacheStats)
      modifies stats
      ensures Valid() && View() == Body(data, 0, false) && this.stats == stats && fresh(file)
      ensures stats.usage == Opened(old(stats.usage), true, |data|)
    {
      this.stats, size, closed := stats, |data|, false;
      file := new Cursor(data);
      new;
      stats.Increment(true, size);
    }

    method Read(n: nat) returns (r: Outcome<Bytes>)
      requires Valid()
      modifies file
      ensures (View(), r) == DiskRead(old(View()), n)
    {
      if closed {
        return Closed;
      }
      if n == 0 {
        return Ok([]);
      }
      if file.pos >= |file.contents| {
        return Eof;
      }
      var chunk := file.Next(n);
      return Ok(chunk);
    }

    /** kernel says what the system does with a whence of its own. */
    method Seek(offset: int, whence: int, kernel: Kernel) returns (r: Outcome<int>)
      requires Valid()
      modifies file
      ensures (View(), r) == DiskSeekTo(old(View()), offset, whence, kernel)
    {
      if closed {
        return Closed;
      }
      if !KnownWhence(whence) {
        var target := kernel(Body(file.contents, file.pos, false), offset, whence);
        if target.None? {
          return BadSeek;
        }
        file.pos := target.value;
        return Ok(target.value);
      }
      r := file.Seek(offset, whence);
    }

    /** Moves to the start, reads everything and moves back to where it was. */
    method Bytes() returns (r: Outcome<Bytes>)
      requires Valid()
      modifies file
      ensures r == AllBytes(View()) && View() == old(View())
    {
      if closed {
        return Closed;
      }
      var current := file.Seek(0, SEEK_CURRENT);
      var start := file.Seek(0, SEEK_START);
      var data: Basics.Bytes := [];
      if size > 0 {
        data := file.Next(size);
      }
      assert data == file.contents;
      var back := file.Seek(current.value, SEEK_START);
      return Ok(data);
    }

    /** A second descriptor on the same file; it keeps working after the storage is closed. */
    method NewReader() returns (r: Outcome<Cursor>)
      requires Valid()
      ensures if closed then r == Closed
              else r.Ok? && fresh(r.value) && r.value.contents == file.contents && r.value.pos == 0
    {
      if closed {
        return Closed;
      }
      var c := new Cursor(file.contents);
      return Ok(c);
    }

    method Close()
      requires Valid()
      modifies this`closed, stats
      ensures View() == old(View()).(closed := true)
      ensures stats.usage == if old(closed) then old(stats.usage) else Released(old(stats.usage), true, size)
    {
      if !closed {
        closed := true;
        stats.Decrement(true, size);
      }
    }
  }

  datatype Storage = InMemory(memory: MemoryStorage) | OnDisk(disk: DiskStorage)

  ghost predicate Holds(s: Storage, c: Created, stats: CacheStats)
    reads if s.InMemory? then {s.memory, s.memory.reader} else {s.disk, s.disk.file}
  {
    c.Stored? && s.OnDisk? == c.disk &&
    match s
    case InMemory(m) => m.Valid() && m.View() == Body(c.data, 0, false) && m.stats == stats
    case OnDisk(d) => d.Valid() && d.View() == Body(c.data, 0, false) && d.stats == stats
  }

  /** Falls back to memory when the disk fails. */
  method CreateBodyStorage(cfg: Config, data: Bytes, stats: CacheStats, diskFails: bool) returns (s: Storage)
    modifies stats
    ensures var c := CreateFrom(cfg, old(stats.usage), data, diskFails);
            Holds(s, c, stats) && stats.usage == Opened(old(stats.usage), c.disk, |data|)
  {
    if cfg.enabled && |data| >= cfg.threshold && Available(cfg, stats.usage, |data|) && !diskFails {
      var d := new DiskStorage(data, stats);
      return OnDisk(d);
    }
    var m := new MemoryStorage(data, stats);
    return InMemory(m);
  }

  datatype Creation = Success(storage: Storage) | Failure(why: Created)

  /** The reader is consumed up to one byte past the limit; a failing disk cannot fall back. */
  method CreateBodyStorageFromReader(cfg: Config, input: Bytes, contentLength: int, maxBytes: int,
                                     stats: CacheStats, diskFails: bool)
    returns (r: Creation)
    modifies stats
    ensures var c := CreateFromReader(cfg, old(stats.usage), input, contentLength, maxBytes, diskFails);
            if c.Stored? then r.Success? && Holds(r.storage, c, stats) &&
                              stats.usage == Opened(old(stats.usage), c.disk, |c.data|)
            else r == Failure(c) && stats.usage == old(stats.usage)
  {
    var data := Limited(input, Wrap64(maxBytes + 1));
    if cfg.enabled && contentLength > 0 && contentLength >= cfg.threshold &&
       Available(cfg, stats.usage, contentLength) {
      if diskFails {
        return Failure(DiskFailed);
      }
      if |data| > maxBytes {
        return Failure(TooLarge);
      }
      var d := new DiskStorage(data, stats);
      return Success(OnDisk(d));
    }
    if |data| > maxBytes {
      return Failure(TooLarge);
    }
    var s := CreateBodyStorage(cfg, data, stats, diskFails);
    return Success(s);
  }
}
