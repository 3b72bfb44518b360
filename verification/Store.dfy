/** The simulated store below the sanitizer: one file with a write-back cache over its media,
    and the system calls that act on it. Every call may fail, and writes may be cut short,
    by a nondeterministic choice of the kernel. */
module Store {
  import opened Bytes

  datatype WriteOutcome =
    | Wrote(count: nat)   // at least one byte was taken
    | Interrupted         // -1 with EINTR
    | Refused             // 0, or -1 with any other error

  /** The environment's choice of a number from 0 to `limit`. */
  method AnyCount(limit: nat) returns (count: nat)
    ensures count <= limit
  {
    count := *;
    if !(0 <= count <= limit) { count := limit; }
  }

  /** The environment's choice of `n` bytes. */
  method AnyBytes(n: nat) returns (bytes: seq<Byte>)
    ensures |bytes| == n
  {
    bytes := *;
    if |bytes| != n { bytes := seq(n, _ => 0); }
  }

  class File {
    var cache: seq<Byte>    // what a read sees, over all allocated bytes
    var media: seq<Byte>    // what the medium holds at the same offsets
    var length: nat         // logical size
    var pos: nat            // offset of the open descriptor
    var interrupts: nat     // EINTRs the kernel will still deliver
    ghost var faults: nat          // failed calls so far, EINTR not counted
    ghost var failedShrinks: nat   // failed calls that would have shortened the file
    ghost var punches: nat         // discards accepted so far
    ghost var lastMedia: seq<Byte> // the medium when the last accepted discard began

    ghost predicate Valid()
      reads this
    {
      |cache| == |media| && length <= |cache|
    }

    ghost function Payload(): (s: seq<Byte>)
      requires Valid()
      reads this
    {
      cache[..length]
    }

    /** The medium agrees with the cache below `end`. */
    ghost predicate OnMedia(end: nat)
      reads this
    {
      end <= |cache| && end <= |media| && media[..end] == cache[..end]
    }

    /** Background write-back: any set of bytes may reach the medium at any time. */
    method WriteBack()
      requires |cache| == |media|
      modifies this`media
      ensures |media| == |cache|
      ensures forall i :: 0 <= i < |media| ==> media[i] == old(media)[i] || media[i] == cache[i]
    {
      var m: seq<Byte> := *;
      if |m| == |cache| && forall i :: 0 <= i < |m| ==> m[i] == media[i] || m[i] == cache[i] {
        media := m;
      }
    }

    method Seek(offset: nat) returns (ok: bool)
      modifies this`pos, this`faults
      ensures ok ==> pos == offset && faults == old(faults)
      ensures !ok ==> pos == old(pos) && faults == old(faults) + 1
    {
      ok := *;
      if ok { pos := offset; } else { faults := faults + 1; }
    }

    /** write(2) within the file: the kernel takes any non-empty prefix of the data. */
    method Write(data: seq<Byte>) returns (w: WriteOutcome)
      requires Valid() && 0 < |data| && pos + |data| <= length
      modifies this`cache, this`media, this`pos, this`interrupts, this`faults
      ensures Valid()
      ensures w.Wrote? ==> 0 < w.count <= |data| && pos == old(pos) + w.count
      ensures w.Wrote? ==> cache == Overlay(old(cache), old(pos), data[..w.count])
      ensures !w.Wrote? ==> pos == old(pos) && cache == old(cache) && media == old(media)
      ensures forall i :: 0 <= i < |media| ==> media[i] == old(media)[i] || media[i] == cache[i]
      ensures w.Interrupted? ==> old(interrupts) > 0
      ensures interrupts == old(interrupts) - if w.Interrupted? then 1 else 0
      ensures faults == old(faults) + if w.Refused? then 1 else 0
    {
      var count := AnyCount(|data|);
      if count > 0 {
        cache := Overlay(cache, pos, data[..count]);
        pos := pos + count;
        WriteBack();
        w := Wrote(count);
      } else {
        var eintr: bool := *;
        if eintr && interrupts > 0 {
          interrupts := interrupts - 1;
          w := Interrupted;
        } else {
          faults := faults + 1;
          w := Refused;
        }
      }
    }

    /** WriteFile of Win32: its byte count is a 32-bit DWORD; there is no EINTR; it may fail, or
        succeed with any count, even 0. */
    method WriteFile(data: seq<Byte>) returns (ok: bool, written: nat)
      requires Valid() && pos + |data| <= length && |data| < 0x1_0000_0000
      modifies this`cache, this`media, this`pos, this`faults
      ensures Valid()
      ensures written <= |data| && pos == old(pos) + written
      ensures written > 0 ==> cache == Overlay(old(cache), old(pos), data[..written])
      ensures !ok ==> written == 0
      ensures written == 0 ==> cache == old(cache) && media == old(media)
      ensures forall i :: 0 <= i < |media| ==> media[i] == old(media)[i] || media[i] == cache[i]
      ensures faults == old(faults) + if written > 0 then 0 else 1
    {
      written := AnyCount(|data|);
      if written > 0 {
        cache := Overlay(cache, pos, data[..written]);
        pos := pos + written;
        WriteBack();
        ok := true;
      } else {
        faults := faults + 1;
        ok := *;
      }
    }

    /** ftruncate(2) and SetEndOfFile. Growing exposes bytes of unknown content; shrinking
        changes the size and leaves every byte where it is. */
    method Truncate(size: nat) returns (ok: bool)
      requires Valid()
      modifies this`cache, this`media, this`length, this`faults, this`failedShrinks
      ensures Valid()
      ensures length == if ok then size else old(length)
      ensures faults == old(faults) + if ok then 0 else 1
      ensures failedShrinks == old(failedShrinks) + if !ok && size < old(length) then 1 else 0
      ensures !ok || size <= old(length) ==> cache == old(cache)
      ensures ok ==> |cache| == Max(|old(cache)|, size)
      ensures ok ==> forall i :: 0 <= i < |old(cache)| && !(old(length) <= i < size) ==> cache[i] == old(cache)[i]
      ensures |old(media)| <= |media|
      ensures forall i :: 0 <= i < |old(media)| && cache[i] == old(cache)[i] ==>
                media[i] == old(media)[i] || media[i] == cache[i]
    {
      ok := *;
      if !ok {
        faults := faults + 1;
        failedShrinks := failedShrinks + if size < length then 1 else 0;
      } else {
        if size > length {
          var exposed := AnyBytes(size - length);
          var added := AnyBytes(Max(|cache|, size) - |cache|);
          cache := cache[..length] + exposed + if size < |cache| then cache[size..] else [];
          media := media + added;
        }
        length := size;
      }
      WriteBack();
    }

    /** fdatasync(2) and FlushFileBuffers. */
    method Sync() returns (ok: bool)
      requires Valid()
      modifies this`media, this`faults
      ensures Valid()
      ensures ok ==> OnMedia(length)
      ensures forall i :: 0 <= i < |media| ==> media[i] == old(media)[i] || media[i] == cache[i]
      ensures faults == old(faults) + if ok then 0 else 1
    {
      ok := *;
      if ok { media := cache[..length] + media[length..]; } else { faults := faults + 1; }
      label before:
      WriteBack();
      assert ok ==> forall i :: 0 <= i < length ==> old@before(media)[i] == cache[i];
    }

    /** fallocate(PUNCH_HOLE | KEEP_SIZE) and FSCTL_SET_ZERO_DATA: the first `end` bytes read
        as zero afterwards; the medium's released blocks hold anything. */
    method PunchHole(end: nat) returns (ok: bool)
      requires Valid()
      modifies this`cache, this`media, this`faults, this`punches, this`lastMedia
      ensures Valid() && |cache| == |old(cache)|
      ensures if ok then lastMedia == old(media) else media == old(media) && lastMedia == old(lastMedia)
      ensures punches == old(punches) + if ok then 1 else 0
      ensures faults == old(faults) + if ok then 0 else 1
      ensures !ok ==> cache == old(cache)
      ensures ok ==> forall i :: 0 <= i < |cache| ==> cache[i] == if i < end then 0 else old(cache)[i]
    {
      ok := *;
      if ok {
        var before := cache;
        lastMedia := media;
        cache := seq(|before|, i requires 0 <= i < |before| => if i < end then 0 else before[i]);
        media := AnyBytes(|cache|);
        punches := punches + 1;
      } else {
        faults := faults + 1;
      }
    }

    /** A call on the way to one of the above that may simply fail: open, fstat and the like. */
    method Attempt() returns (ok: bool)
      modifies this`faults
      ensures faults == old(faults) + if ok then 0 else 1
    {
      ok := *;
      if !ok { faults := faults + 1; }
    }
  }

  /** The output side of std::fstream: bytes wait in a user-space buffer, and any prefix of
      them may reach the file at any moment, so a failing call can tear a write anywhere. */
  class OutStream {
    const file: File
    var pending: seq<Byte>   // accepted by the stream, not yet handed to the file
    var at: nat              // file offset of the first pending byte
    var failed: bool

    ghost predicate Valid()
      reads this, file
    {
      file.Valid() && at + |pending| <= file.length
    }

    constructor (file: File)
      requires file.Valid()
      ensures this.file == file && pending == [] && at == 0 && !failed
      ensures Valid()
    {
      this.file := file;
      pending, at, failed := [], 0, false;
    }

    /** Hand the first `count` pending bytes to the file. */
    method Drain(count: nat)
      requires Valid() && count <= |pending|
      modifies this`pending, this`at, file`cache, file`media
      ensures Valid()
      ensures at == old(at) + count && pending == old(pending)[count..]
      ensures file.cache == Overlay(old(file.cache), old(at), old(pending)[..count])
    {
      file.cache := Overlay(file.cache, at, pending[..count]);
      file.WriteBack();
      at, pending := at + count, pending[count..];
    }

    method SeekBegin() returns (ok: bool)
      requires Valid() && pending == []
      modifies this`at, this`failed, file`faults
      ensures Valid()
      ensures ok ==> at == 0 && failed == old(failed) && !failed
      ensures !ok ==> at == old(at) && failed
      ensures !old(failed) ==> file.faults == old(file.faults) + if ok then 0 else 1
    {
      ok := *;
      if failed || !ok {
        if !failed { file.faults := file.faults + 1; }
        ok, failed := false, true;
      } else {
        at := 0;
      }
    }

    method Write(data: seq<Byte>) returns (ok: bool)
      requires Valid() && !failed && at + |pending| + |data| <= file.length
      modifies this`pending, this`at, this`failed, file`cache, file`media, file`faults
      ensures Valid() && failed == !ok
      ensures file.faults == old(file.faults) + if ok then 0 else 1
      ensures old(at) <= at && at + |pending| == old(at) + |old(pending)| + |data|
      ensures pending == (old(pending) + data)[at - old(at)..]
      ensures file.cache == Overlay(old(file.cache), old(at), (old(pending) + data)[..at - old(at)])
    {
      pending := pending + data;
      var count := AnyCount(|pending|);
      Drain(count);
      ok := *;
      if !ok {
        failed := true;
        file.faults := file.faults + 1;
      }
    }

    method Flush() returns (ok: bool)
      requires Valid() && !failed
      modifies this`pending, this`at, this`failed, file`cache, file`media, file`faults
      ensures Valid() && failed == !ok
      ensures ok ==> pending == []
      ensures file.faults == old(file.faults) + if ok then 0 else 1
      ensures old(at) <= at && at + |pending| == old(at) + |old(pending)|
      ensures pending == old(pending)[at - old(at)..]
      ensures file.cache == Overlay(old(file.cache), old(at), old(pending)[..at - old(at)])
    {
      ok := *;
      if ok {
        Drain(|pending|);
      } else {
        var count := AnyCount(|pending|);
        Drain(count);
        failed := true;
        file.faults := file.faults + 1;
      }
    }

    /** close() and the destructor: what is still pending may or may not reach the file. */
    method Close()
      requires Valid()
      modifies this`pending, this`at, file`cache, file`media
      ensures Valid()
      ensures old(at) <= at <= old(at) + |old(pending)|
      ensures pending == old(pending)[at - old(at)..]
      ensures file.cache == Overlay(old(file.cache), old(at), old(pending)[..at - old(at)])
    {
      var count := AnyCount(|pending|);
      Drain(count);
    }
  }

  /** What the outside world lets one read session see. */
  datatype ReadFaults = ReadFaults(opens: bool, readable: nat)
  {
    function Visible(content: seq<Byte>): (s: seq<Byte>) {
      content[..Min(readable, |content|)]
    }
  }

  /** std::ifstream: bytes arrive in order; the first short read sets the fail state and every
      later read delivers nothing. */
  class InStream {
    const visible: seq<Byte>
    var at: nat
    var failed: bool

    ghost predicate Valid()
      reads this
    {
      at <= |visible|
    }

    constructor (content: seq<Byte>, faults: ReadFaults)
      ensures Valid() && at == 0 && !failed && visible == faults.Visible(content)
    {
      visible, at, failed := faults.Visible(content), 0, false;
    }

    /** read() followed by gcount(). */
    method Read(buffer: array<Byte>, wanted: nat) returns (count: nat)
      requires Valid() && wanted <= buffer.Length
      modifies this`at, this`failed, buffer
      ensures Valid() && at == old(at) + count
      ensures count == if old(failed) then 0 else Min(wanted, |visible| - old(at))
      ensures failed <==> old(failed) || count < wanted
      ensures buffer[..count] == visible[old(at)..at]
    {
      count := if failed then 0 else Min(wanted, |visible| - at);
      for i := 0 to count
        modifies buffer
        invariant forall j :: 0 <= j < i ==> buffer[j] == visible[at + j]
      {
        buffer[i] := visible[at + i];
      }
      at, failed := at + count, failed || count < wanted;
    }
  }
}
