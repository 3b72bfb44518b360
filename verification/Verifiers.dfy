/** The two read-back verifiers of shred_file. */
module Verifiers {
  import opened Bytes
  import opened Powers
  import opened Entropy
  import opened Threshold
  import opened Store

  /** What a reader that wants `size` bytes gets to see. */
  function ReadPrefix(content: seq<Byte>, faults: ReadFaults, size: nat): (s: seq<Byte>)
    ensures |s| == Min(size, Min(faults.readable, |content|))
    ensures s <= content
  {
    faults.Visible(content)[..Min(size, |faults.Visible(content)|)]
  }

  /** verify_target_pattern: sound and complete, for any chunking of the file. */
  method VerifyTargetPattern(content: seq<Byte>, faults: ReadFaults, bufferSize: nat, size: nat, expected: Byte)
    returns (ok: bool)
    requires bufferSize > 0
    ensures ok <==> size == 0 || (faults.opens && size <= Min(faults.readable, |content|)
                                  && AllEqual(content[..size], expected))
  {
    if size == 0 { return true; }
    if !faults.opens { return false; }
    var input := new InStream(content, faults);
    var buffer := new Byte[bufferSize](_ => 0);
    var bytesChecked := 0;
    while bytesChecked < size
      invariant input.Valid() && input.at == bytesChecked <= size
      invariant input.failed ==> input.at == |input.visible|
      invariant forall i :: 0 <= i < bytesChecked ==> content[i] == expected
    {
      var toRead := Min(buffer.Length, size - bytesChecked);
      var bytesRead := input.Read(buffer, toRead);
      if bytesRead == 0 { break; }
      for i := 0 to bytesRead
        invariant forall j :: 0 <= j < bytesChecked + i ==> content[j] == expected
      {
        assert buffer[i] == buffer[..bytesRead][i] == content[bytesChecked + i];
        if buffer[i] != expected {
          return false;
        }
      }
      bytesChecked := bytesChecked + bytesRead;
    }
    return bytesChecked == size;
  }

  /** What verify_entropy decides: the threshold, on whatever part of the file could be read. */
  predicate PassesEntropy(content: seq<Byte>, faults: ReadFaults, size: nat) {
    var read := ReadPrefix(content, faults, size);
    size == 0 || (faults.opens && |read| > 0 && Accepts(read, size))
  }

  /** verify_entropy. The counts always describe exactly the prefix read so far, so the answer
      depends on that prefix alone and not on the chunking. `total` and `power` are the bytes read
      and the product of f^f over the counts: together they determine the entropy. */
  method VerifyEntropy(content: seq<Byte>, faults: ReadFaults, bufferSize: nat, size: nat)
    returns (ok: bool, total: nat, power: nat)
    requires bufferSize > 0
    ensures ok <==> PassesEntropy(content, faults, size)
    // the decision in terms of the entropy: exact, and on skewed reads
    ensures size > 0 && (!faults.opens || ReadPrefix(content, faults, size) == []) ==> !ok
    ensures var read := ReadPrefix(content, faults, size);
      size > 0 && faults.opens && |read| > 0 ==>
        && (!ok <==> exists scale, l :: EntropyUnder(read, size, scale, l))
        && (ok ==> forall b: Byte :: 2 * multiset(read)[b] < |read|)
        && (forall l :: Dyadic(read, l) ==>
              (ok <==> if size < 1024 then Weighted(Histogram(read), l) >= 7 * |read|
                       else 5 * Weighted(Histogram(read), l) >= 39 * |read|))
    ensures var read := ReadPrefix(content, faults, size);
      size > 0 && faults.opens ==> total == |read| && power == SelfPowers(Histogram(read))
  {
    if size == 0 { return true, 0, 1; }
    if !faults.opens { return false, 0, 1; }
    var frequencies: array<nat>;
    frequencies, total := CountBytes(content, faults, bufferSize, size);
    power := 1;
    if total == 0 {
      assert ReadPrefix(content, faults, size) == [];
      EmptyHistogram();
      return false, total, power;
    }
    for i := 0 to 256
      invariant power == SelfPowers(frequencies[..i])
    {
      assert frequencies[..i + 1][..i] == frequencies[..i];
      if frequencies[i] > 0 {
        power := power * Pow(frequencies[i], frequencies[i]);
      }
    }
    assert frequencies[..256] == frequencies[..];
    EntropyDecides(ReadPrefix(content, faults, size), size);
    ok := if size < 1024 then Pow(128, total) * power <= Pow(total, total)
          else Pow(2, 39 * total) * Pow(power, 5) <= Pow(total, 5 * total);
  }

  /** Acceptance certifies that the whole file was read exactly for files of at most 128 bytes. */
  lemma AcceptanceCertifiesFullReadIff(size: nat)
    ensures (forall content: seq<Byte>, faults: ReadFaults ::
               |content| == size && PassesEntropy(content, faults, size) ==>
                 ReadPrefix(content, faults, size) == content)
       <==> size <= 128
  {
    PartialReadAcceptedIff(size);
    if size > 128 {
      var content, faults := AcceptedPartialRead(size);
      assert |ReadPrefix(content, faults, size)| < |content|;
    }
    forall content: seq<Byte>, faults: ReadFaults |
      size <= 128 && |content| == size && PassesEntropy(content, faults, size)
      ensures ReadPrefix(content, faults, size) == content
    {
      var read := ReadPrefix(content, faults, size);
      if size > 0 && |read| < 128 { SmallReadRejected(read, size); }
    }
  }

  /** For every larger file, a content and a read session that breaks off early and is accepted. */
  lemma AcceptedPartialRead(size: nat) returns (content: seq<Byte>, faults: ReadFaults)
    requires size > 128
    ensures |content| == size && faults.opens && faults.readable < size
    ensures |ReadPrefix(content, faults, size)| < size && PassesEntropy(content, faults, size)
    ensures AllEqual(content[faults.readable..], 0)
  {
    var read := ShortRead(size);
    PartialReadAcceptedIff(size);
    var rest: seq<Byte> := seq(size - |read|, _ => 0);
    content, faults := read + rest, ReadFaults(true, |read|);
    assert ReadPrefix(content, faults, size) == read;
    assert content[|read|..] == rest;
  }

  /** The same on the code itself: verify_entropy returns true although all it did not read is zero. */
  method EntropyOverlooksUnreadZeros(size: nat, bufferSize: nat)
    returns (ok: bool, ghost content: seq<Byte>, ghost faults: ReadFaults)
    requires size > 128 && bufferSize > 0
    ensures ok && |content| == size && faults.opens && faults.readable < size
    ensures AllEqual(content[faults.readable..], 0)
  {
    var n := Variety(size);
    var c: seq<Byte> := Counting(n) + seq(size - n, _ => 0);
    var f := ReadFaults(true, n);
    content, faults := c, f;
    PartialReadAcceptedIff(size);
    assert ReadPrefix(c, f, size) == ShortRead(size);
    assert c[n..] == seq(size - n, _ => 0);
    var total, power;
    ok, total, power := VerifyEntropy(c, f, bufferSize, size);
  }

  lemma EmptyHistogram()
    ensures SelfPowers(Histogram([])) == 1
  {
    SelfPowersOfZeros(Histogram([]));
  }

  lemma {:induction false} SelfPowersOfZeros(h: seq<nat>)
    requires forall i :: 0 <= i < |h| ==> h[i] == 0
    ensures SelfPowers(h) == 1
  {
    if h != [] { SelfPowersOfZeros(h[..|h| - 1]); }
  }

  /** One chunk: the counts of `seen` become the counts of `seen` and the chunk. */
  method CountChunk(frequencies: array<nat>, buffer: array<Byte>, count: nat, ghost seen: seq<Byte>)
    requires count <= buffer.Length && frequencies[..] == Histogram(seen)
    modifies frequencies
    ensures frequencies[..] == Histogram(seen + buffer[..count])
  {
    assert seen + buffer[..0] == seen;
    ghost var bytes := buffer[..];
    for i := 0 to count
      invariant frequencies[..] == Histogram(seen + bytes[..i])
    {
      var b := buffer[i];
      assert seen + bytes[..i + 1] == seen + bytes[..i] + [b];
      HistogramGrows(seen + bytes[..i], b);
      frequencies[b] := frequencies[b] + 1;
    }
  }

  /** One round of the loop: read the next chunk and count it. */
  method CountNext(input: InStream, buffer: array<Byte>, frequencies: array<nat>, toRead: nat) returns (bytesRead: nat)
    requires input.Valid() && toRead <= buffer.Length
    requires frequencies[..] == Histogram(input.visible[..input.at])
    modifies input`at, input`failed, buffer, frequencies
    ensures input.Valid() && input.at == old(input.at) + bytesRead
    ensures bytesRead == if old(input.failed) then 0 else Min(toRead, |input.visible| - old(input.at))
    ensures input.failed <==> old(input.failed) || bytesRead < toRead
    ensures frequencies[..] == Histogram(input.visible[..input.at])
  {
    ghost var seen := input.visible[..input.at];
    bytesRead := input.Read(buffer, toRead);
    CountChunk(frequencies, buffer, bytesRead, seen);
    assert seen + buffer[..bytesRead] == input.visible[..input.at];
  }

  lemma PrefixRead(content: seq<Byte>, faults: ReadFaults, size: nat, total: nat)
    requires total == Min(size, |faults.Visible(content)|)
    ensures faults.Visible(content)[..total] == ReadPrefix(content, faults, size)
    ensures Sum(Histogram(ReadPrefix(content, faults, size))) == total
  {
    HistogramTotal(ReadPrefix(content, faults, size));
  }

  /** The histogram loop of verify_entropy. */
  method CountBytes(content: seq<Byte>, faults: ReadFaults, bufferSize: nat, size: nat)
    returns (frequencies: array<nat>, total: nat)
    requires bufferSize > 0
    ensures fresh(frequencies)
    ensures total == |ReadPrefix(content, faults, size)|
    ensures frequencies[..] == Histogram(ReadPrefix(content, faults, size)) && Sum(frequencies[..]) == total
  {
    frequencies := new nat[256](_ => 0);
    var input := new InStream(content, faults);
    var buffer := new Byte[bufferSize](_ => 0);
    total := 0;
    ghost var visible := input.visible;
    while total < size
      invariant fresh(frequencies) && fresh(input) && fresh(buffer)
      invariant input.Valid() && input.at == total <= size
      invariant input.failed ==> total == |visible|
      invariant frequencies[..] == Histogram(visible[..total])
    {
      var toRead := Min(buffer.Length, size - total);
      var bytesRead := CountNext(input, buffer, frequencies, toRead);
      if bytesRead == 0 { break; }
      total := total + bytesRead;
    }
    PrefixRead(content, faults, size, total);
  }
}
