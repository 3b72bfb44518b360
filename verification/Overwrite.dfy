/** The overwrite engine: execute_passes and its fill lambdas, against the closed forms of
    module Passes. */
module Overwrite {
  import opened Bytes
  import opened Division
  import opened Passes
  import opened Store

  /** std::shuffle: a swap loop with arbitrary choices. */
  method Shuffle(a: array<seq<Byte>>)
    modifies a
    ensures multiset(a[..]) == multiset(old(a[..]))
  {
    for i := 0 to a.Length
      invariant multiset(a[..]) == multiset(old(a[..]))
    {
      var j := AnyCount(i);
      a[i], a[j] := a[j], a[i];
    }
  }

  /** A byte of chunk q is the byte of chunk 0 of a generator that stands q chunks further. */
  lemma ChunkByte(f: Fill, q: nat, i: nat, b: nat, draws: Draws, base: nat)
    requires i < b && f.Proper()
    ensures ByteAt(f, q * b + i, b, draws, base)
         == ByteAt(f, i, b, draws, base + if f.Noise? then q * Words(b) else 0)
  {
    ChunkIndex(q, i, b);
    ChunkIndex(0, i, b);
  }

  /** Draws used by q whole chunks and a part of the next one. */
  lemma DrawsOfChunks(f: Fill, q: nat, i: nat, b: nat)
    requires 0 < b && i <= b
    ensures DrawsUsed(f, q * b + i, b) == if f.Noise? then q * Words(b) + Words(i) else 0
  {
    if i < b {
      ChunkIndex(q, i, b);
    } else {
      ChunkIndex(q + 1, 0, b);
      assert (q + 1) * b == q * b + b;
      assert (q + 1) * Words(b) == q * Words(b) + Words(b);
    }
  }

  lemma CounterStep(n: nat)
    ensures (n % TWO_TO_THE_32 + 1) % TWO_TO_THE_32 == (n + 1) % TWO_TO_THE_32
  {
  }

  /** The state that write_pass_internal and its callers capture: the stream, the reused buffer,
      the generator and the pass counter. */
  class PassWriter {
    const stream: OutStream
    const buffer: array<Byte>
    const size: nat
    const draws: Draws
    var next: nat                // draws taken so far
    var passesExecuted: Uint32
    ghost var done: nat          // passes completed, without wrap-around

    ghost predicate Valid()
      reads this, stream, stream.file
    {
      && stream.Valid()
      && stream.file.length == size
      && buffer.Length > 0
      && passesExecuted == done % TWO_TO_THE_32
    }

    /** k passes of the run are complete; `whole` is the allocated space when it began. */
    ghost predicate Completed(run: Run, k: nat, whole: seq<Byte>)
      reads this, stream, stream.file
    {
      && Valid()
      && run.Valid() && k <= |run.plan|
      && run.size == size <= |whole| && run.bufferSize == buffer.Length && run.draws == draws
      && done == k && next == run.Base(k)
      && stream.pending == [] && !stream.failed
      && stream.file.cache == Overlay(whole, 0, run.After(k))
    }

    /** A pass that lays `image` over `before` is torn at `cut`; what the stream still holds
        continues the image from there. */
    ghost predicate Torn(image: seq<Byte>, before: seq<Byte>, cut: nat)
      reads this, stream, stream.file
    {
      && Valid()
      && cut <= |image| == size <= |before|
      && stream.file.cache == Overlay(before, 0, image[..cut])
      && (stream.pending != [] ==> stream.at == cut && stream.pending == image[cut..cut + |stream.pending|])
    }

    constructor (file: File, bufferSize: nat, draws: Draws)
      requires file.Valid() && bufferSize > 0
      ensures Valid() && fresh(stream) && fresh(buffer)
      ensures stream.file == file && size == file.length && this.draws == draws && buffer.Length == bufferSize
      ensures next == 0 && done == 0 && stream.pending == [] && !stream.failed
    {
      stream := new OutStream(file);
      buffer := new Byte[bufferSize](_ => 0);
      size, this.draws := file.length, draws;
      next, passesExecuted, done := 0, 0, 0;
    }

    method FillConstant(value: Byte, chunk: nat)
      requires chunk <= buffer.Length
      modifies buffer
      ensures forall i :: 0 <= i < chunk ==> buffer[i] == value
    {
      for i := 0 to chunk
        invariant forall j :: 0 <= j < i ==> buffer[j] == value
      {
        buffer[i] := value;
      }
    }

    method FillPattern(pattern: seq<Byte>, chunk: nat)
      requires chunk <= buffer.Length && |pattern| > 0
      modifies buffer
      ensures forall i :: 0 <= i < chunk ==> buffer[i] == pattern[i % |pattern|]
    {
      for i := 0 to chunk
        invariant forall j :: 0 <= j < i ==> buffer[j] == pattern[j % |pattern|]
      {
        buffer[i] := pattern[i % |pattern|];
      }
    }

    /** Eight bytes per draw; the last copy is cut so that none leaves the chunk. */
    method FillNoise(chunk: nat)
      requires chunk <= buffer.Length
      modifies buffer, this`next
      ensures next == old(next) + Words(chunk)
      ensures forall i :: 0 <= i < chunk ==> buffer[i] == draws(old(next) + i / 8)[i % 8]
    {
      var i := 0;
      while i < chunk
        invariant i % 8 == 0 && i < chunk + 8
        invariant next == old(next) + i / 8
        invariant forall j :: 0 <= j < i && j < chunk ==> buffer[j] == draws(old(next) + j / 8)[j % 8]
      {
        var r := draws(next);
        next := next + 1;
        var copyBytes := Min(8, chunk - i);
        forall j | 0 <= j < copyBytes { buffer[i + j] := r[j]; }
        i := i + 8;
      }
    }

    /** fill_chunk: afterwards the buffer starts with what the pass lays in this chunk. */
    method FillChunk(fill: Fill, chunk: nat)
      requires chunk <= buffer.Length && 0 < buffer.Length && fill.Proper()
      modifies buffer, this`next
      ensures next == old(next) + if fill.Noise? then Words(chunk) else 0
      ensures forall i :: 0 <= i < chunk ==> buffer[i] == ByteAt(fill, i, buffer.Length, draws, old(next))
    {
      match fill {
        case Constant(v) => FillConstant(v, chunk);
        case Pattern(p) => FillPattern(p, chunk);
        case Noise => FillNoise(chunk);
      }
      forall i | 0 <= i < chunk
        ensures buffer[i] == ByteAt(fill, i, buffer.Length, draws, old(next))
      {
        ChunkIndex(0, i, buffer.Length);
      }
    }

    /** The chunk of a pass that starts at `start`, prepared in the buffer. */
    method PrepareChunk(fill: Fill, ghost start: nat, chunk: nat, ghost image: seq<Byte>, ghost base: nat)
      requires 0 < buffer.Length && chunk <= buffer.Length && fill.Proper()
      requires PlaceOf(start, buffer.Length) == 0 && start + chunk <= |image|
      requires image == Image(fill, |image|, buffer.Length, draws, base)
      requires next == base + DrawsUsed(fill, start, buffer.Length)
      modifies this`next, buffer
      ensures buffer[..chunk] == image[start..start + chunk]
      ensures next == base + DrawsUsed(fill, start + chunk, buffer.Length)
    {
      var b := buffer.Length;
      ghost var q := ChunkOf(start, b);
      ChunkAndPlace(start, b);
      DrawsOfChunks(fill, q, 0, b);
      DrawsOfChunks(fill, q, chunk, b);
      FillChunk(fill, chunk);
      forall i | 0 <= i < chunk
        ensures buffer[i] == image[start + i]
      {
        ChunkByte(fill, q, i, b, draws, base);
      }
    }

    /** Hand the next `data` of a pass to the stream. */
    method PutChunk(data: seq<Byte>, ghost written: nat, ghost image: seq<Byte>, ghost before: seq<Byte>)
      returns (ok: bool)
      requires Valid() && !stream.failed && |image| == size <= |before|
      requires written + |data| <= size && data == image[written..written + |data|]
      requires stream.at + |stream.pending| == written && stream.pending == image[stream.at..written]
      requires stream.file.cache == Overlay(before, 0, image[..stream.at])
      modifies stream`pending, stream`at, stream`failed,
               stream.file`cache, stream.file`media, stream.file`faults
      ensures Valid() && stream.failed == !ok
      ensures stream.at + |stream.pending| == written + |data| && stream.pending == image[stream.at..written + |data|]
      ensures stream.file.cache == Overlay(before, 0, image[..stream.at])
      ensures stream.file.faults == old(stream.file.faults) + if ok then 0 else 1
    {
      ghost var start, all := stream.at, image[stream.at..written + |data|];
      assert stream.pending + data == all;
      ok := stream.Write(data);
      assert all[..stream.at - start] == image[start..stream.at];
      assert all[stream.at - start..] == image[stream.at..written + |data|];
      OverlaySteps(before, 0, image, start, stream.at - start);
    }

    /** write_pass_internal. A failing pass leaves the payload torn at a single cut. */
    method WritePass(fill: Fill, ghost image: seq<Byte>) returns (ok: bool, ghost cut: nat)
      requires Valid() && fill.Proper() && !stream.failed && stream.pending == []
      requires image == Image(fill, size, buffer.Length, draws, next)
      modifies this, buffer, stream`pending, stream`at, stream`failed,
               stream.file`cache, stream.file`media, stream.file`faults
      ensures ok ==> Valid() && !stream.failed && stream.pending == []
      ensures ok ==> next == old(next) + DrawsUsed(fill, size, buffer.Length) && done == old(done) + 1
      ensures ok ==> stream.file.cache == Overlay(old(stream.file.cache), 0, image)
      ensures !ok ==> done == old(done) && Torn(image, old(stream.file.cache), cut)
      ensures stream.file.faults == old(stream.file.faults) + if ok then 0 else 1
    {
      ghost var before := stream.file.cache;
      assert image[..0] == [];
      cut := 0;
      ok := stream.SeekBegin();
      if !ok { return; }
      ok := LayChunks(fill, image, before);
      if !ok { return false, stream.at; }
      ok := FlushTail(image, before);
      if !ok { return false, stream.at; }
      CounterStep(done);
      passesExecuted := (passesExecuted + 1) % TWO_TO_THE_32;
      done := done + 1;
    }

    /** The chunk loop of a pass. */
    method LayChunks(fill: Fill, ghost image: seq<Byte>, ghost before: seq<Byte>) returns (ok: bool)
      requires Valid() && fill.Proper() && !stream.failed && stream.pending == [] && stream.at == 0
      requires image == Image(fill, size, buffer.Length, draws, next)
      requires size <= |before| && stream.file.cache == before
      modifies this`next, buffer, stream`pending, stream`at, stream`failed,
               stream.file`cache, stream.file`media, stream.file`faults
      ensures Torn(image, before, stream.at) && stream.failed == !ok
      ensures ok ==> stream.at + |stream.pending| == size && stream.pending == image[stream.at..]
      ensures ok ==> next == old(next) + DrawsUsed(fill, size, buffer.Length)
      ensures stream.file.faults == old(stream.file.faults) + if ok then 0 else 1
    {
      var written := 0;
      ok := true;
      ChunkIndex(0, 0, buffer.Length);
      while written < size
        invariant Valid() && ok && !stream.failed
        invariant written <= size && (PlaceOf(written, buffer.Length) == 0 || written == size)
        invariant next == old(next) + DrawsUsed(fill, written, buffer.Length)
        invariant stream.at + |stream.pending| == written && stream.pending == image[stream.at..written]
        invariant stream.file.cache == Overlay(before, 0, image[..stream.at])
        invariant stream.file.faults == old(stream.file.faults)
      {
        var chunk := Min(buffer.Length, size - written);
        PrepareChunk(fill, written, chunk, image, old(next));
        ok := PutChunk(buffer[..chunk], written, image, before);
        if !ok { return; }
        NextChunk(written, buffer.Length);
        written := written + chunk;
      }
    }

    /** The flush at the end of a pass. */
    method FlushTail(ghost image: seq<Byte>, ghost before: seq<Byte>) returns (ok: bool)
      requires Valid() && !stream.failed && |image| == size <= |before|
      requires stream.at + |stream.pending| == size && stream.pending == image[stream.at..]
      requires stream.file.cache == Overlay(before, 0, image[..stream.at])
      modifies stream`pending, stream`at, stream`failed,
               stream.file`cache, stream.file`media, stream.file`faults
      ensures Torn(image, before, stream.at) && stream.failed == !ok
      ensures ok ==> stream.pending == [] && stream.file.cache == Overlay(before, 0, image)
      ensures stream.file.faults == old(stream.file.faults) + if ok then 0 else 1
    {
      ghost var start := stream.at;
      ok := stream.Flush();
      assert image[start..][..stream.at - start] == image[start..stream.at];
      assert image[start..][stream.at - start..] == image[stream.at..];
      OverlaySteps(before, 0, image, start, stream.at - start);
      assert image[..size] == image;
    }

    /** The destructor on a failing path: the cut may still move forward, never back. */
    method Abandon(ghost image: seq<Byte>, ghost before: seq<Byte>, ghost cut: nat) returns (ghost finalCut: nat)
      requires Torn(image, before, cut)
      modifies stream`pending, stream`at, stream.file`cache, stream.file`media
      ensures cut <= finalCut <= size
      ensures stream.file.Valid() && stream.file.cache == Overlay(before, 0, image[..finalCut])
    {
      ghost var held := stream.pending;
      stream.Close();
      finalCut := cut;
      if held != [] {
        finalCut := stream.at;
        assert held[..finalCut - cut] == image[cut..finalCut];
        OverlaySteps(before, 0, image, cut, finalCut - cut);
      }
    }
  }

  /** A torn pass over the state after k passes, in the terms of module Passes. */
  lemma TornState(run: Run, k: nat, cut: nat, whole: seq<Byte>)
    requires run.Valid() && k < |run.plan| && cut <= run.size <= |whole|
    ensures Overlay(Overlay(whole, 0, run.After(k)), 0, run.Laid(k)[..cut]) == Overlay(whole, 0, run.Torn(k, cut))
  {
    OverlayTwice(whole, run.After(k), run.Laid(k), cut);
  }

  lemma OverlayTwice(whole: seq<Byte>, older: seq<Byte>, fresher: seq<Byte>, cut: nat)
    requires cut <= |fresher| == |older| <= |whole|
    ensures Overlay(Overlay(whole, 0, older), 0, fresher[..cut])
         == Overlay(whole, 0, if cut == 0 then older else fresher[..cut] + older[cut..])
  {
  }

  /** One more completed pass. */
  lemma NextState(run: Run, k: nat, whole: seq<Byte>)
    requires run.Valid() && k < |run.plan| && run.size <= |whole|
    ensures Overlay(Overlay(whole, 0, run.After(k)), 0, run.Laid(k)) == Overlay(whole, 0, run.After(k + 1))
  {
    OverlayAgain(whole, run.After(k), run.Laid(k));
  }

  lemma OverlayAgain(whole: seq<Byte>, older: seq<Byte>, fresher: seq<Byte>)
    requires |fresher| == |older| <= |whole|
    ensures Overlay(Overlay(whole, 0, older), 0, fresher) == Overlay(whole, 0, fresher)
  {
  }

  /** One write_*_pass call of execute_passes, with the stream closed behind a failure. */
  method RunPass(w: PassWriter, fill: Fill, ghost run: Run, ghost k: nat, ghost whole: seq<Byte>)
    returns (ok: bool, ghost cut: nat)
    requires w.Completed(run, k, whole) && k < |run.plan| && fill == run.plan[k]
    modifies w, w.buffer, w.stream`pending, w.stream`at, w.stream`failed,
             w.stream.file`cache, w.stream.file`media, w.stream.file`faults
    ensures ok ==> w.Completed(run, k + 1, whole)
    ensures !ok ==> w.done == k && w.passesExecuted == k % TWO_TO_THE_32 && cut <= run.size
    ensures !ok ==> w.stream.file.Valid() && w.stream.file.cache == Overlay(whole, 0, run.Torn(k, cut))
    ensures w.stream.file.faults == old(w.stream.file.faults) + if ok then 0 else 1
  {
    ghost var image, before := run.Laid(k), w.stream.file.cache;
    ok, cut := w.WritePass(fill, image);
    if ok {
      NextState(run, k, whole);
    } else {
      cut := w.Abandon(image, before, cut);
      TornState(run, k, cut, whole);
    }
  }

  /** The outcome of a stretch of passes up to pass `end`. */
  ghost predicate Outcome(w: PassWriter, ok: bool, cut: nat, run: Run, end: nat, whole: seq<Byte>)
    reads w, w.stream, w.stream.file
  {
    && run.Valid() && end <= |run.plan| && run.size <= |whole|
    && (ok ==> w.Completed(run, end, whole))
    && (!ok ==>
          && w.stream.file.Valid() && w.passesExecuted == w.done % TWO_TO_THE_32
          && w.done < end && cut <= run.size
          && w.stream.file.cache == Overlay(whole, 0, run.Torn(w.done, cut)))
  }

  method RunNoise(w: PassWriter, n: nat, ghost run: Run, ghost k: nat, ghost whole: seq<Byte>)
    returns (ok: bool, ghost cut: nat)
    requires w.Completed(run, k, whole) && k + n <= |run.plan|
    requires forall i :: k <= i < k + n ==> run.plan[i] == Noise
    modifies w, w.buffer, w.stream`pending, w.stream`at, w.stream`failed,
             w.stream.file`cache, w.stream.file`media, w.stream.file`faults
    ensures Outcome(w, ok, cut, run, k + n, whole)
    ensures w.stream.file.faults == old(w.stream.file.faults) + if ok then 0 else 1
  {
    ok, cut := true, 0;
    ghost var at := k;
    for i := 0 to n
      invariant ok && at == k + i && w.Completed(run, at, whole)
      invariant w.stream.file.faults == old(w.stream.file.faults)
    {
      ok, cut := RunPass(w, Noise, run, at, whole);
      if !ok { return; }
      at := at + 1;
    }
  }

  method RunPatterns(w: PassWriter, patterns: seq<seq<Byte>>, ghost run: Run, ghost k: nat, ghost whole: seq<Byte>)
    returns (ok: bool, ghost cut: nat)
    requires w.Completed(run, k, whole) && k + |patterns| <= |run.plan|
    requires forall i :: 0 <= i < |patterns| ==> run.plan[k + i] == Pattern(patterns[i])
    modifies w, w.buffer, w.stream`pending, w.stream`at, w.stream`failed,
             w.stream.file`cache, w.stream.file`media, w.stream.file`faults
    ensures Outcome(w, ok, cut, run, k + |patterns|, whole)
    ensures w.stream.file.faults == old(w.stream.file.faults) + if ok then 0 else 1
  {
    ok, cut := true, 0;
    for i := 0 to |patterns|
      invariant ok && w.Completed(run, k + i, whole)
      invariant w.stream.file.faults == old(w.stream.file.faults)
    {
      ok, cut := RunPass(w, Pattern(patterns[i]), run, k + i, whole);
      if !ok { return; }
    }
  }

  /** Passes already completed do not depend on the rest of the plan. */
  lemma {:induction false} SamePrefix(run: Run, other: Run, k: nat)
    requires run.Valid() && other.Valid() && other == run.(plan := other.plan)
    requires k <= |run.plan| && k <= |other.plan| && run.plan[..k] == other.plan[..k]
    ensures run.Base(k) == other.Base(k)
    ensures run.After(k) == other.After(k)
  {
    if k > 0 {
      assert run.plan[..k][..k - 1] == run.plan[..k - 1] && other.plan[..k][..k - 1] == other.plan[..k - 1];
      SamePrefix(run, other, k - 1);
      assert run.plan[k - 1] == run.plan[..k][k - 1] == other.plan[k - 1];
    }
  }

  /** The pattern list, shuffled. */
  method DrawPatterns() returns (patterns: array<seq<Byte>>)
    ensures fresh(patterns) && Shuffled(patterns[..])
  {
    var list := GutmannPatterns();
    patterns := new seq<Byte>[27](i requires 0 <= i < 27 => list[i]);
    assert patterns[..] == list;
    Shuffle(patterns);
  }

  /** The shuffle is drawn after four passes; they are the same in every shuffled plan. */
  lemma Replan(run: Run, actual: Run, config: Config, order: seq<seq<Byte>>)
    requires config.kind.Gutmann? && Shuffled(order) && run.Valid()
    requires run.plan == Plan(config, GutmannPatterns()) && actual == run.(plan := Plan(config, order))
    ensures actual.Valid() && |run.plan| == |actual.plan| == 35
    ensures run.Base(4) == actual.Base(4) && run.After(4) == actual.After(4)
    ensures forall i :: 0 <= i < 4 ==> run.plan[i] == Noise
    ensures forall i :: 0 <= i < 27 ==> actual.plan[4 + i] == Pattern(order[i])
    ensures forall i :: 31 <= i < 35 ==> actual.plan[i] == Noise
  {
    ScheduleAgreement(config, order);
    ShuffledPatterns(order);
    SamePrefix(run, actual, 4);
  }

  lemma SameProgress(w: PassWriter, run: Run, actual: Run, k: nat, whole: seq<Byte>)
    requires w.Completed(run, k, whole)
    requires actual.Valid() && actual == run.(plan := actual.plan) && k <= |actual.plan|
    requires run.Base(k) == actual.Base(k) && run.After(k) == actual.After(k)
    ensures w.Completed(actual, k, whole)
  {
  }

  method RunGutmann(w: PassWriter, config: Config, ghost run: Run, ghost whole: seq<Byte>)
    returns (ok: bool, ghost order: seq<seq<Byte>>, ghost cut: nat)
    requires config.kind.Gutmann? && run.plan == Plan(config, GutmannPatterns()) && w.Completed(run, 0, whole)
    modifies w, w.buffer, w.stream`pending, w.stream`at, w.stream`failed,
             w.stream.file`cache, w.stream.file`media, w.stream.file`faults
    ensures Shuffled(order)
    ensures Outcome(w, ok, cut, run.(plan := Plan(config, order)), |Plan(config, order)|, whole)
    ensures w.stream.file.faults == old(w.stream.file.faults) + if ok then 0 else 1
  {
    order := GutmannPatterns();
    ok, cut := RunNoise(w, 4, run, 0, whole);
    if !ok { return; }
    var patterns := DrawPatterns();
    order := patterns[..];
    ghost var actual := run.(plan := Plan(config, order));
    Replan(run, actual, config, order);
    SameProgress(w, run, actual, 4, whole);
    ok, cut := RunGutmannRest(w, patterns[..], actual, whole);
  }

  /** Passes 5 to 35: the shuffled patterns and the closing noise. */
  method RunGutmannRest(w: PassWriter, patterns: seq<seq<Byte>>, ghost run: Run, ghost whole: seq<Byte>)
    returns (ok: bool, ghost cut: nat)
    requires w.Completed(run, 4, whole) && |run.plan| == 35 && |patterns| == 27
    requires forall i :: 0 <= i < 27 ==> run.plan[4 + i] == Pattern(patterns[i])
    requires forall i :: 31 <= i < 35 ==> run.plan[i] == Noise
    modifies w, w.buffer, w.stream`pending, w.stream`at, w.stream`failed,
             w.stream.file`cache, w.stream.file`media, w.stream.file`faults
    ensures Outcome(w, ok, cut, run, 35, whole)
    ensures w.stream.file.faults == old(w.stream.file.faults) + if ok then 0 else 1
  {
    ok, cut := RunPatterns(w, patterns, run, 4, whole);
    if !ok { return; }
    ok, cut := RunNoise(w, 4, run, 31, whole);
  }

  method RunDod(w: PassWriter, ghost run: Run, ghost whole: seq<Byte>) returns (ok: bool, ghost cut: nat)
    requires run.plan == [Constant(0x00), Constant(0xFF), Noise] && w.Completed(run, 0, whole)
    modifies w, w.buffer, w.stream`pending, w.stream`at, w.stream`failed,
             w.stream.file`cache, w.stream.file`media, w.stream.file`faults
    ensures Outcome(w, ok, cut, run, 3, whole)
    ensures w.stream.file.faults == old(w.stream.file.faults) + if ok then 0 else 1
  {
    ok, cut := RunPass(w, Constant(0x00), run, 0, whole);
    if !ok { return; }
    ok, cut := RunPass(w, Constant(0xFF), run, 1, whole);
    if !ok { return; }
    ok, cut := RunPass(w, Noise, run, 2, whole);
  }

  method RunCustom(w: PassWriter, config: Config, ghost run: Run, ghost whole: seq<Byte>)
    returns (ok: bool, ghost cut: nat)
    requires config.kind.PrngCustom? && run.plan == Plan(config, []) && w.Completed(run, 0, whole)
    modifies w, w.buffer, w.stream`pending, w.stream`at, w.stream`failed,
             w.stream.file`cache, w.stream.file`media, w.stream.file`faults
    ensures Outcome(w, ok, cut, run, |run.plan|, whole)
    ensures w.stream.file.faults == old(w.stream.file.faults) + if ok then 0 else 1
  {
    ok, cut := RunNoise(w, config.passes, run, 0, whole);
    if !ok { return; }
    if config.zeroFill {
      ok, cut := RunPass(w, Constant(0x00), run, config.passes, whole);
    }
  }

  /** The switch over the methods. */
  method RunSchedule(w: PassWriter, config: Config, ghost run: Run, ghost whole: seq<Byte>)
    returns (ok: bool, ghost order: seq<seq<Byte>>, ghost cut: nat)
    requires run.plan == Plan(config, GutmannPatterns()) && w.Completed(run, 0, whole)
    modifies w, w.buffer, w.stream`pending, w.stream`at, w.stream`failed,
             w.stream.file`cache, w.stream.file`media, w.stream.file`faults
    ensures Shuffled(order)
    ensures Outcome(w, ok, cut, run.(plan := Plan(config, order)), |Plan(config, order)|, whole)
    ensures w.stream.file.faults == old(w.stream.file.faults) + if ok then 0 else 1
  {
    order := GutmannPatterns();
    match config.kind {
      case NistClear | ZeroOnly => ok, cut := RunPass(w, Constant(0x00), run, 0, whole);
      case Dod522022M => ok, cut := RunDod(w, run, whole);
      case PrngCustom => ok, cut := RunCustom(w, config, run, whole);
      case Gutmann => ok, order, cut := RunGutmann(w, config, run, whole);
    }
  }

  /** The allocated bytes after a call, explained by the run: `done` passes complete and, if the
      call failed, the next one torn at `cut`. */
  ghost predicate Explains(run: Run, ok: bool, done: nat, cut: nat, before: seq<Byte>, after: seq<Byte>) {
    && run.Valid() && run.size <= |before| && run.original == before[..run.size]
    && done <= |run.plan| && cut <= run.size
    && (done == |run.plan| || ok ==> cut == 0)
    && (ok && run.size > 0 ==> done == |run.plan|)
    && after == Overlay(before, 0, run.Torn(done, cut))
  }

  /** The fault splice, byte by byte: a failed call leaves new bytes below one cut, old bytes from
      there on, and nothing else changed. */
  lemma FaultSplice(run: Run, done: nat, cut: nat, before: seq<Byte>, after: seq<Byte>)
    requires Explains(run, false, done, cut, before, after)
    ensures |after| == |before|
    ensures forall o :: 0 <= o < cut ==> done < |run.plan| && after[o] == run.Laid(done)[o]
    ensures forall o :: cut <= o < run.size ==> after[o] == run.After(done)[o]
    ensures forall o :: run.size <= o < |before| ==> after[o] == before[o]
  {
    if cut == 0 {
      SpliceBytes(before, run.After(done), run.After(done), 0, after);
    } else {
      SpliceBytes(before, run.Laid(done), run.After(done), cut, after);
    }
  }

  /** A successful call leaves the whole payload to the last pass. */
  lemma CompletedPayload(run: Run, done: nat, before: seq<Byte>, after: seq<Byte>)
    requires Explains(run, true, done, 0, before, after)
    ensures run.Valid() && done <= |run.plan| && after[..run.size] == run.After(done)
  {
  }

  lemma SpliceBytes(before: seq<Byte>, fresher: seq<Byte>, older: seq<Byte>, cut: nat, after: seq<Byte>)
    requires cut <= |fresher| == |older| <= |before|
    requires after == Overlay(before, 0, fresher[..cut] + older[cut..])
    ensures |after| == |before|
    ensures forall o :: 0 <= o < |before| ==>
              after[o] == if o < cut then fresher[o] else if o < |older| then older[o] else before[o]
  {
  }

  /** Before the first pass the overlay is the file itself. */
  lemma NothingYet(run: Run, whole: seq<Byte>)
    requires run.Valid() && run.size <= |whole| && run.original == whole[..run.size]
    ensures Overlay(whole, 0, run.After(0)) == whole && run.Torn(0, 0) == run.After(0)
  {
  }

  /** The empty file, the stream, the schedule, and the destructor on a failing path. */
  method PerformPasses(config: Config, file: File, draws: Draws)
    returns (ok: bool, passesExecuted: Uint32, ghost order: seq<seq<Byte>>, ghost done: nat, ghost cut: nat)
    requires file.Valid() && config.bufferSize > 0
    modifies file`cache, file`media, file`faults
    ensures Shuffled(order)
    ensures file.Valid() && passesExecuted == done % TWO_TO_THE_32
    ensures file.length == 0 ==> ok && done == 0
    ensures Explains(Run(Plan(config, order), file.length, config.bufferSize, draws, old(file.Payload())),
                     ok, done, cut, old(file.cache), file.cache)
    ensures file.faults == old(file.faults) + if ok then 0 else 1
  {
    order, done, cut, passesExecuted := GutmannPatterns(), 0, 0, 0;
    ghost var run := Run(Plan(config, order), file.length, config.bufferSize, draws, file.Payload());
    ghost var whole := file.cache;
    ScheduleAgreement(config, order);
    NothingYet(run, whole);
    if file.length == 0 { return true, 0, order, 0, 0; }
    ok := file.Attempt();
    if !ok { return; }
    var w := new PassWriter(file, config.bufferSize, draws);
    ok, order, cut := RunSchedule(w, config, run, whole);
    passesExecuted, done := w.passesExecuted, w.done;
    if ok { cut := 0; }
  }

  /** The bytes after a call, straight from the settings: below the cut those of the pass that failed,
      from there on those of the last completed pass. */
  lemma BytesOfCall(run: Run, config: Config, order: seq<seq<Byte>>, ok: bool, done: nat, cut: nat,
                    before: seq<Byte>, after: seq<Byte>)
    requires Shuffled(order) && run.plan == Plan(config, order) && run.bufferSize == config.bufferSize
    requires Explains(run, ok, done, cut, before, after)
    ensures |order| == 27 && forall i :: 0 <= i < 27 ==> |order[i]| > 0
    ensures |after| == |before| && forall o :: run.size <= o < |before| ==> after[o] == before[o]
    ensures forall o :: 0 <= o < run.size ==>
      after[o] == if done == 0 && o >= cut then before[o]
                  else PassByte(config, order, run.draws, run.size, if o < cut then done else done - 1, o)
    ensures cut > 0 ==> !ok && done < PassCount(config)
    ensures ok && run.size > 0 ==> done == PassCount(config)
  {
    ScheduleAgreement(config, order);
    ShuffledPatterns(order);
    TornBytes(run, ok, done, cut, before, after);
    forall o | 0 <= o < run.size && !(done == 0 && o >= cut)
      ensures after[o] == PassByte(config, order, run.draws, run.size, if o < cut then done else done - 1, o)
    {
      LaidBytes(run, config, order, if o < cut then done else done - 1, o);
    }
  }

  /** After a success they are those of the last pass. */
  lemma BytesOfSuccess(run: Run, config: Config, order: seq<seq<Byte>>, ok: bool, done: nat, cut: nat,
                       before: seq<Byte>, after: seq<Byte>)
    requires Shuffled(order) && run.plan == Plan(config, order) && run.bufferSize == config.bufferSize
    requires Explains(run, ok, done, cut, before, after)
    ensures run.size <= |after|
    ensures ok && run.size > 0 && PassCount(config) > 0 ==> forall o :: 0 <= o < run.size ==>
      after[o] == LastByte(config, run.draws, run.size, o)
  {
    BytesOfCall(run, config, order, ok, done, cut, before, after);
    if ok && run.size > 0 && PassCount(config) > 0 {
      LastPassPayload(config, order, run.draws, run.size, after);
    }
  }

  /** Each byte is that of the last pass that reached it. */
  lemma TornBytes(run: Run, ok: bool, done: nat, cut: nat, before: seq<Byte>, after: seq<Byte>)
    requires Explains(run, ok, done, cut, before, after)
    ensures |after| == |before| && forall o :: run.size <= o < |before| ==> after[o] == before[o]
    ensures cut > 0 ==> done < |run.plan|
    ensures forall o :: 0 <= o < run.size ==>
      after[o] == if o < cut then run.Laid(done)[o] else if done == 0 then before[o] else run.Laid(done - 1)[o]
  {
    if cut == 0 {
      SpliceBytes(before, run.After(done), run.After(done), 0, after);
    } else {
      SpliceBytes(before, run.Laid(done), run.After(done), cut, after);
    }
  }

  /** execute_passes. `order` is the shuffle it drew, `done` the passes it completed and `cut`
      the point at which a failing pass was torn. */
  method ExecutePasses(config: Config, file: File, draws: Draws)
    returns (ok: bool, passesExecuted: Uint32, ghost order: seq<seq<Byte>>, ghost done: nat, ghost cut: nat)
    requires file.Valid() && config.bufferSize > 0
    modifies file`cache, file`media, file`faults
    ensures Shuffled(order)
    ensures file.Valid() && passesExecuted == done % TWO_TO_THE_32
    ensures file.length == 0 ==> ok && done == 0
    ensures Explains(Run(Plan(config, order), file.length, config.bufferSize, draws, old(file.Payload())),
                     ok, done, cut, old(file.cache), file.cache)
    ensures file.faults == old(file.faults) + if ok then 0 else 1
    // the same without a schedule: how many passes, which patterns, and the byte at every offset
    ensures cut > 0 ==> !ok && done < PassCount(config)
    ensures ok && file.length > 0 ==> done == PassCount(config)
    ensures |order| == 27 && forall i :: 0 <= i < 27 ==> |order[i]| > 0
    ensures |file.cache| == |old(file.cache)|
    ensures forall o :: file.length <= o < |file.cache| ==> file.cache[o] == old(file.cache)[o]
    ensures forall o :: 0 <= o < file.length ==>
      file.cache[o] == if done == 0 && o >= cut then old(file.cache)[o]
                       else PassByte(config, order, draws, file.length, if o < cut then done else done - 1, o)
    // after a success that is the generator's, unless the last pass is zero
    ensures ok && file.length > 0 && PassCount(config) > 0 ==> forall o :: 0 <= o < file.length ==>
      file.cache[o] == LastByte(config, draws, file.length, o)
  {
    ghost var payload, whole := file.Payload(), file.cache;
    ok, passesExecuted, order, done, cut := PerformPasses(config, file, draws);
    ghost var run := Run(Plan(config, order), file.length, config.bufferSize, draws, payload);
    BytesOfCall(run, config, order, ok, done, cut, whole, file.cache);
    BytesOfSuccess(run, config, order, ok, done, cut, whole, file.cache);
  }
}
