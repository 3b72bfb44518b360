/** What the overwrite passes mean: the schedule of every method, the byte each pass lays at
    each offset in closed form, and the state of the payload after any number of passes. */
module Passes {
  import opened Bytes
  import opened Division

  datatype Method = NistClear | Dod522022M | PrngCustom | ZeroOnly | Gutmann

  const TWO_TO_THE_32: nat := 0x1_0000_0000

  type Uint32 = n: nat | n < TWO_TO_THE_32

  datatype Config = Config(kind: Method, passes: Uint32, zeroFill: bool, bufferSize: nat, recursive: bool)

  /** One 64-bit draw of the generator, as the eight bytes that memcpy sees. */
  type Draw = d: seq<Byte> | |d| == 8 witness [0, 0, 0, 0, 0, 0, 0, 0]

  /** Every value the generator will ever deliver. */
  type Draws = nat -> Draw

  datatype Fill = Constant(value: Byte) | Pattern(bytes: seq<Byte>) | Noise
  {
    predicate Proper() {
      Pattern? ==> |bytes| > 0
    }
  }

  // ----- schedules -----

  /** A three-byte pattern and its two rotations. */
  function Rotations(a: Byte, b: Byte, c: Byte): (r: seq<seq<Byte>>)
    ensures |r| == 3 && forall i :: 0 <= i < 3 ==> |r[i]| == 3
  {
    [[a, b, c], [b, c, a], [c, a, b]]
  }

  /** 0x00, 0x11, 0x22, up to 0xFF. */
  function Nibbles(): (s: seq<Byte>)
    ensures |s| == 16 && forall i :: 0 <= i < 16 ==> s[i] == 0x11 * i
  {
    seq(16, i requires 0 <= i < 16 => 0x11 * i)
  }

  /** Every byte as a pattern of its own. */
  function Singles(bytes: seq<Byte>): (r: seq<seq<Byte>>)
    ensures |r| == |bytes| && forall i :: 0 <= i < |r| ==> r[i] == [bytes[i]]
  {
    seq(|bytes|, i requires 0 <= i < |bytes| => [bytes[i]])
  }

  /** The 27 fixed patterns in list order. */
  function GutmannPatterns(): (r: seq<seq<Byte>>)
    ensures |r| == 27
    ensures forall i :: 0 <= i < 27 ==> |r[i]| == 1 || |r[i]| == 3
  {
    [[0x55], [0xAA]] + Rotations(0x92, 0x49, 0x24) + Singles(Nibbles())
    + Rotations(0x92, 0x49, 0x24) + Rotations(0x6D, 0xB6, 0xDB)
  }

  function Repeat(f: Fill, n: nat): (s: seq<Fill>)
    ensures |s| == n && forall i :: 0 <= i < n ==> s[i] == f
  {
    seq(n, _ => f)
  }

  function Fixed(order: seq<seq<Byte>>): (s: seq<Fill>)
    ensures |s| == |order| && forall i :: 0 <= i < |s| ==> s[i] == Pattern(order[i])
  {
    seq(|order|, i requires 0 <= i < |order| => Pattern(order[i]))
  }

  /** The order in which a run lays the 27 fixed patterns: any shuffle of the list. */
  ghost predicate Shuffled(order: seq<seq<Byte>>) {
    multiset(order) == multiset(GutmannPatterns())
  }

  function Plan(config: Config, order: seq<seq<Byte>>): seq<Fill> {
    match config.kind
    case NistClear | ZeroOnly => [Constant(0x00)]
    case Dod522022M => [Constant(0x00), Constant(0xFF), Noise]
    case PrngCustom => Repeat(Noise, config.passes) + if config.zeroFill then [Constant(0x00)] else []
    case Gutmann => Repeat(Noise, 4) + Fixed(order) + Repeat(Noise, 4)
  }

  /** The test by which shred_file picks the byte check. */
  predicate ZeroEnding(config: Config) {
    config.kind.NistClear? || config.kind.ZeroOnly? || (config.kind.PrngCustom? && config.zeroFill)
  }

  lemma Permuted<T>(a: seq<T>, b: seq<T>)
    requires multiset(a) == multiset(b)
    ensures |a| == |b|
    ensures forall i :: 0 <= i < |a| ==> a[i] in b
  {
    assert |a| == |multiset(a)|;
    assert |b| == |multiset(b)|;
    forall i | 0 <= i < |a|
      ensures a[i] in b
    {
      assert a[i] in multiset(a);
    }
  }

  lemma ShuffledPatterns(order: seq<seq<Byte>>)
    requires Shuffled(order)
    ensures |order| == 27
    ensures forall i :: 0 <= i < 27 ==> |order[i]| == 1 || |order[i]| == 3
  {
    var list := GutmannPatterns();
    Permuted(order, list);
    forall i | 0 <= i < 27
      ensures |order[i]| == 1 || |order[i]| == 3
    {
      assert order[i] in list;
    }
  }

  /** How many passes a method makes over a non-empty file. */
  function PassCount(config: Config): nat {
    match config.kind
    case NistClear | ZeroOnly => 1
    case Dod522022M => 3
    case PrngCustom => config.passes + if config.zeroFill then 1 else 0
    case Gutmann => 35
  }

  /** The schedule and the two places that second-guess it agree: the number of passes, and the
      last pass being constant zero exactly when the byte check is chosen. */
  lemma ScheduleAgreement(config: Config, order: seq<seq<Byte>>)
    requires Shuffled(order)
    ensures var plan := Plan(config, order);
      && |plan| == PassCount(config)
      && (|plan| > 0 ==> (plan[|plan| - 1] == Constant(0) <==> ZeroEnding(config)))
      && (ZeroEnding(config) ==> |plan| > 0)
      && (forall i :: 0 <= i < |plan| ==> plan[i].Proper())
  {
    ShuffledPatterns(order);
  }

  /** The 32-bit pass counter misreports a completed run for exactly one family of settings. */
  lemma CounterWraps(config: Config, order: seq<seq<Byte>>)
    requires Shuffled(order)
    ensures |Plan(config, order)| % TWO_TO_THE_32 != |Plan(config, order)|
       <==> config.kind.PrngCustom? && config.zeroFill && config.passes == TWO_TO_THE_32 - 1
  {
    ScheduleAgreement(config, order);
  }

  // ----- one pass -----

  /** Eight-byte draws needed for `n` bytes. */
  function Words(n: nat): nat {
    (n + 7) / 8
  }

  /** The draw that covers place `i` of chunk `q`, counted from the start of the pass. */
  function DrawOf(q: nat, i: nat, bufferSize: nat): nat {
    q * Words(bufferSize) + i / 8
  }

  function DrawIndex(o: nat, bufferSize: nat): nat
    requires bufferSize > 0
  {
    DrawOf(ChunkOf(o, bufferSize), PlaceOf(o, bufferSize), bufferSize)
  }

  /** Draws for `q` whole chunks and `rest` further bytes. */
  function DrawsOf(q: nat, rest: nat, bufferSize: nat): nat {
    q * Words(bufferSize) + Words(rest)
  }

  function DrawsUsed(f: Fill, size: nat, bufferSize: nat): nat
    requires bufferSize > 0
  {
    if f.Noise? then DrawsOf(ChunkOf(size, bufferSize), PlaceOf(size, bufferSize), bufferSize) else 0
  }

  /** The byte that a pass lays at offset `o`, if the generator stood at draw `base` before it. */
  function ByteAt(f: Fill, o: nat, bufferSize: nat, draws: Draws, base: nat): Byte
    requires bufferSize > 0 && f.Proper()
  {
    var i := PlaceOf(o, bufferSize);
    match f
    case Constant(v) => v
    case Pattern(p) => p[i % |p|]
    case Noise => var d: Draw := draws(base + DrawIndex(o, bufferSize)); d[i % 8]
  }

  function Image(f: Fill, size: nat, bufferSize: nat, draws: Draws, base: nat): (s: seq<Byte>)
    requires bufferSize > 0 && f.Proper()
    ensures |s| == size
    ensures forall o :: 0 <= o < size ==> s[o] == ByteAt(f, o, bufferSize, draws, base)
  {
    seq(size, o requires 0 <= o < size => ByteAt(f, o, bufferSize, draws, base))
  }

  /** Comparing positions by chunk and place within the chunk. */
  lemma ChunkOrder(q: nat, r: nat, all: nat, rest: nat, b: nat)
    requires r < b && rest < b && q * b + r < all * b + rest
    ensures q < all || (q == all && r < rest)
  {
    if q > all {
      MultipleMonotone(all + 1, q, b);
      NextMultiple(all, b);
    }
  }

  lemma PlaceInWords(r: nat, n: nat)
    requires r < n
    ensures r / 8 < Words(n)
  {
  }

  /** A noise pass never lays the same byte of the same draw twice. */
  lemma NoiseIsFresh(o: nat, o': nat, bufferSize: nat)
    requires bufferSize > 0
    requires DrawIndex(o, bufferSize) == DrawIndex(o', bufferSize)
    requires PlaceOf(o, bufferSize) % 8 == PlaceOf(o', bufferSize) % 8
    ensures o == o'
  {
    var b := bufferSize;
    SamePlace(ChunkOf(o, b), PlaceOf(o, b), ChunkOf(o', b), PlaceOf(o', b), b);
    ChunkAndPlace(o, b);
    ChunkAndPlace(o', b);
  }

  lemma SamePlace(q: nat, r: nat, q': nat, r': nat, b: nat)
    requires r < b && r' < b
    requires DrawOf(q, r, b) == DrawOf(q', r', b) && r % 8 == r' % 8
    ensures q == q' && r == r'
  {
    PlaceInWords(r, b);
    PlaceInWords(r', b);
    QuotientUnique(Words(b), q, r / 8, q', r' / 8);
  }

  /** Every offset lies in one of the draws counted for the pass. */
  lemma NoiseInRange(o: nat, size: nat, bufferSize: nat)
    requires bufferSize > 0 && o < size
    ensures DrawIndex(o, bufferSize) < DrawsUsed(Noise, size, bufferSize)
  {
    var b := bufferSize;
    ChunkAndPlace(o, b);
    ChunkAndPlace(size, b);
    DrawInRange(ChunkOf(o, b), PlaceOf(o, b), ChunkOf(size, b), PlaceOf(size, b), b);
  }

  lemma DrawInRange(q: nat, r: nat, all: nat, rest: nat, b: nat)
    requires r < b && rest < b && q * b + r < all * b + rest
    ensures DrawOf(q, r, b) < DrawsOf(all, rest, b)
  {
    ChunkOrder(q, r, all, rest, b);
    PlaceInWords(r, b);
    if q < all {
      MultipleMonotone(q + 1, all, Words(b));
      NextMultiple(q, Words(b));
    } else {
      PlaceInWords(r, rest);
    }
  }

  /** Nothing drawn goes unused: every draw counted for the pass covers some offset. */
  lemma NoDrawWasted(d: nat, size: nat, bufferSize: nat) returns (o: nat)
    requires bufferSize > 0 && d < DrawsUsed(Noise, size, bufferSize)
    ensures o < size && DrawIndex(o, bufferSize) == d
  {
    var q, i := DrawPosition(d, ChunkOf(size, bufferSize), PlaceOf(size, bufferSize), bufferSize);
    ChunkAndPlace(size, bufferSize);
    ChunkIndex(q, i, bufferSize);
    o := q * bufferSize + i;
  }

  lemma DrawPosition(d: nat, all: nat, rest: nat, b: nat) returns (q: nat, i: nat)
    requires rest < b && d < DrawsOf(all, rest, b)
    ensures i < b && q * b + i < all * b + rest && DrawOf(q, i, b) == d
  {
    var w := Words(b);
    q, i := ChunkOf(d, w), 8 * PlaceOf(d, w);
    ChunkAndPlace(d, w);
    if q < all {
      MultipleMonotone(q + 1, all, b);
      NextMultiple(q, b);
    } else if q > all {
      MultipleMonotone(all + 1, q, w);
      NextMultiple(all, w);
    }
  }

  /** A pattern restarts at every chunk, so a pattern pass is the pattern repeated over the whole
      file exactly when the file fits in one chunk or the pattern length divides the buffer size. */
  lemma GloballyPeriodicIff(p: seq<Byte>, size: nat, bufferSize: nat, draws: Draws, base: nat)
    requires bufferSize > 0 && |p| > 0
    requires forall i, j :: 0 <= i < j < |p| ==> p[i] != p[j]
    ensures Image(Pattern(p), size, bufferSize, draws, base) == Cycle(p, size)
       <==> size <= bufferSize || bufferSize % |p| == 0
  {
    var image := Image(Pattern(p), size, bufferSize, draws, base);
    if size <= bufferSize || bufferSize % |p| == 0 {
      forall o | 0 <= o < size
        ensures image[o] == Cycle(p, size)[o]
      {
        if size <= bufferSize { ChunkIndex(0, o, bufferSize); } else { NestedRemainder(o, bufferSize, |p|); }
      }
    } else {
      ChunkIndex(1, 0, bufferSize);
      assert image[bufferSize] == p[0];
      assert Cycle(p, size)[bufferSize] == p[bufferSize % |p|];
    }
  }

  // ----- a whole run -----

  /** One call of execute_passes on a payload of `size` bytes. */
  datatype Run = Run(plan: seq<Fill>, size: nat, bufferSize: nat, draws: Draws, original: seq<Byte>)
  {
    ghost predicate Valid() {
      && bufferSize > 0
      && |original| == size
      && forall i :: 0 <= i < |plan| ==> plan[i].Proper()
    }

    /** Draws taken before pass k. */
    function Base(k: nat): nat
      requires bufferSize > 0 && k <= |plan|
    {
      if k == 0 then 0 else Base(k - 1) + DrawsUsed(plan[k - 1], size, bufferSize)
    }

    /** Everything that pass k lays. */
    function Laid(k: nat): (s: seq<Byte>)
      requires bufferSize > 0 && k < |plan| && plan[k].Proper()
      ensures |s| == size
    {
      Image(plan[k], size, bufferSize, draws, Base(k))
    }

    /** The payload after the first k passes. */
    function After(k: nat): (s: seq<Byte>)
      requires bufferSize > 0 && k <= |plan| && |original| == size
      requires k > 0 ==> plan[k - 1].Proper()
      ensures |s| == size
    {
      if k == 0 then original else Laid(k - 1)
    }

    /** The payload torn inside pass k: bytes below t are the new pass, the rest the old state. */
    function Torn(k: nat, t: nat): (s: seq<Byte>)
      requires Valid() && k <= |plan| && t <= size && (k == |plan| ==> t == 0)
      ensures |s| == size
    {
      if t == 0 then After(k) else Laid(k)[..t] + After(k)[t..]
    }
  }

  /** No two passes share a draw: each begins at or after the end of every earlier one. */
  lemma {:induction false} PassesDrawDisjointly(run: Run, k: nat, later: nat)
    requires run.bufferSize > 0 && k < later <= |run.plan|
    ensures run.Base(k) + DrawsUsed(run.plan[k], run.size, run.bufferSize) <= run.Base(later)
  {
    if k < later - 1 { PassesDrawDisjointly(run, k, later - 1); }
  }

  /** A run that ends in zeros leaves nothing else in the payload. */
  lemma ZeroEndingLeavesZeros(run: Run, config: Config, order: seq<seq<Byte>>)
    requires Shuffled(order) && run.plan == Plan(config, order) && run.Valid()
    requires ZeroEnding(config)
    ensures |run.plan| > 0 && AllEqual(run.After(|run.plan|), 0)
  {
    ScheduleAgreement(config, order);
  }

  // ----- the bytes of every pass, without a schedule -----

  /** The pattern list spelled out. */
  lemma PatternTable()
    ensures GutmannPatterns() ==
            [[0x55], [0xAA], [0x92, 0x49, 0x24], [0x49, 0x24, 0x92], [0x24, 0x92, 0x49],
             [0x00], [0x11], [0x22], [0x33], [0x44], [0x55], [0x66], [0x77],
             [0x88], [0x99], [0xAA], [0xBB], [0xCC], [0xDD], [0xEE], [0xFF],
             [0x92, 0x49, 0x24], [0x49, 0x24, 0x92], [0x24, 0x92, 0x49],
             [0x6D, 0xB6, 0xDB], [0xB6, 0xDB, 0x6D], [0xDB, 0x6D, 0xB6]]
  {
  }

  /** Chunk by chunk, each chunk beginning with a draw of its own: the draw that covers an offset, and
      the draws of a noise pass. */
  lemma DrawArithmetic(o: nat, b: nat)
    requires b > 0
    ensures DrawIndex(o, b) == o / b * ((b + 7) / 8) + o % b / 8
    ensures DrawsUsed(Noise, o, b) == o / b * ((b + 7) / 8) + (o % b + 7) / 8
    ensures forall m: nat :: DrawsOfPasses(m, o, b) == m * DrawsUsed(Noise, o, b)
  {
  }

  /** The draws of m noise passes over n bytes. */
  function DrawsOfPasses(m: nat, n: nat, b: nat): nat
    requires b > 0
  {
    m * DrawsUsed(Noise, n, b)
  }

  lemma DrawsAddUp(m: nat, m': nat, n: nat, b: nat)
    requires b > 0
    ensures DrawsOfPasses(m + m', n, b) == DrawsOfPasses(m, n, b) + DrawsOfPasses(m', n, b)
    ensures DrawsOfPasses(0, n, b) == 0 && DrawsOfPasses(1, n, b) == DrawsUsed(Noise, n, b)
  {
    var each := DrawsUsed(Noise, n, b);
    assert (m + m') * each == m * each + m' * each;
  }

  /** Byte o of a noise pass that begins at draw `first`. */
  function NoiseByte(draws: Draws, first: nat, o: nat, b: nat): Byte
    requires b > 0
  {
    var d: Draw := draws(first + DrawIndex(o, b));
    d[PlaceOf(o, b) % 8]
  }

  /** Byte o of pass k, straight from the settings. */
  function PassByte(config: Config, order: seq<seq<Byte>>, draws: Draws, n: nat, k: nat, o: nat): Byte
    requires config.bufferSize > 0 && |order| == 27 && forall i :: 0 <= i < 27 ==> |order[i]| > 0
  {
    var b := config.bufferSize;
    match config.kind
    case NistClear | ZeroOnly => 0x00
    case Dod522022M =>
      if k == 0 then 0x00 else if k == 1 then 0xFF else NoiseByte(draws, 0, o, b)
    case PrngCustom =>
      if k < config.passes then NoiseByte(draws, DrawsOfPasses(k, n, b), o, b) else 0x00
    case Gutmann =>
      if k < 4 then NoiseByte(draws, DrawsOfPasses(k, n, b), o, b)
      else if k < 31 then order[k - 4][PlaceOf(o, b) % |order[k - 4]|]
      else NoiseByte(draws, DrawsOfPasses(k - 27, n, b), o, b)
  }

  lemma NoiseByteAt(o: nat, b: nat, draws: Draws, base: nat)
    requires b > 0
    ensures ByteAt(Noise, o, b, draws, base) == NoiseByte(draws, base, o, b)
  {
  }

  /** Draws before pass k + m, if the m passes from k on are all noise, or none is. */
  lemma {:induction false} BaseOfStretch(run: Run, k: nat, m: nat)
    requires run.bufferSize > 0 && k + m <= |run.plan|
    ensures (forall i :: k <= i < k + m ==> run.plan[i].Noise?) ==>
              run.Base(k + m) == run.Base(k) + DrawsOfPasses(m, run.size, run.bufferSize)
    ensures (forall i :: k <= i < k + m ==> !run.plan[i].Noise?) ==> run.Base(k + m) == run.Base(k)
  {
    DrawsAddUp(if m > 0 then m - 1 else 0, 1, run.size, run.bufferSize);
    if m > 0 { BaseOfStretch(run, k, m - 1); }
  }

  lemma LaidNoise(run: Run, k: nat, o: nat, first: nat)
    requires run.Valid() && k < |run.plan| && o < run.size
    requires run.plan[k].Noise? && run.Base(k) == first
    ensures run.Laid(k)[o] == NoiseByte(run.draws, first, o, run.bufferSize)
  {
    NoiseByteAt(o, run.bufferSize, run.draws, first);
  }

  lemma LaidPattern(run: Run, k: nat, o: nat)
    requires run.Valid() && k < |run.plan| && o < run.size && run.plan[k].Pattern?
    ensures |run.plan[k].bytes| > 0
    ensures run.Laid(k)[o] == run.plan[k].bytes[PlaceOf(o, run.bufferSize) % |run.plan[k].bytes|]
  {
    assert run.plan[k].Proper();
  }

  lemma LaidInGutmann(run: Run, config: Config, order: seq<seq<Byte>>, k: nat, o: nat)
    requires config.kind.Gutmann? && |order| == 27 && forall i :: 0 <= i < 27 ==> |order[i]| > 0
    requires run.Valid() && run.plan == Plan(config, order) && run.bufferSize == config.bufferSize
    requires k < 35 && o < run.size
    ensures |run.plan| == 35
    ensures run.Laid(k)[o] == PassByte(config, order, run.draws, run.size, k, o)
  {
    assert |run.plan| == 35;
    DrawsAddUp(0, 0, run.size, run.bufferSize);
    if k < 4 {
      BaseOfStretch(run, 0, k);
      LaidNoise(run, k, o, DrawsOfPasses(k, run.size, run.bufferSize));
    } else if k < 31 {
      assert run.plan[k] == Pattern(order[k - 4]);
      LaidPattern(run, k, o);
    } else {
      BaseOfStretch(run, 0, 4);
      BaseOfStretch(run, 4, 27);
      BaseOfStretch(run, 31, k - 31);
      DrawsAddUp(4, k - 31, run.size, run.bufferSize);
      LaidNoise(run, k, o, DrawsOfPasses(k - 27, run.size, run.bufferSize));
    }
  }

  lemma LaidInCustom(run: Run, config: Config, order: seq<seq<Byte>>, k: nat, o: nat)
    requires config.kind.PrngCustom? && |order| == 27 && forall i :: 0 <= i < 27 ==> |order[i]| > 0
    requires run.Valid() && run.plan == Plan(config, order) && run.bufferSize == config.bufferSize
    requires k < |run.plan| && o < run.size
    ensures run.Laid(k)[o] == PassByte(config, order, run.draws, run.size, k, o)
  {
    if k < config.passes {
      BaseOfStretch(run, 0, k);
      LaidNoise(run, k, o, DrawsOfPasses(k, run.size, run.bufferSize));
    }
  }

  lemma LaidInDod(run: Run, config: Config, order: seq<seq<Byte>>, k: nat, o: nat)
    requires config.kind.Dod522022M? && |order| == 27 && forall i :: 0 <= i < 27 ==> |order[i]| > 0
    requires run.Valid() && run.plan == Plan(config, order) && run.bufferSize == config.bufferSize
    requires k < 3 && o < run.size
    ensures |run.plan| == 3
    ensures run.Laid(k)[o] == PassByte(config, order, run.draws, run.size, k, o)
  {
    if k == 2 {
      BaseOfStretch(run, 0, 2);
      LaidNoise(run, 2, o, 0);
    }
  }

  /** What pass k of a run lays, straight from the settings. */
  lemma LaidBytes(run: Run, config: Config, order: seq<seq<Byte>>, k: nat, o: nat)
    requires Shuffled(order) && run.Valid() && run.plan == Plan(config, order) && run.bufferSize == config.bufferSize
    requires k < |run.plan| && o < run.size
    ensures |order| == 27 && forall i :: 0 <= i < 27 ==> |order[i]| > 0
    ensures run.Laid(k)[o] == PassByte(config, order, run.draws, run.size, k, o)
  {
    ShuffledPatterns(order);
    match config.kind
    case NistClear | ZeroOnly =>
    case Dod522022M => LaidInDod(run, config, order, k, o);
    case PrngCustom => LaidInCustom(run, config, order, k, o);
    case Gutmann => LaidInGutmann(run, config, order, k, o);
  }

  /** How many noise passes come before the last pass, when that is a noise pass. */
  function EarlierNoise(config: Config): nat {
    match config.kind
    case Gutmann => 7
    case PrngCustom => if config.passes > 0 then config.passes - 1 else 0
    case _ => 0
  }

  /** What the last pass lays at offset o. */
  function LastByte(config: Config, draws: Draws, n: nat, o: nat): Byte
    requires config.bufferSize > 0
  {
    if ZeroEnding(config) then 0x00
    else NoiseByte(draws, DrawsOfPasses(EarlierNoise(config), n, config.bufferSize), o, config.bufferSize)
  }

  /** Zeros, or byte (o % B) % 8 of the draw that covers the offset, counted behind the draws of the
      earlier noise passes: none, one pass less than requested, or seven. */
  lemma LastBytes(config: Config, draws: Draws, n: nat, o: nat)
    requires config.bufferSize > 0
    ensures var b, byte := config.bufferSize, LastByte(config, draws, n, o);
      var at := DrawIndex(o, b);
      match config.kind
      case NistClear | ZeroOnly => byte == 0x00
      case Dod522022M => byte == draws(at)[o % b % 8]
      case PrngCustom =>
        if config.zeroFill then byte == 0x00
        else config.passes > 0 ==> byte == draws(DrawsOfPasses(config.passes - 1, n, b) + at)[o % b % 8]
      case Gutmann => byte == draws(DrawsOfPasses(7, n, b) + at)[o % b % 8]
  {
    DrawsAddUp(0, 0, n, config.bufferSize);
  }

  lemma LastPassByte(config: Config, order: seq<seq<Byte>>, draws: Draws, n: nat, o: nat)
    requires config.bufferSize > 0 && |order| == 27 && forall i :: 0 <= i < 27 ==> |order[i]| > 0
    requires PassCount(config) > 0
    ensures PassByte(config, order, draws, n, PassCount(config) - 1, o) == LastByte(config, draws, n, o)
  {
    DrawsAddUp(0, 0, n, config.bufferSize);
  }

  /** What the passes before it lay. */
  lemma EarlierPassByte(config: Config, order: seq<seq<Byte>>, draws: Draws, n: nat, k: nat, o: nat)
    requires config.bufferSize > 0 && |order| == 27 && forall i :: 0 <= i < 27 ==> |order[i]| > 0
    ensures var b, byte := config.bufferSize, PassByte(config, order, draws, n, k, o);
      var at := DrawIndex(o, b);
      match config.kind
      case NistClear | ZeroOnly => byte == 0x00
      case Dod522022M => k < 2 ==> byte == if k == 0 then 0x00 else 0xFF
      case PrngCustom => k < config.passes ==> byte == draws(DrawsOfPasses(k, n, b) + at)[o % b % 8]
      case Gutmann =>
        && (k < 4 ==> byte == draws(DrawsOfPasses(k, n, b) + at)[o % b % 8])
        && (4 <= k < 31 ==> byte == order[k - 4][o % b % |order[k - 4]|])
        && (31 <= k < 35 ==> byte == draws(DrawsOfPasses(k - 27, n, b) + at)[o % b % 8])
  {
  }

  /** A payload that holds what the last pass laid. */
  lemma LastPassPayload(config: Config, order: seq<seq<Byte>>, draws: Draws, n: nat, payload: seq<Byte>)
    requires config.bufferSize > 0 && |order| == 27 && forall i :: 0 <= i < 27 ==> |order[i]| > 0
    requires PassCount(config) > 0 && n <= |payload|
    requires forall o :: 0 <= o < n ==> payload[o] == PassByte(config, order, draws, n, PassCount(config) - 1, o)
    ensures forall o :: 0 <= o < n ==> payload[o] == LastByte(config, draws, n, o)
  {
    forall o | 0 <= o < n
      ensures payload[o] == LastByte(config, draws, n, o)
    {
      LastPassByte(config, order, draws, n, o);
    }
  }
}
