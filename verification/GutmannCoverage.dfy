/** The 27 fixed Gutmann passes cover every offset alike. */
module GutmannCoverage {
  import opened Bytes
  import opened Passes

  /** The bytes that the fixed passes lay at one offset, whatever the shuffle. */
  const COVERAGE: multiset<Byte> :=
    multiset{0x55, 0xAA} + multiset{0x92, 0x49, 0x24} + multiset(Nibbles())
    + multiset{0x92, 0x49, 0x24} + multiset{0x6D, 0xB6, 0xDB}

  /** The byte a pattern lays at position `phase` of a chunk; patterns have one or three bytes. */
  function At(p: seq<Byte>, phase: nat): Byte {
    if |p| == 0 then 0 else p[phase % |p|]
  }

  function Column(order: seq<seq<Byte>>, phase: nat): (s: seq<Byte>)
    ensures |s| == |order| && forall i :: 0 <= i < |s| ==> s[i] == At(order[i], phase)
  {
    seq(|order|, i requires 0 <= i < |order| => At(order[i], phase))
  }

  lemma ColumnOfSum(a: seq<seq<Byte>>, b: seq<seq<Byte>>, phase: nat)
    ensures Column(a + b, phase) == Column(a, phase) + Column(b, phase)
    ensures multiset(Column(a + b, phase)) == multiset(Column(a, phase)) + multiset(Column(b, phase))
  {
    assert Column(a + b, phase) == Column(a, phase) + Column(b, phase);
  }

  /** Taking the same element out of two permutations leaves permutations. */
  lemma DropOne<T>(p: T, rest: seq<T>, left: seq<T>, right: seq<T>)
    requires multiset([p] + rest) == multiset(left + ([p] + right))
    ensures multiset(rest) == multiset(left + right)
  {
    assert multiset([p] + rest) == multiset{p} + multiset(rest);
    assert multiset(left + ([p] + right)) == multiset{p} + multiset(left + right);
    assert multiset{p} + multiset(rest) - multiset{p} == multiset(rest);
    assert multiset{p} + multiset(left + right) - multiset{p} == multiset(left + right);
  }

  /** Mapping commutes with permuting. */
  lemma {:induction false} ColumnOfPermutation(a: seq<seq<Byte>>, b: seq<seq<Byte>>, phase: nat)
    requires multiset(a) == multiset(b)
    ensures multiset(Column(a, phase)) == multiset(Column(b, phase))
    decreases |a|
  {
    Permuted(a, b);
    if a != [] {
      var j :| 0 <= j < |b| && b[j] == a[0];
      var one, rest, left, right := [a[0]], a[1..], b[..j], b[j + 1..];
      assert a == one + rest;
      assert b == left + (one + right);
      DropOne(a[0], rest, left, right);
      ColumnOfPermutation(rest, left + right, phase);
      ColumnOfSum(one, rest, phase);
      ColumnOfSum(left, one + right, phase);
      ColumnOfSum(one, right, phase);
      ColumnOfSum(left, right, phase);
    }
  }

  /** In list order the column is the coverage, at every phase: each group of three rotations
      contributes its three bytes in some order. */
  lemma ColumnOfList(phase: nat)
    ensures multiset(Column(GutmannPatterns(), phase)) == COVERAGE
  {
    var first: seq<seq<Byte>> := [[0x55], [0xAA]];
    var second, last := Rotations(0x92, 0x49, 0x24), Rotations(0x6D, 0xB6, 0xDB);
    ColumnOfSum(first + second + Singles(Nibbles()) + second, last, phase);
    ColumnOfSum(first + second + Singles(Nibbles()), second, phase);
    ColumnOfSum(first + second, Singles(Nibbles()), phase);
    ColumnOfSum(first, second, phase);
    assert Column(first, phase) == [0x55, 0xAA];
    assert Column(Singles(Nibbles()), phase) == Nibbles();
    ColumnOfRotations(0x92, 0x49, 0x24, phase);
    ColumnOfRotations(0x6D, 0xB6, 0xDB, phase);
  }

  lemma ColumnOfRotations(a: Byte, b: Byte, c: Byte, phase: nat)
    ensures multiset(Column(Rotations(a, b, c), phase)) == multiset{a, b, c}
  {
    var column := Column(Rotations(a, b, c), phase);
    var r := phase % 3;
    assert column == if r == 0 then [a, b, c] else if r == 1 then [b, c, a] else [c, a, b];
  }

  /** The bytes that passes 5 to 31 of a Gutmann run lay at offset `o`, in the order laid. */
  ghost function LaidAt(run: Run, o: nat): seq<Byte>
    requires run.Valid() && |run.plan| == 35 && o < run.size
  {
    seq(27, i requires 0 <= i < 27 => run.Laid(4 + i)[o])
  }

  /** Whatever the shuffle, the buffer size and the file size, every offset receives the same
      27 bytes from the fixed passes. */
  lemma CoverageIsUniform(run: Run, config: Config, order: seq<seq<Byte>>, o: nat)
    requires config.kind.Gutmann? && Shuffled(order)
    requires run.Valid() && run.plan == Plan(config, order) && o < run.size
    ensures |run.plan| == 35
    ensures multiset(LaidAt(run, o)) == COVERAGE
  {
    ShuffledPatterns(order);
    FixedPart(config, order);
    var phase := o % run.bufferSize;
    LaidIsColumn(run, order, o);
    ColumnOfPermutation(order, GutmannPatterns(), phase);
    ColumnOfList(phase);
  }

  lemma LaidIsColumn(run: Run, order: seq<seq<Byte>>, o: nat)
    requires run.Valid() && |run.plan| == 35 && o < run.size && |order| == 27
    requires forall i :: 0 <= i < 27 ==> |order[i]| > 0 && run.plan[4 + i] == Pattern(order[i])
    ensures LaidAt(run, o) == Column(order, o % run.bufferSize)
  {
    var laid, column := LaidAt(run, o), Column(order, o % run.bufferSize);
    forall i | 0 <= i < 27
      ensures laid[i] == column[i]
    {
      assert laid[i] == run.Laid(4 + i)[o] == ByteAt(Pattern(order[i]), o, run.bufferSize, run.draws, run.Base(4 + i));
    }
  }

  lemma FixedPart(config: Config, order: seq<seq<Byte>>)
    requires config.kind.Gutmann? && |order| == 27
    ensures |Plan(config, order)| == 35
    ensures forall i :: 0 <= i < 27 ==> Plan(config, order)[4 + i] == Pattern(order[i])
  {
  }
}
