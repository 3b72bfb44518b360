/** Facts about quotients and remainders that the solver does not find by itself. */
module Division {

  /** The chunk of size b that offset o falls into. */
  function ChunkOf(o: nat, b: nat): nat
    requires b > 0
  {
    o / b
  }

  /** The place of offset o within its chunk. */
  function PlaceOf(o: nat, b: nat): (i: nat)
    requires b > 0
    ensures i < b
  {
    o % b
  }

  lemma ChunkAndPlace(o: nat, b: nat)
    requires b > 0
    ensures o == ChunkOf(o, b) * b + PlaceOf(o, b)
  {
  }

  /** Position of byte i of chunk q. */
  lemma ChunkIndex(q: nat, i: nat, bufferSize: nat)
    requires i < bufferSize
    ensures ChunkOf(q * bufferSize + i, bufferSize) == q
    ensures PlaceOf(q * bufferSize + i, bufferSize) == i
  {
    var o := q * bufferSize + i;
    ChunkAndPlace(o, bufferSize);
    QuotientUnique(bufferSize, ChunkOf(o, bufferSize), PlaceOf(o, bufferSize), q, i);
  }

  lemma QuotientUnique(b: nat, q: int, r: int, q': int, r': int)
    requires 0 <= r < b && 0 <= r' < b
    requires q * b + r == q' * b + r'
    ensures q == q' && r == r'
  {
    assert (q - q') * b == r' - r;
    assert (q' - q) * b == r - r';
    if q > q' {
      AtLeastOnce(q - q', b);
    } else if q < q' {
      AtLeastOnce(q' - q, b);
    }
  }

  lemma AtLeastOnce(n: int, b: nat)
    requires n >= 1
    ensures n * b >= b
  {
  }

  /** Chunks follow one another. */
  lemma NextChunk(start: nat, b: nat)
    requires b > 0 && PlaceOf(start, b) == 0
    ensures PlaceOf(start + b, b) == 0
  {
    var q := ChunkOf(start, b);
    ChunkAndPlace(start, b);
    NextMultiple(q, b);
    ChunkIndex(q + 1, 0, b);
  }

  lemma MultipleMonotone(a: int, c: int, b: nat)
    requires a <= c
    ensures a * b <= c * b
  {
  }

  lemma NextMultiple(q: int, b: int)
    ensures (q + 1) * b == q * b + b
  {
  }

  lemma MultipleOf(q: nat, unit: nat)
    requires unit > 0
    ensures (q * unit) % unit == 0
  {
    ChunkIndex(q, 0, unit);
  }

  /** Taking the remainder by a multiple first changes nothing. */
  lemma NestedRemainder(o: nat, b: nat, k: nat)
    requires b > 0 && k > 0 && b % k == 0
    ensures (o % b) % k == o % k
  {
    var r, c := o % b, b / k;
    var q := (o / b) * c + r / k;
    assert b == k * c;
    assert o == (o / b) * b + r;
    assert (o / b) * b == ((o / b) * c) * k by {
      assert (o / b) * (k * c) == ((o / b) * c) * k;
    }
    assert r == (r / k) * k + r % k;
    assert o == q * k + r % k by {
      assert q * k == ((o / b) * c) * k + (r / k) * k;
    }
    ChunkIndex(q, r % k, k);
  }
}
