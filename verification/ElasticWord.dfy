/** Planes of multi-lane words and their zero-extended repacking (`elastic_word.rs`). */
module ElasticWord {
  import opened Outcomes

  const USIZE_MAX: nat := 0xffff_ffff_ffff_ffff
  const LANE_BITS: nat := 64
  const MAX_LANES: nat := 32

  datatype ElasticWordError =
    | UnsupportedLaneCount(lanes: nat)
    | UnsupportedBitWidth(bits: nat)
    | MisalignedStorageLength(laneCount: nat, lanesPerWord: nat)
    | StorageLengthOverflow
    | WordIndexOutOfBounds(index: nat, wordCount: nat)
    | NarrowingWouldDiscardData(word: nat, lane: nat, value: nat)

  type Elastic<+T> = Result<T, ElasticWordError>

  // ----- widths -----

  predicate IsPowerOfTwo(n: nat) {
    n == 1 || (n > 0 && n % 2 == 0 && IsPowerOfTwo(n / 2))
  }

  predicate Admitted(lanes: nat) {
    1 <= lanes <= MAX_LANES && IsPowerOfTwo(lanes)
  }

  lemma {:induction false} AdmittedWidths(lanes: nat)
    requires lanes <= MAX_LANES
    ensures IsPowerOfTwo(lanes) <==> lanes in {1, 2, 4, 8, 16, 32}
  {
    if lanes > 1 {
      AdmittedWidths(lanes / 2);
    }
  }

  /** `from_lanes`. */
  function FromLanes(lanes: nat): (r: Elastic<nat>)
    ensures r.Success? <==> lanes in {1, 2, 4, 8, 16, 32}
    ensures r == if r.Success? then Success(lanes) else Failure(UnsupportedLaneCount(lanes))
  {
    assert lanes <= MAX_LANES ==> (IsPowerOfTwo(lanes) <==> lanes in {1, 2, 4, 8, 16, 32}) by {
      if lanes <= MAX_LANES { AdmittedWidths(lanes); }
    }
    if Admitted(lanes) then Success(lanes) else Failure(UnsupportedLaneCount(lanes))
  }

  /** `from_bits`, on a `u16`. */
  function FromBits(bits: nat): (r: Elastic<nat>)
    requires bits < 0x1_0000
    ensures r.Success? <==> bits in {64, 128, 256, 512, 1024, 2048}
    ensures r == if r.Success? then Success(bits / 64) else Failure(UnsupportedBitWidth(bits))
  {
    if bits == 0 || bits % LANE_BITS != 0 then Failure(UnsupportedBitWidth(bits))
    else
      var lanes := bits / LANE_BITS;
      assert lanes <= MAX_LANES ==> (IsPowerOfTwo(lanes) <==> lanes in {1, 2, 4, 8, 16, 32}) by {
        if lanes <= MAX_LANES { AdmittedWidths(lanes); }
      }
      if lanes > 255 || FromLanes(lanes).Failure? then Failure(UnsupportedBitWidth(bits)) else Success(lanes)
  }

  // ----- flat positions -----

  /** `word * width`: where a word starts in the flat buffer. */
  function Offset(word: nat, width: nat): nat {
    if word == 0 then 0 else Offset(word - 1, width) + width
  }

  /** `n / width`: the whole words in a buffer of `n` lanes. */
  function Count(n: nat, width: nat): nat
    requires width > 0
  {
    if n < width then 0 else 1 + Count(n - width, width)
  }

  lemma {:induction false} OffsetIsProduct(word: nat, width: nat)
    ensures Offset(word, width) == word * width
  {
    if word > 0 {
      OffsetIsProduct(word - 1, width);
    }
  }

  lemma {:induction false} OffsetShift(word: nat, width: nat)
    ensures Offset(word + 1, width) == width + Offset(word, width)
  {
  }

  /** Words come one after another. */
  lemma {:induction false} OffsetOrder(a: nat, b: nat, width: nat)
    requires a < b
    ensures Offset(a, width) + width <= Offset(b, width)
  {
    if a < b - 1 {
      OffsetOrder(a, b - 1, width);
    }
  }

  lemma {:induction false} CountRemainder(n: nat, width: nat)
    requires width > 0
    ensures 0 <= n - Offset(Count(n, width), width) < width
  {
    if n >= width {
      CountRemainder(n - width, width);
      OffsetShift(Count(n - width, width), width);
    }
  }

  lemma {:induction false} ProductGrows(d: int, width: nat)
    ensures d >= 1 ==> d * width >= width
    ensures d <= -1 ==> d * width + width <= 0
  {
  }

  lemma {:induction false} QuotientUnique(n: nat, width: nat, count: nat, rest: nat)
    requires rest < width && n == count * width + rest
    ensures n / width == count && n % width == rest
  {
    assert n == (n / width) * width + n % width;
    assert (n / width - count) * width == (n / width) * width - count * width;
    ProductGrows(n / width - count, width);
  }

  /** The count is the quotient, and the words fill the buffer exactly when there is no remainder. */
  lemma {:induction false} CountIsQuotient(n: nat, width: nat)
    requires width > 0
    ensures Count(n, width) == n / width
    ensures n == Offset(Count(n, width), width) + n % width
  {
    CountRemainder(n, width);
    OffsetIsProduct(Count(n, width), width);
    QuotientUnique(n, width, Count(n, width), n - Offset(Count(n, width), width));
  }

  lemma {:induction false} CountOfOffset(count: nat, width: nat)
    requires width > 0
    ensures Count(Offset(count, width), width) == count
  {
    if count > 0 {
      CountOfOffset(count - 1, width);
    }
  }

  /** Every flat position is a lane of a word. */
  lemma {:induction false} Locate(k: nat, count: nat, width: nat) returns (word: nat, lane: nat)
    requires width > 0 && k < Offset(count, width)
    ensures word < count && lane < width && k == Offset(word, width) + lane
  {
    CountIsQuotient(k, width);
    word, lane := Count(k, width), k % width;
    if word >= count {
      OffsetOrder(count - 1, word, width);
    }
  }

  /** Different lanes have different flat positions. */
  lemma {:induction false} PositionsDiffer(i: nat, j: nat, word: nat, lane: nat, width: nat)
    requires j < width && lane < width && (i != word || j != lane)
    ensures Offset(i, width) + j != Offset(word, width) + lane
  {
    if i < word {
      OffsetOrder(i, word, width);
    } else if word < i {
      OffsetOrder(word, i, width);
    }
  }

  // ----- planes -----

  /** `ElasticWordPlaneV1`: one width for the whole plane, and a flat lane buffer. */
  datatype Plane = Plane(width: nat, lanes: seq<nat>) {

    ghost predicate Valid() {
      Admitted(width) && |lanes| == Offset(Count(|lanes|, width), width) <= USIZE_MAX
    }

    /** `word_count`. */
    function WordCount(): nat
      requires width > 0
    {
      Count(|lanes|, width)
    }

    /** The zero-extended view: lane `lane` of word `word`, zero beyond what is stored. */
    ghost function Lane(word: nat, lane: nat): nat
      requires Valid()
    {
      if word < WordCount() && lane < width then
        OffsetOrder(word, WordCount(), width);
        lanes[Offset(word, width) + lane]
      else 0
    }

    /** `word`: both overflow checks and the bounds check report the same error. */
    function Word(index: nat): Elastic<seq<nat>>
      requires width > 0
    {
      var start := Offset(index, width);
      var end := start + width;
      if start > USIZE_MAX || end > USIZE_MAX || end > |lanes| then Failure(WordIndexOutOfBounds(index, WordCount()))
      else Success(lanes[start..end])
    }
  }

  /** `ElasticWordPlaneV1::new`. */
  function NewPlane(width: nat, lanes: seq<nat>): (r: Elastic<Plane>)
    requires Admitted(width) && |lanes| <= USIZE_MAX
    ensures r.Success? <==> Plane(width, lanes).Valid()
    ensures r == if r.Success? then Success(Plane(width, lanes)) else Failure(MisalignedStorageLength(|lanes|, width))
  {
    CountIsQuotient(|lanes|, width);
    if |lanes| % width != 0 then Failure(MisalignedStorageLength(|lanes|, width)) else Success(Plane(width, lanes))
  }

  /** A word can be borrowed exactly when its index is below the word count, and it is the stored lanes. */
  lemma {:induction false} WordExact(p: Plane, index: nat)
    requires p.Valid()
    ensures p.Word(index).Success? <==> index < p.WordCount()
    ensures p.Word(index).Success? ==>
              && |p.Word(index).value| == p.width
              && forall j :: 0 <= j < p.width ==> p.Word(index).value[j] == p.Lane(index, j)
  {
    if index < p.WordCount() {
      OffsetOrder(index, p.WordCount(), p.width);
    } else if index > p.WordCount() {
      OffsetOrder(p.WordCount(), index, p.width);
    }
  }

  /** A plane is a whole number of words, each stored as consecutive lanes, and lanes not stored read zero. */
  lemma {:induction false} PlaneLayout(p: Plane, word: nat, lane: nat)
    requires p.width > 0
    ensures p.Valid() <==> Admitted(p.width) && |p.lanes| % p.width == 0 && |p.lanes| <= 0xffff_ffff_ffff_ffff
    ensures p.WordCount() == |p.lanes| / p.width
    ensures p.Valid() && word < |p.lanes| / p.width && lane < p.width ==>
              word * p.width + lane < |p.lanes| && p.Lane(word, lane) == p.lanes[word * p.width + lane]
    ensures p.Valid() && !(word < |p.lanes| / p.width && lane < p.width) ==> p.Lane(word, lane) == 0
  {
    CountIsQuotient(|p.lanes|, p.width);
    OffsetIsProduct(word, p.width);
    if p.Valid() && word < p.WordCount() {
      OffsetOrder(word, p.WordCount(), p.width);
    }
  }

  /** A word that cannot be borrowed is reported with the number of words there are. */
  lemma {:induction false} WordErrors(p: Plane, index: nat)
    requires p.Valid() && index >= p.WordCount()
    ensures p.Word(index) == Failure(WordIndexOutOfBounds(index, p.WordCount()))
  {
    WordExact(p, index);
  }

  /** The two planes hold the same words up to leading zero lanes. */
  ghost predicate SameWords(p: Plane, q: Plane)
    requires p.Valid() && q.Valid()
  {
    p.WordCount() == q.WordCount() && forall i: nat, j: nat :: p.Lane(i, j) == q.Lane(i, j)
  }

  /** Width and words determine a plane. */
  lemma {:induction false} SamePlane(p: Plane, q: Plane)
    requires p.Valid() && q.Valid() && SameWords(p, q) && p.width == q.width
    ensures p == q
  {
    forall k | 0 <= k < |p.lanes| ensures p.lanes[k] == q.lanes[k] {
      var i, j := Locate(k, p.WordCount(), p.width);
      assert p.Lane(i, j) == q.Lane(i, j);
    }
  }

  // ----- repacking -----

  /** The first lane, word by word and then lane by lane, that a contraction to `target` would lose. */
  ghost predicate FirstLoss(p: Plane, target: nat, word: nat, lane: nat, value: nat)
    requires p.Valid()
  {
    && lane >= target && p.Lane(word, lane) == value != 0
    && forall i: nat, j: nat :: j >= target && (i < word || (i == word && j < lane)) ==> p.Lane(i, j) == 0
  }

  /** What repacking to `target` may return: the same words, or the reason there is no such plane. */
  ghost predicate Repacked(p: Plane, target: nat, r: Elastic<Plane>)
    requires p.Valid() && Admitted(target)
  {
    match r
    case Success(q) => q.Valid() && q.width == target && SameWords(p, q)
    case Failure(StorageLengthOverflow) => Offset(p.WordCount(), target) > USIZE_MAX
    case Failure(NarrowingWouldDiscardData(word, lane, value)) =>
      Offset(p.WordCount(), target) <= USIZE_MAX && FirstLoss(p, target, word, lane, value)
    case Failure(_) => false
  }

  /** Lane `j` of word `i` in a buffer of width `target`. */
  ghost function At(buffer: seq<nat>, target: nat, i: nat, j: nat): nat {
    var k := Offset(i, target) + j;
    if k < |buffer| then buffer[k] else 0
  }

  /** Whole words before `word`, and lanes of it before `lane`, hold the view of `p`; all others are still zero. */
  ghost predicate Copied(p: Plane, target: nat, buffer: seq<nat>, word: nat, lane: nat)
    requires p.Valid()
  {
    forall i: nat, j: nat :: i < p.WordCount() && j < target ==>
      At(buffer, target, i, j) == if i < word || (i == word && j < lane) then p.Lane(i, j) else 0
  }

  /** `copy_from_slice` of the lanes two widths have in common, for one word. */
  method CopyWord(p: Plane, target: nat, output: array<nat>, word: nat)
    requires p.Valid() && output.Length == Offset(p.WordCount(), target) && word < p.WordCount()
    requires Copied(p, target, output[..], word, 0)
    modifies output
    ensures Copied(p, target, output[..], word + 1, 0)
  {
    var sourceStart, targetStart := Offset(word, p.width), Offset(word, target);
    var common := if p.width < target then p.width else target;
    OffsetOrder(word, p.WordCount(), target);
    OffsetOrder(word, p.WordCount(), p.width);
    for lane := 0 to common
      invariant Copied(p, target, output[..], word, lane)
    {
      ghost var before := output[..];
      output[targetStart + lane] := p.lanes[sourceStart + lane];
      CopyStep(p, target, before, word, lane, p.lanes[sourceStart + lane]);
      assert output[..] == before[targetStart + lane := p.lanes[sourceStart + lane]];
    }
  }

  lemma {:induction false} CopyStep(p: Plane, target: nat, buffer: seq<nat>, word: nat, lane: nat, value: nat)
    requires p.Valid() && word < p.WordCount() && lane < target && Offset(word, target) + lane < |buffer|
    requires Copied(p, target, buffer, word, lane) && value == p.Lane(word, lane)
    ensures Copied(p, target, buffer[Offset(word, target) + lane := value], word, lane + 1)
  {
    var after := buffer[Offset(word, target) + lane := value];
    assert At(after, target, word, lane) == value;
    forall i: nat, j: nat | i < p.WordCount() && j < target
      ensures At(after, target, i, j) == if i < word || (i == word && j < lane + 1) then p.Lane(i, j) else 0
    {
      if i != word || j != lane {
        PositionsDiffer(i, j, word, lane, target);
        assert At(after, target, i, j) == At(buffer, target, i, j);
      }
    }
  }

  /** The search for a non-zero lane among those a contraction drops from one word. */
  method FindDropped(p: Plane, target: nat, word: nat) returns (lane: nat)
    requires p.Valid() && word < p.WordCount()
    ensures lane < p.width ==> lane >= target && p.Lane(word, lane) != 0
    ensures forall j: nat :: j >= target && (j < lane || lane >= p.width) ==> p.Lane(word, j) == 0
  {
    OffsetOrder(word, p.WordCount(), p.width);
    lane := target;
    while lane < p.width && p.lanes[Offset(word, p.width) + lane] == 0
      invariant lane >= target
      invariant forall j: nat :: target <= j < lane ==> p.Lane(word, j) == 0
    {
      lane := lane + 1;
    }
  }

  /** `reference_repack_zero_extended`. */
  method Repack(p: Plane, target: nat) returns (r: Elastic<Plane>)
    requires p.Valid() && Admitted(target)
    ensures Repacked(p, target, r)
  {
    if target == p.width {
      return Success(p);
    }
    var wordCount := p.WordCount();
    var targetLaneCount := Offset(wordCount, target);
    if targetLaneCount > USIZE_MAX {
      return Failure(StorageLengthOverflow);
    }
    var output := new nat[targetLaneCount](_ => 0);
    for word := 0 to wordCount
      invariant forall i: nat, j: nat :: i < word && j >= target ==> p.Lane(i, j) == 0
      invariant Copied(p, target, output[..], word, 0)
    {
      CopyWord(p, target, output, word);
      var lane := FindDropped(p, target, word);
      if lane < p.width {
        OffsetOrder(word, wordCount, p.width);
        return Failure(NarrowingWouldDiscardData(word, lane, p.lanes[Offset(word, p.width) + lane]));
      }
    }
    CopiedWords(p, target, output[..]);
    r := Success(Plane(target, output[..]));
  }

  /** A fully copied buffer that lost nothing holds the same words. */
  lemma {:induction false} CopiedWords(p: Plane, target: nat, buffer: seq<nat>)
    requires p.Valid() && Admitted(target) && |buffer| == Offset(p.WordCount(), target) <= USIZE_MAX
    requires Copied(p, target, buffer, p.WordCount(), 0)
    requires forall i: nat, j: nat :: i < p.WordCount() && j >= target ==> p.Lane(i, j) == 0
    ensures Plane(target, buffer).Valid() && SameWords(p, Plane(target, buffer))
  {
    var q := Plane(target, buffer);
    CountOfOffset(p.WordCount(), target);
    forall i: nat, j: nat ensures p.Lane(i, j) == q.Lane(i, j) {
      if i < p.WordCount() && j < target {
        OffsetOrder(i, p.WordCount(), target);
        assert At(buffer, target, i, j) == p.Lane(i, j);
      }
    }
  }

  // ----- what repacking promises -----

  /** There is exactly one permitted outcome, so these conditions determine the repacker, its errors included. */
  lemma {:induction false} RepackedUnique(p: Plane, target: nat, r: Elastic<Plane>, s: Elastic<Plane>)
    requires p.Valid() && Admitted(target) && Repacked(p, target, r) && Repacked(p, target, s)
    ensures r == s
  {
    RepackSucceedsExactly(p, target, r);
    RepackSucceedsExactly(p, target, s);
    if r.Success? && s.Success? {
      forall i: nat, j: nat ensures r.value.Lane(i, j) == s.value.Lane(i, j) {
        assert p.Lane(i, j) == r.value.Lane(i, j) && p.Lane(i, j) == s.value.Lane(i, j);
      }
      SamePlane(r.value, s.value);
    }
  }

  /** A flat position below the words of a plane, as word and lane. */
  lemma {:induction false} FlatLane(p: Plane, k: nat) returns (word: nat, lane: nat)
    requires p.Valid() && k < |p.lanes|
    ensures word < p.WordCount() && lane == k % p.width && k == Offset(word, p.width) + lane
    ensures p.Lane(word, lane) == p.lanes[k]
  {
    CountIsQuotient(|p.lanes|, p.width);
    word, lane := Locate(k, p.WordCount(), p.width);
    OffsetIsProduct(word, p.width);
    QuotientUnique(k, p.width, word, lane);
  }

  /** The lane reported as lost is the first one in the buffer that is non-zero and does not fit the target width. */
  lemma {:induction false} LossInBuffer(p: Plane, target: nat, word: nat, lane: nat, value: nat, k: nat)
    requires p.Valid() && Admitted(target)
    requires Repacked(p, target, Failure(NarrowingWouldDiscardData(word, lane, value)))
    ensures target <= lane < p.width && Offset(word, p.width) + lane < |p.lanes|
    ensures p.lanes[Offset(word, p.width) + lane] == value != 0
    ensures k < Offset(word, p.width) + lane && k % p.width >= target ==> p.lanes[k] == 0
  {
    OffsetOrder(word, p.WordCount(), p.width);
    if k < Offset(word, p.width) + lane && k % p.width >= target {
      var i, j := FlatLane(p, k);
      if i > word {
        OffsetOrder(word, i, p.width);
      }
      assert p.Lane(i, j) == 0;
    }
  }

  /** The length overflows exactly where the words times the target width pass the address range. */
  lemma {:induction false} OverflowExactly(p: Plane, target: nat, r: Elastic<Plane>)
    requires p.Valid() && Admitted(target) && Repacked(p, target, r)
    ensures r == Failure(StorageLengthOverflow) <==> (|p.lanes| / p.width) * target > 0xffff_ffff_ffff_ffff
  {
    CountIsQuotient(|p.lanes|, p.width);
    OffsetIsProduct(p.WordCount(), target);
  }

  /** Repacking succeeds exactly when the target fits and every dropped lane is zero. */
  lemma {:induction false} RepackSucceedsExactly(p: Plane, target: nat, r: Elastic<Plane>)
    requires p.Valid() && Admitted(target) && Repacked(p, target, r)
    ensures r.Success?
       <==> Offset(p.WordCount(), target) <= USIZE_MAX && forall i: nat, j: nat :: j >= target ==> p.Lane(i, j) == 0
  {
    if r.Success? {
      var q := r.value;
      forall i: nat, j: nat | j >= target ensures p.Lane(i, j) == 0 {
        assert p.Lane(i, j) == q.Lane(i, j);
      }
    }
  }

  /** The same words take no more room at a smaller width. */
  lemma {:induction false} OffsetGrows(word: nat, narrow: nat, wide: nat)
    requires narrow <= wide
    ensures Offset(word, narrow) <= Offset(word, wide)
  {
    if word > 0 {
      OffsetGrows(word - 1, narrow, wide);
    }
  }

  /** A contraction succeeds exactly when every dropped lane is zero, and never overflows. */
  lemma {:induction false} ContractionExactly(p: Plane, target: nat, r: Elastic<Plane>)
    requires p.Valid() && Admitted(target) && target <= p.width && Repacked(p, target, r)
    ensures r.Success? <==> forall i: nat, j: nat :: j >= target ==> p.Lane(i, j) == 0
    ensures r != Failure(StorageLengthOverflow)
  {
    OffsetGrows(p.WordCount(), target, p.width);
    RepackSucceedsExactly(p, target, r);
  }

  /** An expansion succeeds exactly when the target length fits, and never loses data. */
  lemma {:induction false} ExpansionExactly(p: Plane, target: nat, r: Elastic<Plane>)
    requires p.Valid() && Admitted(target) && target >= p.width && Repacked(p, target, r)
    ensures r.Success? <==> Offset(p.WordCount(), target) <= USIZE_MAX
    ensures r.Failure? ==> r.error == StorageLengthOverflow
  {
    RepackSucceedsExactly(p, target, r);
  }

  /** Planes holding the same words may repack to the same outcomes, whatever the target. */
  lemma {:induction false} SameWordsRepackAlike(p: Plane, q: Plane, target: nat, r: Elastic<Plane>)
    requires p.Valid() && q.Valid() && SameWords(p, q) && Admitted(target) && Repacked(p, target, r)
    ensures Repacked(q, target, r)
  {
    if r.Success? {
      forall i: nat, j: nat ensures q.Lane(i, j) == r.value.Lane(i, j) {
        assert p.Lane(i, j) == q.Lane(i, j);
      }
    }
  }

  /**
   Path independence: repacking the result of a repacking returns exactly what repacking
   the original returns, the first offending word, lane and value included.
   */
  lemma {:induction false} PathIndependence(p: Plane, via: nat, q: Plane, target: nat, direct: Elastic<Plane>,
      indirect: Elastic<Plane>)
    requires p.Valid() && Admitted(via) && Repacked(p, via, Success(q)) && Admitted(target)
    requires Repacked(p, target, direct) && Repacked(q, target, indirect)
    ensures direct == indirect
  {
    SameWordsRepackAlike(p, q, target, direct);
    RepackedUnique(q, target, direct, indirect);
  }

  /** Repacking there and back returns the original plane. */
  lemma {:induction false} RepackRoundTrip(p: Plane, via: nat, q: Plane, r: Elastic<Plane>)
    requires p.Valid() && Admitted(via) && Repacked(p, via, Success(q)) && Repacked(q, p.width, r)
    ensures r == Success(p)
  {
    PathIndependence(p, via, q, p.width, Success(p), r);
  }
}
