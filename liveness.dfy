/** Liveness: the four-slot history of detected face geometry and the analyser that
    rejects static or rigidly moved photographs (`faceHistory`, `resetLivenessTracking`
    and `checkLiveness` in main.cpp). */
module Liveness {
  import opened Rings

  const LivenessCheckCount := 4       // frames the analyser needs
  const MaxMicroMovement := 20        // upper bound of a natural micro-movement
  const PhotoThreshold := 30          // movement above this looks like a moved photo
  const ConsistencyRequired := 2      // micro-movement pairs needed to pass
  const UniformVarianceMax := 5       // check 3: spread below this is "uniform"
  const FlatPositionMin := 10         // check 4: average movement above this with no size change
  const MinPositionSeed := 999        // initial value of the running minimum

  /** One slot of the history: face centre, face size, and whether the slot holds a sample. */
  datatype FacePosition = FacePosition(cx: int, cy: int, width: int, height: int, valid: bool)

  /** The geometry of a detected face, as the detector reports it. */
  datatype Sample = Sample(cx: int, cy: int, width: int, height: int)

  function Recorded(s: Sample): FacePosition {
    FacePosition(s.cx, s.cy, s.width, s.height, true)
  }

  type Window = Ring<FacePosition>

  /** The history's invariant: a ring of four slots in which exactly the slots written
      since the last reset are marked valid. */
  predicate WindowValid(w: Window) {
    && RingValid(w, LivenessCheckCount)
    && forall i :: 0 <= i < LivenessCheckCount ==> (w.slots[i].valid <==> i < w.count)
  }

  /** The samples held, oldest first. */
  function Samples(w: Window): (s: seq<FacePosition>)
    requires WindowValid(w)
    ensures |s| == w.count <= LivenessCheckCount
  {
    Contents(w, LivenessCheckCount)
  }

  // ---------------------------------------------------------------------------
  // Window operations
  // ---------------------------------------------------------------------------

  /** Storing a detected face: the slot under the cursor, the cursor advanced modulo 4,
      the count saturated at 4; the window then holds the last four samples. */
  function StoreSample(w: Window, s: Sample): (w': Window)
    requires WindowValid(w)
    ensures WindowValid(w')
    ensures w'.slots[w.index] == Recorded(s)
    ensures w'.index == (w.index + 1) % LivenessCheckCount
    ensures w'.count == if w.count < LivenessCheckCount then w.count + 1 else LivenessCheckCount
    ensures Samples(w') == LastN(Samples(w) + [Recorded(s)], LivenessCheckCount)
  {
    PushContents(w, LivenessCheckCount, Recorded(s));
    Push(w, LivenessCheckCount, Recorded(s))
  }

  /** `resetLivenessTracking`: cursor and count to zero, every slot marked invalid. */
  function ResetWindow(w: Window): (w': Window)
    requires |w.slots| == LivenessCheckCount
    ensures WindowValid(w') && Samples(w') == []
    ensures forall i :: 0 <= i < LivenessCheckCount ==> !w'.slots[i].valid
  {
    Ring(seq(|w.slots|, i requires 0 <= i < |w.slots| => w.slots[i].(valid := false)), 0, 0)
  }

  /** On an identity change the history restarts from the current sample alone:
      reset, then slot 0 holds the sample, count 1, cursor 1. */
  function ReseedWindow(w: Window, s: Sample): (w': Window)
    requires |w.slots| == LivenessCheckCount
    ensures WindowValid(w') && Samples(w') == [Recorded(s)]
    ensures w'.index == 1 && w'.count == 1 && w'.slots[0] == Recorded(s)
  {
    var r := ResetWindow(w);
    var w' := Ring(r.slots[0 := Recorded(s)], 1, 1);
    assert w'.slots[..1] == [Recorded(s)];
    w'
  }

  /** Reseeding is exactly a reset followed by an ordinary store. */
  lemma ReseedIsResetThenStore(w: Window, s: Sample)
    requires |w.slots| == LivenessCheckCount
    ensures ReseedWindow(w, s) == StoreSample(ResetWindow(w), s)
  {
  }

  // ---------------------------------------------------------------------------
  // The analyser
  // ---------------------------------------------------------------------------

  /** Manhattan change of centre and of size between two slots. */
  datatype Delta = Delta(pos: int, size: int)

  function Abs(x: int): nat {
    if x < 0 then -x else x
  }

  function PairDelta(a: FacePosition, b: FacePosition): Delta {
    Delta(Abs(b.cx - a.cx) + Abs(b.cy - a.cy), Abs(b.width - a.width) + Abs(b.height - a.height))
  }

  datatype Movement = Zero | Micro | Large | Unclassified

  /** The three movement bands, checked in this order; a pair in neither band (a
      position change of 21 to 30) is left unclassified. */
  function Classify(d: Delta): Movement {
    if d.pos == 0 && d.size == 0 then Zero
    else if d.pos <= MaxMicroMovement then Micro
    else if d.pos > PhotoThreshold then Large
    else Unclassified
  }

  /** What the first loop of `checkLiveness` accumulates: the position and size change
      of each compared pair, in the order compared, and the count of each band. */
  datatype Comparison = Comparison(posChanges: seq<int>, sizeChanges: seq<int>,
                                   zero: nat, micro: nat, large: nat)

  function Indicator(b: bool): nat {
    if b then 1 else 0
  }

  /** One compared pair: its changes appended, the count of its band (if any) raised. */
  function Tallied(c: Comparison, d: Delta): Comparison {
    var m := Classify(d);
    Comparison(c.posChanges + [d.pos], c.sizeChanges + [d.size],
               c.zero + Indicator(m == Zero), c.micro + Indicator(m == Micro),
               c.large + Indicator(m == Large))
  }

  /** The first `k` adjacent slot pairs (0-1, 1-2, ...), in array order, a pair skipped
      when either slot is invalid. Every compared pair is counted in at most one band. */
  function Compare(slots: seq<FacePosition>, k: nat): (c: Comparison)
    requires k < |slots|
    ensures |c.posChanges| == |c.sizeChanges| <= k
    ensures c.zero + c.micro + c.large <= |c.posChanges|
  {
    if k == 0 then Comparison([], [], 0, 0, 0)
    else
      var c := Compare(slots, k - 1);
      if slots[k - 1].valid && slots[k].valid then Tallied(c, PairDelta(slots[k - 1], slots[k])) else c
  }

  /** A pair of valid slots is tallied; any other pair leaves the comparison alone. */
  lemma CompareNext(slots: seq<FacePosition>, k: nat)
    requires k + 1 < |slots|
    ensures Compare(slots, k + 1) ==
      if slots[k].valid && slots[k + 1].valid
      then Tallied(Compare(slots, k), PairDelta(slots[k], slots[k + 1]))
      else Compare(slots, k)
  {
  }

  function Sum(xs: seq<int>): int {
    if xs == [] then 0 else Sum(xs[..|xs| - 1]) + xs[|xs| - 1]
  }

  /** Running maximum, seeded with 0. */
  function MaxOf(xs: seq<int>): int {
    if xs == [] then 0
    else var m := MaxOf(xs[..|xs| - 1]); if xs[|xs| - 1] > m then xs[|xs| - 1] else m
  }

  /** Running minimum, seeded with 999. */
  function MinOf(xs: seq<int>): int {
    if xs == [] then MinPositionSeed
    else var m := MinOf(xs[..|xs| - 1]); if xs[|xs| - 1] < m then xs[|xs| - 1] else m
  }

  datatype Stats = Stats(comparisons: nat, zero: nat, micro: nat, large: nat,
                         avgPos: int, avgSize: int, variance: int)

  /** The aggregate the checks read: counts per band, integer averages, max - min spread.
      All changes are non-negative, so C's truncating division agrees with Dafny's. */
  function Statistics(c: Comparison): (st: Stats)
    requires |c.posChanges| > 0 && |c.sizeChanges| == |c.posChanges|
    requires c.zero + c.micro + c.large <= |c.posChanges|
    ensures st.zero + st.micro + st.large <= st.comparisons
  {
    var n := |c.posChanges|;
    Stats(n, c.zero, c.micro, c.large, Sum(c.posChanges) / n, Sum(c.sizeChanges) / n,
          MaxOf(c.posChanges) - MinOf(c.posChanges))
  }

  datatype Verdict =
    | Live
    | TooFewFrames                 // fewer than four samples held
    | NoValidComparisons           // no pair of valid adjacent slots
    | StaticFace                   // check 1: printed photo on a stand
    | ErraticMovement              // check 2: photo being shaken
    | UniformLargeMovement         // check 3: device or photo panned steadily
    | FlatSurface                  // check 4: position changes but size does not
    | InsufficientMicroMovement    // check 5: too few natural micro-movements

  /** The five rejection checks, in order; the first that fires decides. */
  function Judge(st: Stats): Verdict {
    if st.zero >= st.comparisons - 1 then StaticFace
    else if st.large >= 2 then ErraticMovement
    else if st.avgPos > PhotoThreshold && st.variance < UniformVarianceMax then UniformLargeMovement
    else if st.avgSize == 0 && st.avgPos > FlatPositionMin then FlatSurface
    else if st.micro < ConsistencyRequired then InsufficientMicroMovement
    else Live
  }

  /** What `checkLiveness` decides for a history, with the reason it prints. */
  function Analyze(w: Window): Verdict
    requires |w.slots| == LivenessCheckCount
  {
    if w.count < LivenessCheckCount then TooFewFrames
    else
      var c := Compare(w.slots, LivenessCheckCount - 1);
      if |c.posChanges| == 0 then NoValidComparisons else Judge(Statistics(c))
  }

  // ---------------------------------------------------------------------------
  // Properties of the analyser
  // ---------------------------------------------------------------------------

  /** The band of the pair of slots `j` and `j + 1`. */
  function PairClass(w: Window, j: int): Movement
    requires |w.slots| == LivenessCheckCount && 0 <= j < LivenessCheckCount - 1
  {
    Classify(PairDelta(w.slots[j], w.slots[j + 1]))
  }

  /** How many of the three adjacent slot pairs fall in band `m`. */
  function Tally(w: Window, m: Movement): nat
    requires |w.slots| == LivenessCheckCount
  {
    Indicator(PairClass(w, 0) == m) + Indicator(PairClass(w, 1) == m) + Indicator(PairClass(w, 2) == m)
  }

  /** A full, well-formed history compares all three adjacent slot pairs, by array
      position, and its band counts are the pairwise tallies. */
  lemma FullWindowComparesThreePairs(w: Window)
    requires WindowValid(w) && w.count == LivenessCheckCount
    ensures var c := Compare(w.slots, 3);
      && |c.posChanges| == 3
      && (forall j :: 0 <= j < 3 ==>
            c.posChanges[j] == PairDelta(w.slots[j], w.slots[j + 1]).pos &&
            c.sizeChanges[j] == PairDelta(w.slots[j], w.slots[j + 1]).size)
      && c.zero == Tally(w, Zero) && c.micro == Tally(w, Micro) && c.large == Tally(w, Large)
  {
    assert w.slots[0].valid && w.slots[1].valid && w.slots[2].valid && w.slots[3].valid;
    ThreeValidPairs(w.slots);
  }

  /** Four valid slots: three tallied pairs, by array position. */
  lemma ThreeValidPairs(s: seq<FacePosition>)
    requires |s| == 4 && s[0].valid && s[1].valid && s[2].valid && s[3].valid
    ensures var c, d0, d1, d2 := Compare(s, 3), PairDelta(s[0], s[1]), PairDelta(s[1], s[2]), PairDelta(s[2], s[3]);
      && c.posChanges == [d0.pos, d1.pos, d2.pos]
      && c.sizeChanges == [d0.size, d1.size, d2.size]
      && c.zero == Indicator(Classify(d0) == Zero) + Indicator(Classify(d1) == Zero) + Indicator(Classify(d2) == Zero)
      && c.micro == Indicator(Classify(d0) == Micro) + Indicator(Classify(d1) == Micro) + Indicator(Classify(d2) == Micro)
      && c.large == Indicator(Classify(d0) == Large) + Indicator(Classify(d1) == Large) + Indicator(Classify(d2) == Large)
  {
    var d0, d1, d2 := PairDelta(s[0], s[1]), PairDelta(s[1], s[2]), PairDelta(s[2], s[3]);
    var c0 := Compare(s, 0);
    var c1 := Tallied(c0, d0);
    var c2 := Tallied(c1, d1);
    var c3 := Tallied(c2, d2);
    assert Compare(s, 1) == c1 by { CompareNext(s, 0); }
    assert Compare(s, 2) == c2 by { CompareNext(s, 1); }
    assert Compare(s, 3) == c3 by { CompareNext(s, 2); }
  }

  /** A pair that did not move but changed size counts as a micro-movement. */
  lemma StillButResizedIsMicro(d: Delta)
    requires d.pos == 0 && d.size != 0
    ensures Classify(d) == Micro
  {
  }

  /** Fewer than four samples fail, whatever they hold. */
  lemma FewFramesFail(w: Window)
    requires |w.slots| == LivenessCheckCount && w.count < LivenessCheckCount
    ensures Analyze(w) == TooFewFrames
  {
  }

  /** A pass means the history was full and no check fired, in particular at least two
      micro-movement pairs and at most one large one; and conversely. */
  lemma LiveOnlyWhenNoCheckFires(w: Window)
    requires WindowValid(w)
    ensures Analyze(w) == Live <==>
      && w.count == LivenessCheckCount
      && var c := Compare(w.slots, 3);
      && |c.posChanges| > 0
      && var st := Statistics(c);
      && st.zero < st.comparisons - 1
      && st.large < 2
      && !(st.avgPos > PhotoThreshold && st.variance < UniformVarianceMax)
      && !(st.avgSize == 0 && st.avgPos > FlatPositionMin)
      && st.micro >= ConsistencyRequired
  {
    if w.count == LivenessCheckCount {
      FullWindowComparesThreePairs(w);
    }
  }

  /** A pass needs at least two adjacent slot pairs in the micro band, at most one
      in the large band and at most one still pair. */
  lemma LiveNeedsMicroMovement(w: Window)
    requires WindowValid(w) && Analyze(w) == Live
    ensures w.count == LivenessCheckCount
    ensures Tally(w, Micro) >= ConsistencyRequired
    ensures Tally(w, Large) <= 1
    ensures Tally(w, Zero) <= 1
  {
    FullWindowComparesThreePairs(w);
  }

  /** Four samples of the same geometry are rejected by check 1 as a static face. */
  lemma IdenticalSamplesAreStatic(w: Window)
    requires WindowValid(w) && w.count == LivenessCheckCount
    requires forall j :: 0 <= j < 3 ==> PairDelta(w.slots[j], w.slots[j + 1]) == Delta(0, 0)
    ensures Analyze(w) == StaticFace
  {
    FullWindowComparesThreePairs(w);
    assert PairClass(w, 0) == Zero && PairClass(w, 1) == Zero && PairClass(w, 2) == Zero;
  }

  /** When every adjacent pair moves by more than the photo threshold (for instance a
      steady pan of threshold + 10 pixels per frame), check 2 rejects: never a pass. */
  lemma LargeSteadyMovementRejected(w: Window)
    requires WindowValid(w) && w.count == LivenessCheckCount
    requires forall j :: 0 <= j < 3 ==> PairDelta(w.slots[j], w.slots[j + 1]).pos > PhotoThreshold
    ensures Analyze(w) == ErraticMovement
  {
    FullWindowComparesThreePairs(w);
    assert PairClass(w, 0) == Large && PairClass(w, 1) == Large && PairClass(w, 2) == Large;
  }

  /** Because pairs are taken by array position, once the history has wrapped the pair
      at the cursor compares the newest sample with the oldest one. */
  lemma WrappedPairJoinsNewestAndOldest(w: Window)
    requires WindowValid(w) && w.count == LivenessCheckCount && w.index > 0
    ensures w.slots[w.index - 1] == Samples(w)[LivenessCheckCount - 1]
    ensures w.slots[w.index] == Samples(w)[0]
  {
    NewestSlotIsNewest(w, LivenessCheckCount, 0);
    assert Samples(w)[0] == w.slots[w.index..][0];
  }

  // ---------------------------------------------------------------------------
  // The history as the source keeps it: a global array updated in place
  // ---------------------------------------------------------------------------

  class FaceHistory {
    const slots: array<FacePosition>
    var index: int
    var count: int

    function View(): Window
      reads this, slots
    {
      Ring(slots[..], index, count)
    }

    ghost predicate Valid()
      reads this, slots
    {
      slots.Length == LivenessCheckCount && WindowValid(View())
    }

    /** The zero-initialised global array: no slot valid, cursor and count 0. */
    constructor ()
      ensures Valid() && fresh(slots)
      ensures index == 0 && count == 0
    {
      slots := new FacePosition[LivenessCheckCount](_ => FacePosition(0, 0, 0, 0, false));
      index, count := 0, 0;
    }

    /** Record a detected face (main.cpp, the store into `faceHistory`). */
    method Store(s: Sample)
      requires Valid()
      modifies this, slots
      ensures Valid()
      ensures View() == StoreSample(old(View()), s)
    {
      slots[index] := Recorded(s);
      index := (index + 1) % LivenessCheckCount;
      if count < LivenessCheckCount {
        count := count + 1;
      }
    }

    /** `resetLivenessTracking`. */
    method Reset()
      requires Valid()
      modifies this, slots
      ensures Valid()
      ensures View() == ResetWindow(old(View()))
    {
      index := 0;
      count := 0;
      for i := 0 to LivenessCheckCount
        modifies slots
        invariant forall j :: 0 <= j < i ==> slots[j] == old(slots[j]).(valid := false)
        invariant forall j :: i <= j < LivenessCheckCount ==> slots[j] == old(slots[j])
      {
        slots[i] := slots[i].(valid := false);
      }
    }

    /** The restart on an identity change: reset, then the current sample in slot 0. */
    method Reseed(s: Sample)
      requires Valid()
      modifies this, slots
      ensures Valid()
      ensures View() == ReseedWindow(old(View()), s)
    {
      Reset();
      slots[0] := Recorded(s);
      count := 1;
      index := 1;
    }

    /** The first loop of `checkLiveness`: adjacent slot pairs by array position,
        skipping any pair with an invalid slot, each change stored and its band counted. */
    static method CompareAdjacentPairs(slots: array<FacePosition>)
      returns (posChanges: array<int>, sizeChanges: array<int>,
               validComparisons: int, zero: int, micro: int, large: int)
      requires slots.Length == LivenessCheckCount
      ensures fresh(posChanges) && fresh(sizeChanges)
      ensures posChanges.Length == sizeChanges.Length == LivenessCheckCount - 1
      ensures var c := Compare(slots[..], LivenessCheckCount - 1);
        && validComparisons == |c.posChanges|
        && posChanges[..validComparisons] == c.posChanges
        && sizeChanges[..validComparisons] == c.sizeChanges
        && zero == c.zero && micro == c.micro && large == c.large
    {
      ghost var s := slots[..];
      posChanges := new int[LivenessCheckCount - 1];
      sizeChanges := new int[LivenessCheckCount - 1];
      validComparisons, micro, large, zero := 0, 0, 0, 0;
      ghost var c := Compare(s, 0);
      for i := 0 to LivenessCheckCount - 1
        invariant c == Compare(s, i)
        invariant validComparisons == |c.posChanges|
        invariant posChanges[..validComparisons] == c.posChanges
        invariant sizeChanges[..validComparisons] == c.sizeChanges
        invariant zero == c.zero && micro == c.micro && large == c.large
      {
        CompareNext(s, i);
        assert s[i] == slots[i] && s[i + 1] == slots[i + 1];
        if !slots[i].valid || !slots[i + 1].valid {
          continue;
        }
        var posChange := Abs(slots[i + 1].cx - slots[i].cx) + Abs(slots[i + 1].cy - slots[i].cy);
        var sizeChange := Abs(slots[i + 1].width - slots[i].width) + Abs(slots[i + 1].height - slots[i].height);
        ghost var d := Delta(posChange, sizeChange);
        assert d == PairDelta(s[i], s[i + 1]);
        ghost var pos, size := posChanges[..validComparisons], sizeChanges[..validComparisons];
        posChanges[validComparisons] := posChange;
        sizeChanges[validComparisons] := sizeChange;
        assert posChanges[..validComparisons + 1] == pos + [posChange];
        assert sizeChanges[..validComparisons + 1] == size + [sizeChange];
        if posChange == 0 && sizeChange == 0 {
          zero := zero + 1;
        } else if posChange <= MaxMicroMovement {
          micro := micro + 1;
        } else if posChange > PhotoThreshold {
          large := large + 1;
        }
        validComparisons := validComparisons + 1;
        c := Tallied(c, d);
      }
    }

    /** The second loop of `checkLiveness`: totals, maximum (seeded 0) and minimum
        (seeded 999) over the stored position and size changes. */
    static method SumChanges(posChanges: array<int>, sizeChanges: array<int>, n: int)
      returns (totalPos: int, totalSize: int, maxPos: int, minPos: int)
      requires 0 <= n <= posChanges.Length && n <= sizeChanges.Length
      ensures totalPos == Sum(posChanges[..n]) && totalSize == Sum(sizeChanges[..n])
      ensures maxPos == MaxOf(posChanges[..n]) && minPos == MinOf(posChanges[..n])
    {
      totalPos, totalSize, maxPos, minPos := 0, 0, 0, MinPositionSeed;
      for i := 0 to n
        invariant totalPos == Sum(posChanges[..i]) && totalSize == Sum(sizeChanges[..i])
        invariant maxPos == MaxOf(posChanges[..i]) && minPos == MinOf(posChanges[..i])
      {
        assert posChanges[..i + 1][..i] == posChanges[..i];
        assert sizeChanges[..i + 1][..i] == sizeChanges[..i];
        totalPos := totalPos + posChanges[i];
        totalSize := totalSize + sizeChanges[i];
        if posChanges[i] > maxPos {
          maxPos := posChanges[i];
        }
        if posChanges[i] < minPos {
          minPos := posChanges[i];
        }
      }
    }

    /** `checkLiveness`: too few frames fail at once; otherwise the statistics of the
        compared pairs go through the five checks in order. */
    method CheckLiveness() returns (ok: bool, verdict: Verdict)
      requires Valid()
      ensures verdict == Analyze(View())
      ensures ok <==> verdict == Live
    {
      if count < LivenessCheckCount {
        return false, TooFewFrames;
      }
      var posChanges, sizeChanges, validComparisons, zero, micro, large := CompareAdjacentPairs(slots);
      if validComparisons == 0 {
        return false, NoValidComparisons;
      }
      ghost var c := Compare(slots[..], LivenessCheckCount - 1);
      var totalPos, totalSize, maxPos, minPos := SumChanges(posChanges, sizeChanges, validComparisons);
      var avgPos := totalPos / validComparisons;
      var avgSize := totalSize / validComparisons;
      var variance := maxPos - minPos;
      assert Statistics(c) == Stats(validComparisons, zero, micro, large, avgPos, avgSize, variance);
      if zero >= validComparisons - 1 {
        return false, StaticFace;
      }
      if large >= 2 {
        return false, ErraticMovement;
      }
      if avgPos > PhotoThreshold && variance < UniformVarianceMax {
        return false, UniformLargeMovement;
      }
      if avgSize == 0 && avgPos > FlatPositionMin {
        return false, FlatSurface;
      }
      if micro < ConsistencyRequired {
        return false, InsufficientMicroMovement;
      }
      return true, Live;
    }
  }
}
