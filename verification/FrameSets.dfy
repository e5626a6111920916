/** Frame numbers, contiguous runs of frames and the first-fit specification. */
module FrameSets {
  import opened Wrappers

  const BYTES_PER_FRAME: nat := 4 * 1024
  const MAX_PHYSICAL_MEMORY_BYTES: nat := 128 * 1024 * 1024 * 1024
  const FRAME_COUNT: nat := MAX_PHYSICAL_MEMORY_BYTES / BYTES_PER_FRAME
  const BITS_PER_MAP_LINE: nat := 64
  const MAP_LINE_COUNT: nat := FRAME_COUNT / BITS_PER_MAP_LINE

  /** The frames first, first + 1, ..., first + count - 1. */
  function Run(first: nat, count: nat): (r: set<nat>)
    ensures forall f: nat :: f in r <==> first <= f < first + count
  {
    if count == 0 then {} else Run(first, count - 1) + {first + count - 1}
  }

  /** A frame that keeps a run from being handed out. */
  predicate InTheWay(taken: set<nat>, end: nat, f: nat) {
    f >= end || f in taken
  }

  /** The run of `count` frames at `first` lies in [begin, end) and is free. */
  ghost predicate RunFits(taken: set<nat>, begin: nat, end: nat, first: nat, count: nat) {
    && begin <= first
    && forall f: nat :: first <= f < first + count ==> !InTheWay(taken, end, f)
  }

  /** What first-fit allocation promises: the lowest run that fits, and None only when none does. */
  ghost predicate IsFirstFit(taken: set<nat>, begin: nat, end: nat, count: nat, r: Option<nat>) {
    match r
    case None => forall a: nat :: !RunFits(taken, begin, end, a, count)
    case Some(first) =>
      && RunFits(taken, begin, end, first, count)
      && forall a: nat :: RunFits(taken, begin, end, a, count) ==> first <= a
  }

  /** First fit is a function: the specification admits one answer. */
  lemma FirstFitUnique(taken: set<nat>, begin: nat, end: nat, count: nat, r: Option<nat>, r': Option<nat>)
    requires IsFirstFit(taken, begin, end, count, r)
    requires IsFirstFit(taken, begin, end, count, r')
    ensures r == r'
  {
    if r.Some? {
      assert RunFits(taken, begin, end, r.value, count);
    }
    if r'.Some? {
      assert RunFits(taken, begin, end, r'.value, count);
    }
  }

  /** A taken frame inside a candidate window rules out every run that starts at or before it. */
  lemma TakenFrameRulesOut(taken: set<nat>, begin: nat, end: nat, start: nat, i: nat, count: nat)
    requires i < count
    requires start + i >= end || start + i in taken
    ensures forall a: nat :: start <= a <= start + i ==> !RunFits(taken, begin, end, a, count)
    ensures start + i >= end ==> forall a: nat :: start <= a ==> !RunFits(taken, begin, end, a, count)
  {
    forall a: nat | start <= a && (a <= start + i || start + i >= end)
      ensures !RunFits(taken, begin, end, a, count)
    {
      var f := if a <= start + i then start + i else a;
      assert InTheWay(taken, end, f);
    }
  }

  /** The promise frame by frame: no frame of the answer is in the way, and every lower start, or
      every start if there is no answer, has one that is. */
  lemma FirstFitMeans(taken: set<nat>, begin: nat, end: nat, count: nat, r: Option<nat>, a: nat)
    requires IsFirstFit(taken, begin, end, count, r) && begin <= a
    ensures r.Some? ==> begin <= r.value && forall f: nat :: r.value <= f < r.value + count ==> !InTheWay(taken, end, f)
    ensures r.None? || a < r.value ==> exists f: nat :: a <= f < a + count && InTheWay(taken, end, f)
  {
    if r.None? || a < r.value {
      assert !RunFits(taken, begin, end, a, count);
    }
  }
}
