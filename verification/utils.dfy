/** Lap analytics over a session's lap list (`openmotorsport/utils.py`).

    Every function reads `session.laps`; here that list is the `laps`
    argument, as `Sessions.LapsOf` returns it. Python compares laps two ways:
    `==` is `Lap.__eq__` (length and sectors), while `!=`, which `Lap` does
    not define, compares object identity. A lap's identity is its position
    in the list, so the functions that take a lap of the session take its
    index. */
module Utils {
  import opened Wrappers
  import opened Laps
  import opened Arith

  // ---------------------------------------------------------------------
  // Comparisons
  // ---------------------------------------------------------------------

  /** `Lap.__eq__`: same length and same sectors; the offset is ignored. */
  predicate LapEq(a: Lap, b: Lap): (r: bool)
    ensures a == b ==> r
    ensures r ==> EndTime(a) - a.offset == EndTime(b) - b.offset
  {
    a.length == b.length && a.sectors == b.sectors
  }

  /** Python 2 `a <= b` on optional numbers: None is below every number
      and equal to itself. */
  predicate PyLessEq(a: Option<int>, b: Option<int>) {
    a.None? || (b.Some? && a.value <= b.value)
  }

  /** Python 2 `a < b` on optional numbers. */
  predicate PyLess(a: Option<int>, b: Option<int>) {
    b.Some? && (a.None? || a.value < b.value)
  }

  // ---------------------------------------------------------------------
  // Fastest and slowest lap times
  // ---------------------------------------------------------------------

  /** `_has_at_least_one_lap`: there is a lap and the first one is
      complete. */
  predicate HasAtLeastOneLap(laps: seq<Lap>): (r: bool)
    ensures r ==> ExtremeLength(laps, true).Some? && ExtremeLength(laps, false).Some?
    ensures |laps| > 0 && laps[0].length.Some? ==> r
    ensures |laps| == 0 ==> !r
  {
    |laps| > 0 && laps[0].length.Some?
  }

  /** `t` is a lap length, and no lap length is below it (`fast`) or above
      it (not `fast`). */
  ghost predicate IsExtremeLength(laps: seq<Lap>, t: int, fast: bool) {
    (exists i :: 0 <= i < |laps| && laps[i].length == Some(t)) &&
    forall i :: 0 <= i < |laps| && laps[i].length.Some? ==>
      if fast then t <= laps[i].length.value else laps[i].length.value <= t
  }

  /** `min` (`fast`) or `max` of the lengths that are not None. */
  function ExtremeLength(laps: seq<Lap>, fast: bool): (r: Option<int>)
    ensures r.None? <==> forall i :: 0 <= i < |laps| ==> laps[i].length.None?
    ensures r.Some? ==> IsExtremeLength(laps, r.value, fast)
    decreases |laps|
  {
    if |laps| == 0 then None
    else
      var rest := ExtremeLength(laps[1..], fast);
      assert forall i :: 1 <= i < |laps| ==> laps[i] == laps[1..][i - 1];
      match laps[0].length
      case None => rest
      case Some(l) =>
        if rest.Some? && (if fast then rest.value < l else l < rest.value) then rest
        else Some(l)
  }

  /** `fastest_lap_time`: None unless the first lap is complete, otherwise
      the least lap length. */
  function FastestLapTime(laps: seq<Lap>): (r: Option<int>)
    ensures r.Some? <==> HasAtLeastOneLap(laps)
    ensures r.Some? ==> IsExtremeLength(laps, r.value, true)
  {
    if !HasAtLeastOneLap(laps) then None else ExtremeLength(laps, true)
  }

  /** `slowest_lap_time`: None unless the first lap is complete, otherwise
      the greatest lap length. */
  function SlowestLapTime(laps: seq<Lap>): (r: Option<int>)
    ensures r.Some? <==> HasAtLeastOneLap(laps)
    ensures r.Some? ==> IsExtremeLength(laps, r.value, false)
  {
    if !HasAtLeastOneLap(laps) then None else ExtremeLength(laps, false)
  }

  /** The extreme length is unique: two lengths that are both least (or
      both greatest) are equal. */
  lemma ExtremeUnique(laps: seq<Lap>, t: int, u: int, fast: bool)
    requires IsExtremeLength(laps, t, fast) && IsExtremeLength(laps, u, fast)
    ensures t == u
  {
    var i :| 0 <= i < |laps| && laps[i].length == Some(t);
    var j :| 0 <= j < |laps| && laps[j].length == Some(u);
  }

  /** A derived lap table has a fastest lap time exactly when the markers
      reach the end of the first lap. */
  lemma DerivedHasLap(markers: seq<int>, k: nat)
    ensures HasAtLeastOneLap(DeriveLaps(markers, Some(k))) <==> k < |markers|
  {
    if |markers| > 0 {
      GroupCount(|markers|, k + 1, 0);
      LapLength(markers, k, 0);
    }
  }

  // ---------------------------------------------------------------------
  // Fastest and slowest laps
  // ---------------------------------------------------------------------

  /** `reduce(lambda x, lap: lap.length == t and lap or x, laps[i..], x)`:
      the last lap from `i` on whose length is `t`, else `x`. */
  function ReduceLast(laps: seq<Lap>, t: Option<int>, i: nat, x: nat): (r: nat)
    requires x < |laps| && i <= |laps|
    ensures r < |laps|
    ensures r == x || (i <= r && laps[r].length == t)
    ensures (forall j :: i <= j < |laps| ==> laps[j].length != t) ==> r == x
    ensures forall j :: i <= j < |laps| && r < j ==> laps[j].length != t
    decreases |laps| - i
  {
    if i == |laps| then x
    else ReduceLast(laps, t, i + 1, if laps[i].length == t then i else x)
  }

  /** `fastest_lap` (`fast`) or `slowest_lap`: None unless the first lap is
      complete, otherwise the last lap whose length is the extreme one. */
  function ExtremeLap(laps: seq<Lap>, fast: bool): (r: Option<nat>)
    ensures r.Some? <==> HasAtLeastOneLap(laps)
    ensures r.Some? ==> r.value < |laps| && laps[r.value].length.Some?
    ensures r.Some? ==> IsExtremeLength(laps, laps[r.value].length.value, fast)
    ensures r.Some? ==> forall j :: r.value < j < |laps| ==> laps[j].length != laps[r.value].length
  {
    if !HasAtLeastOneLap(laps) then None
    else
      var t := ExtremeLength(laps, fast);
      var r := ReduceLast(laps, t, 1, 0);
      assert laps[r].length == t by {
        if laps[0].length != t {
          var i :| 0 <= i < |laps| && laps[i].length == t;
        }
      }
      Some(r)
  }

  /** `fastest_lap`. */
  function FastestLap(laps: seq<Lap>): (r: Option<nat>)
    ensures r.Some? <==> HasAtLeastOneLap(laps)
    ensures r.Some? ==> r.value < |laps| && laps[r.value].length == FastestLapTime(laps)
    ensures r.Some? ==> forall j :: r.value < j < |laps| ==> laps[j].length != FastestLapTime(laps)
  {
    ExtremeLap(laps, true)
  }

  /** `slowest_lap`. */
  function SlowestLap(laps: seq<Lap>): (r: Option<nat>)
    ensures r.Some? <==> HasAtLeastOneLap(laps)
    ensures r.Some? ==> r.value < |laps| && laps[r.value].length == SlowestLapTime(laps)
    ensures r.Some? ==> forall j :: r.value < j < |laps| ==> laps[j].length != SlowestLapTime(laps)
  {
    ExtremeLap(laps, false)
  }

  /** `is_fastest_lap`: the lap equals (by `Lap.__eq__`) the fastest lap;
      False when there is none. */
  function IsFastestLap(laps: seq<Lap>, lap: Lap): (r: bool)
    ensures r ==> HasAtLeastOneLap(laps) && lap.length == FastestLapTime(laps)
  {
    match FastestLap(laps)
    case None => false
    case Some(i) => LapEq(lap, laps[i])
  }

  /** A lap is the fastest exactly when it has the least length and the
      sectors of the last lap with that length. */
  lemma IsFastestLapIff(laps: seq<Lap>, lap: Lap)
    requires HasAtLeastOneLap(laps)
    ensures IsFastestLap(laps, lap) <==>
      exists i :: 0 <= i < |laps| && LapEq(lap, laps[i]) && laps[i].length == FastestLapTime(laps) &&
        forall j :: i < j < |laps| ==> laps[j].length != FastestLapTime(laps)
  {
    var f := FastestLap(laps).value;
    if IsFastestLap(laps, lap) {
      assert LapEq(lap, laps[f]);
    }
    forall i | 0 <= i < |laps| && LapEq(lap, laps[i]) && laps[i].length == FastestLapTime(laps) &&
        (forall j :: i < j < |laps| ==> laps[j].length != FastestLapTime(laps))
      ensures i == f
    {
    }
  }

  // ---------------------------------------------------------------------
  // Fastest-or-next-fastest and slowest-or-next-slowest, as written
  // ---------------------------------------------------------------------

  /** The filter test of `*_or_next_*` on a candidate length `x` against
      the given lap's length `y`: Python 2 `x >= y` (`fast`) or `x <= y`. */
  predicate Beyond(x: Option<int>, y: Option<int>, fast: bool) {
    if fast then PyLessEq(y, x) else PyLessEq(x, y)
  }

  /** The first lap from `from` on, other than lap `i`, that passes the
      filter test against lap `i`. */
  function FirstOther(laps: seq<Lap>, i: nat, fast: bool, from: nat): (r: Option<nat>)
    requires i < |laps| && from <= |laps|
    ensures r.Some? ==> from <= r.value < |laps| && r.value != i
    ensures r.Some? ==> Beyond(laps[r.value].length, laps[i].length, fast)
    ensures r.Some? ==> forall j :: from <= j < r.value && j != i ==>
      !Beyond(laps[j].length, laps[i].length, fast)
    ensures r.None? ==> forall j :: from <= j < |laps| && j != i ==>
      !Beyond(laps[j].length, laps[i].length, fast)
    decreases |laps| - from
  {
    if from == |laps| then None
    else if from != i && Beyond(laps[from].length, laps[i].length, fast) then Some(from)
    else FirstOther(laps, i, fast, from + 1)
  }

  /** `fastest_or_next_fastest_lap` (`fast`) and
      `slowest_or_next_slowest_lap` as written: the extreme lap when lap `i`
      is not it; otherwise the first other lap in session order that is at
      least as slow (`fast`) or at most as slow, whichever lap that is. */
  function OrNextAsWritten(laps: seq<Lap>, i: nat, fast: bool): (r: Option<nat>)
    requires i < |laps|
    ensures ExtremeLap(laps, fast) != Some(i) ==> r == ExtremeLap(laps, fast)
    ensures ExtremeLap(laps, fast) == Some(i) ==>
      (r.None? <==> forall j :: 0 <= j < |laps| && j != i ==> !Beyond(laps[j].length, laps[i].length, fast))
    ensures ExtremeLap(laps, fast) == Some(i) && r.Some? ==>
      r.value < |laps| && r.value != i && Beyond(laps[r.value].length, laps[i].length, fast) &&
      forall j :: 0 <= j < r.value && j != i ==> !Beyond(laps[j].length, laps[i].length, fast)
  {
    var extreme := ExtremeLap(laps, fast);
    if extreme != Some(i) then extreme else FirstOther(laps, i, fast, 0)
  }

  // ---------------------------------------------------------------------
  // Next fastest and next slowest, as documented
  // ---------------------------------------------------------------------

  /** `t` is a complete lap's length other than lap `i`'s, and no other
      complete lap is faster (`fast`) or slower than it. */
  ghost predicate IsNextLength(laps: seq<Lap>, i: nat, t: int, fast: bool) {
    forall j :: 0 <= j < |laps| && j != i && laps[j].length.Some? ==>
      if fast then t <= laps[j].length.value else laps[j].length.value <= t
  }

  /** The first complete lap from `from` on, other than lap `i`, whose
      length is extreme among those laps; `best` is the best seen so far. */
  function BestOther(laps: seq<Lap>, i: nat, fast: bool, from: nat, best: Option<nat>): (r: Option<nat>)
    requires i < |laps| && from <= |laps|
    requires best.Some? ==> best.value < from && best.value != i && laps[best.value].length.Some?
    requires best.Some? ==> forall j :: 0 <= j < from && j != i && laps[j].length.Some? ==>
      if fast then laps[best.value].length.value <= laps[j].length.value
      else laps[j].length.value <= laps[best.value].length.value
    requires best.None? ==> forall j :: 0 <= j < from && j != i ==> laps[j].length.None?
    ensures r.None? <==> forall j :: 0 <= j < |laps| && j != i ==> laps[j].length.None?
    ensures r.Some? ==> r.value < |laps| && r.value != i && laps[r.value].length.Some?
    ensures r.Some? ==> IsNextLength(laps, i, laps[r.value].length.value, fast)
    decreases |laps| - from
  {
    if from == |laps| then best
    else
      var better :=
        from != i && laps[from].length.Some? &&
        (best.None? ||
         (if fast then laps[from].length.value < laps[best.value].length.value
          else laps[best.value].length.value < laps[from].length.value));
      BestOther(laps, i, fast, from + 1, if better then Some(from) else best)
  }

  /** The behaviour `fastest_or_next_fastest_lap` (`fast`) and
      `slowest_or_next_slowest_lap` document: the extreme lap when lap `i`
      is not it; otherwise the fastest (`fast`) or slowest of the other
      complete laps, or None when there is no other complete lap. */
  function OrNext(laps: seq<Lap>, i: nat, fast: bool): (r: Option<nat>)
    requires i < |laps|
    ensures ExtremeLap(laps, fast) != Some(i) ==> r == ExtremeLap(laps, fast)
    ensures ExtremeLap(laps, fast) == Some(i) ==>
      (r.None? <==> forall j :: 0 <= j < |laps| && j != i ==> laps[j].length.None?)
    ensures ExtremeLap(laps, fast) == Some(i) && r.Some? ==>
      r.value < |laps| && r.value != i && laps[r.value].length.Some? &&
      IsNextLength(laps, i, laps[r.value].length.value, fast)
  {
    var extreme := ExtremeLap(laps, fast);
    if extreme != Some(i) then extreme else BestOther(laps, i, fast, 0, None)
  }

  /** The next fastest lap is never faster than the fastest, and the next
      slowest never slower than the slowest. */
  lemma OrNextBetween(laps: seq<Lap>, i: nat, fast: bool)
    requires i < |laps| && ExtremeLap(laps, fast) == Some(i) && OrNext(laps, i, fast).Some?
    ensures var t := laps[i].length.value;
      var u := laps[OrNext(laps, i, fast).value].length.value;
      if fast then t <= u else u <= t
  {
  }

  // ---------------------------------------------------------------------
  // Neighbouring laps
  // ---------------------------------------------------------------------

  /** `next_lap`: None on the last lap. */
  function NextLap(laps: seq<Lap>, i: nat): (r: Option<nat>)
    requires i < |laps|
    ensures r.None? <==> i == |laps| - 1
    ensures r.Some? ==> r.value < |laps|
  {
    if i < |laps| - 1 then Some(i + 1) else None
  }

  /** `previous_lap`: None on the first lap. */
  function PreviousLap(laps: seq<Lap>, i: nat): (r: Option<nat>)
    requires i < |laps|
    ensures r.None? <==> i == 0
    ensures r.Some? ==> r.value < |laps|
  {
    if i > 0 then Some(i - 1) else None
  }

  /** Stepping forward then back, or back then forward, returns to the same
      lap, and the next lap is the one whose previous lap is this one. */
  lemma NextPreviousInverse(laps: seq<Lap>, i: nat, j: nat)
    requires i < |laps| && j < |laps|
    ensures NextLap(laps, i) == Some(j) <==> PreviousLap(laps, j) == Some(i)
    ensures NextLap(laps, i) == Some(j) ==> j == i + 1
  {
  }

  // ---------------------------------------------------------------------
  // Lap difference
  // ---------------------------------------------------------------------

  /** `laps.index(lap)`: position of the first lap equal to `lap`. */
  function FirstIndex(laps: seq<Lap>, lap: Lap): (r: Option<nat>)
    ensures r.None? <==> forall j :: 0 <= j < |laps| ==> !LapEq(laps[j], lap)
    ensures r.Some? ==> r.value < |laps| && LapEq(laps[r.value], lap)
    ensures r.Some? ==> forall j :: 0 <= j < r.value ==> !LapEq(laps[j], lap)
    decreases |laps|
  {
    if |laps| == 0 then None
    else if LapEq(laps[0], lap) then Some(0)
    else
      var rest := FirstIndex(laps[1..], lap);
      assert forall j :: 1 <= j < |laps| ==> laps[j] == laps[1..][j - 1];
      if rest.None? then None else Some(rest.value + 1)
  }

  /** `i` is where `laps.index(lap)` finds `lap`: the first position
      holding an equal lap. */
  ghost predicate IsFirstIndex(laps: seq<Lap>, lap: Lap, i: nat) {
    i < |laps| && LapEq(laps[i], lap) && forall j :: 0 <= j < i ==> !LapEq(laps[j], lap)
  }

  /** `lap_difference`: `laps.index` raises `ValueError` for a lap not in
      the list; the first lap has no difference; otherwise the lap's length
      minus the length of the lap before its first equal, which raises
      `TypeError` when either length is None. */
  function LapDifference(laps: seq<Lap>, lap: Lap): (r: Result<Option<int>>)
    ensures r == Failure(ValueError) <==> forall j :: 0 <= j < |laps| ==> !LapEq(laps[j], lap)
    ensures r == Success(None) <==> |laps| > 0 && LapEq(laps[0], lap)
    ensures r == Failure(TypeError) <==>
      exists i: nat :: 0 < i && IsFirstIndex(laps, lap, i) &&
        (lap.length.None? || laps[i - 1].length.None?)
    ensures r.Failure? ==> r.error == ValueError || r.error == TypeError
    ensures r.Success? && r.value.Some? ==>
      exists i: nat :: 0 < i && IsFirstIndex(laps, lap, i) &&
        lap.length.Some? && laps[i - 1].length.Some? &&
        r.value.value == lap.length.value - laps[i - 1].length.value
  {
    match FirstIndex(laps, lap)
    case None => Failure(ValueError)
    case Some(i) =>
      assert IsFirstIndex(laps, lap, i);
      assert forall i': nat :: IsFirstIndex(laps, lap, i') ==> i' == i;
      if i == 0 then Success(None)
      else if lap.length.None? || laps[i - 1].length.None? then Failure(TypeError)
      else Success(Some(lap.length.value - laps[i - 1].length.value))
  }

  /** Laps of 30, 20, 40 and 20 ms: the fourth lap equals the second, so
      `laps.index` finds the second and its difference is 20 - 30, not
      20 - 40. */
  lemma RepeatedLapDifference()
    ensures var laps := [Lap(Some(30), 0, []), Lap(Some(20), 30, []), Lap(Some(40), 50, []), Lap(Some(20), 90, [])];
      LapDifference(laps, laps[3]) == Success(Some(-10))
  {
    var laps := [Lap(Some(30), 0, []), Lap(Some(20), 30, []), Lap(Some(40), 50, []), Lap(Some(20), 90, [])];
    assert !LapEq(laps[0], laps[3]) && LapEq(laps[1], laps[3]);
    assert IsFirstIndex(laps, laps[3], 1);
  }

  /** For a lap that no earlier lap equals, the difference is its length
      minus the previous lap's. */
  lemma LapDifferenceOfLap(laps: seq<Lap>, i: nat)
    requires 0 < i < |laps| && laps[i].length.Some? && laps[i - 1].length.Some?
    requires forall j :: 0 <= j < i ==> !LapEq(laps[j], laps[i])
    ensures LapDifference(laps, laps[i]) == Success(Some(laps[i].length.value - laps[i - 1].length.value))
  {
    assert FirstIndex(laps, laps[i]) == Some(i);
  }

  /** On derived laps the difference of lap `i > 0` is read off the
      markers: the time between its closing mark and the previous one,
      minus the time between the previous lap's closing mark and the one
      before that (or 0). */
  lemma DerivedLapDifference(markers: seq<int>, k: nat, i: nat)
    requires 0 < i < |DeriveLaps(markers, Some(k))|
    requires DeriveLaps(markers, Some(k))[i].length.Some?
    requires forall j :: 0 <= j < i ==> !LapEq(DeriveLaps(markers, Some(k))[j], DeriveLaps(markers, Some(k))[i])
    ensures var p := i * (k + 1);
      k < p && p + k < |markers| && (i > 1 ==> 2 * k + 2 <= p) &&
      LapDifference(DeriveLaps(markers, Some(k)), DeriveLaps(markers, Some(k))[i])
        == Success(Some((markers[p + k] - markers[p - 1])
                        - (markers[p - 1] - (if i == 1 then 0 else markers[p - k - 2]))))
  {
    var laps := DeriveLaps(markers, Some(k));
    DerivedNeighbourLengths(markers, k, i);
    LapDifferenceOfLap(laps, i);
  }

  /** The lengths of derived lap `i > 0` and of the lap before it, read off
      the markers. */
  lemma DerivedNeighbourLengths(markers: seq<int>, k: nat, i: nat)
    requires 0 < i < |DeriveLaps(markers, Some(k))|
    requires DeriveLaps(markers, Some(k))[i].length.Some?
    ensures var p := i * (k + 1);
      var laps := DeriveLaps(markers, Some(k));
      k < p && p + k < |markers| && (i > 1 ==> 2 * k + 2 <= p) &&
      laps[i].length == Some(markers[p + k] - markers[p - 1]) &&
      laps[i - 1].length == Some(markers[p - 1] - (if i == 1 then 0 else markers[p - k - 2]))
  {
    var laps := DeriveLaps(markers, Some(k));
    var p := i * (k + 1);
    assert k < p && (i > 1 ==> 2 * k + 2 <= p) by {
      MulAtLeast(i, k + 1);
      if i > 1 {
        assert p == (i - 1) * (k + 1) + k + 1;
        MulAtLeast(i - 1, k + 1);
      }
    }
    assert laps[i].length == Some(markers[p + k] - markers[p - 1]) by {
      LapLength(markers, k, i);
    }
    assert laps[i - 1].length == Some(markers[p - 1] - (if i == 1 then 0 else markers[p - k - 2])) by {
      OnlyLastIncomplete(markers, k, i - 1);
      LapLength(markers, k, i - 1);
      assert (i - 1) * (k + 1) == p - k - 1;
    }
  }

  // ---------------------------------------------------------------------
  // Fastest sector
  // ---------------------------------------------------------------------

  /** `lap.sectors[s]` with Python subscripting: None when it raises
      `IndexError`. */
  function SectorOf(lap: Lap, s: int): (r: Option<Option<int>>)
    ensures r.Some? <==> -|lap.sectors| <= s < |lap.sectors|
  {
    match PyIndex(|lap.sectors|, s)
    case None => None
    case Some(p) => Some(lap.sectors[p])
  }

  /** Every lap has sector `s`. */
  ghost predicate AllHaveSector(laps: seq<Lap>, s: int) {
    forall i :: 0 <= i < |laps| ==> SectorOf(laps[i], s).Some?
  }

  /** `v` is sector `s` of some lap and, with None below every time, no lap
      has a smaller sector `s`. */
  ghost predicate IsLeastSector(laps: seq<Lap>, s: int, v: Option<int>)
    requires AllHaveSector(laps, s)
  {
    (exists i :: 0 <= i < |laps| && SectorOf(laps[i], s).value == v) &&
    forall i :: 0 <= i < |laps| ==> PyLessEq(v, SectorOf(laps[i], s).value)
  }

  /** The loop of `fastest_sector` from lap `i` on, with `fastest` the
      least sector `s` so far: a lap replaces it only with a strictly
      smaller time, in Python 2 order. */
  function SectorLoop(laps: seq<Lap>, s: int, i: nat, fastest: Option<int>): (r: Result<Option<int>>)
    requires 0 < i <= |laps| && AllHaveSector(laps[..i], s)
    requires IsLeastSector(laps[..i], s, fastest)
    ensures r.Failure? <==> !AllHaveSector(laps, s)
    ensures r.Failure? ==> r.error == IndexError
    ensures r.Success? ==> IsLeastSector(laps, s, r.value)
    decreases |laps| - i
  {
    if i == |laps| then
      assert laps[..i] == laps;
      Success(fastest)
    else match SectorOf(laps[i], s)
      case None => Failure(IndexError)
      case Some(x) =>
        assert laps[..i + 1] == laps[..i] + [laps[i]];
        SectorLoop(laps, s, i + 1, if PyLess(x, fastest) then x else fastest)
  }

  /** `fastest_sector(session, sector)`: sector numbers count from 1; None
      when the session has no more markers than the sector's position;
      otherwise the least time of that sector over all laps, None being
      below every time, and `IndexError` when there is no lap or a lap
      lacks the sector. */
  function FastestSector(markerCount: nat, laps: seq<Lap>, sector: int): (r: Result<Option<int>>)
    ensures markerCount <= sector - 1 ==> r == Success(None)
    ensures markerCount > sector - 1 ==>
      (r.Failure? <==> |laps| == 0 || !AllHaveSector(laps, sector - 1))
    ensures r.Failure? ==> r.error == IndexError
    ensures markerCount > sector - 1 && r.Success? ==>
      AllHaveSector(laps, sector - 1) && IsLeastSector(laps, sector - 1, r.value)
  {
    var s := sector - 1;
    if markerCount <= s then Success(None)
    else if |laps| == 0 then Failure(IndexError)
    else match SectorOf(laps[0], s)
      case None => Failure(IndexError)
      case Some(first) =>
        assert laps[..1] == [laps[0]];
        SectorLoop(laps, s, 1, first)
  }

  /** The fastest sector is None exactly when some lap is missing that
      sector's time. */
  lemma FastestSectorNone(markerCount: nat, laps: seq<Lap>, sector: int)
    requires markerCount > sector - 1 && FastestSector(markerCount, laps, sector).Success?
    ensures FastestSector(markerCount, laps, sector).value.None? <==>
      exists i :: 0 <= i < |laps| && SectorOf(laps[i], sector - 1).value.None?
  {
  }

  /** `is_fastest_sector`: whether `time` equals the fastest sector,
      raising what `fastest_sector` raises. */
  function IsFastestSector(markerCount: nat, laps: seq<Lap>, sector: int, time: Option<int>): (r: Result<bool>)
    ensures r.Success? <==> FastestSector(markerCount, laps, sector).Success?
    ensures r == Success(true) && markerCount > sector - 1 ==>
      AllHaveSector(laps, sector - 1) && IsLeastSector(laps, sector - 1, time)
  {
    var fastest :- FastestSector(markerCount, laps, sector);
    Success(time == fastest)
  }

  /** A time is the fastest sector exactly when it is the least over the
      laps: there is only one least value. */
  lemma IsFastestSectorIff(markerCount: nat, laps: seq<Lap>, sector: int, time: Option<int>)
    requires markerCount > sector - 1 && FastestSector(markerCount, laps, sector).Success?
    ensures AllHaveSector(laps, sector - 1)
    ensures IsFastestSector(markerCount, laps, sector, time) == Success(true) <==>
      IsLeastSector(laps, sector - 1, time)
  {
    var s := sector - 1;
    var v := FastestSector(markerCount, laps, sector).value;
    if IsLeastSector(laps, s, time) {
      var i :| 0 <= i < |laps| && SectorOf(laps[i], s).value == time;
      var j :| 0 <= j < |laps| && SectorOf(laps[j], s).value == v;
      assert PyLessEq(v, time) && PyLessEq(time, v);
    }
  }

  // ---------------------------------------------------------------------
  // The lap tables of the analytics tests
  // ---------------------------------------------------------------------

  /** Nine markers, two sectors per lap: laps of 30, 40 and 20. */
  function NineMarkerLaps(): seq<Lap> {
    [Lap(Some(30), 0, [Some(10), Some(10)]),
     Lap(Some(40), 30, [Some(20), Some(10)]),
     Lap(Some(20), 70, [Some(5), Some(5)])]
  }

  /** Twelve markers, two sectors per lap: laps of 30, 40, 20 and 25. */
  function TwelveMarkerLaps(): seq<Lap> {
    NineMarkerLaps() + [Lap(Some(25), 90, [Some(10), Some(10)])]
  }

  /** The nine-marker session derives the nine-marker laps. */
  lemma NineMarkerSession(markers: seq<int>)
    requires markers == [10, 20, 30, 50, 60, 70, 75, 80, 90]
    ensures DeriveLaps(markers, Some(2)) == NineMarkerLaps()
  {
    assert |DeriveLaps(markers, Some(2))| == 3 by {
      assert CeilDiv(9, 3) == 3;
    }
    LapFields(markers, 0);
    LapFields(markers, 1);
    LapFields(markers, 2);
  }

  /** The twelve-marker session derives the twelve-marker laps. */
  lemma TwelveMarkerSession(markers: seq<int>)
    requires markers == [10, 20, 30, 50, 60, 70, 75, 80, 90, 100, 110, 115]
    ensures DeriveLaps(markers, Some(2)) == TwelveMarkerLaps()
  {
    assert |DeriveLaps(markers, Some(2))| == 4 by {
      assert CeilDiv(12, 3) == 4;
    }
    LapFields(markers, 0);
    LapFields(markers, 1);
    LapFields(markers, 2);
    LapFields(markers, 3);
  }

  /** Lap differences on the nine-marker laps. */
  lemma NineMarkerDifferences()
    ensures LapDifference(NineMarkerLaps(), NineMarkerLaps()[0]) == Success(None)
    ensures LapDifference(NineMarkerLaps(), NineMarkerLaps()[1]) == Success(Some(10))
    ensures LapDifference(NineMarkerLaps(), NineMarkerLaps()[2]) == Success(Some(-20))
  {
    var laps := NineMarkerLaps();
    LapDifferenceOfLap(laps, 1);
    LapDifferenceOfLap(laps, 2);
  }

  /** Fastest time and neighbours on the nine-marker laps. */
  lemma NineMarkerAnalytics()
    ensures FastestLapTime(NineMarkerLaps()) == Some(20)
    ensures FastestLap(NineMarkerLaps()) == Some(2)
    ensures IsFastestLap(NineMarkerLaps(), NineMarkerLaps()[2])
    ensures NextLap(NineMarkerLaps(), 0) == Some(1) && NextLap(NineMarkerLaps(), 2) == None
    ensures PreviousLap(NineMarkerLaps(), 0) == None && PreviousLap(NineMarkerLaps(), 2) == Some(1)
  {
    FastestIs(NineMarkerLaps(), 2, 20);
  }

  /** Lap `f` has length `t`, no lap is faster and no later lap as fast, so
      lap `f` is the fastest. */
  lemma FastestIs(laps: seq<Lap>, f: nat, t: int)
    requires f < |laps| && HasAtLeastOneLap(laps) && laps[f].length == Some(t)
    requires forall i :: 0 <= i < |laps| && laps[i].length.Some? ==> t <= laps[i].length.value
    requires forall i :: f < i < |laps| ==> laps[i].length != Some(t)
    ensures FastestLapTime(laps) == Some(t)
    ensures FastestLap(laps) == Some(f)
  {
    ExtremeUnique(laps, FastestLapTime(laps).value, t, true);
  }

  /** Lap `f` has length `t`, no lap is slower and no later lap as slow, so
      lap `f` is the slowest. */
  lemma SlowestIs(laps: seq<Lap>, f: nat, t: int)
    requires f < |laps| && HasAtLeastOneLap(laps) && laps[f].length == Some(t)
    requires forall i :: 0 <= i < |laps| && laps[i].length.Some? ==> laps[i].length.value <= t
    requires forall i :: f < i < |laps| ==> laps[i].length != Some(t)
    ensures SlowestLapTime(laps) == Some(t)
    ensures SlowestLap(laps) == Some(f)
  {
    ExtremeUnique(laps, SlowestLapTime(laps).value, t, false);
  }

  /** Sector fastest times: 5 for both sectors of the nine-marker laps,
      None without markers, 10 for the second sector of one partial lap. */
  lemma FastestSectorExamples()
    ensures FastestSector(9, NineMarkerLaps(), 1) == Success(Some(5))
    ensures FastestSector(9, NineMarkerLaps(), 2) == Success(Some(5))
    ensures IsFastestSector(9, NineMarkerLaps(), 1, Some(5)) == Success(true)
    ensures FastestSector(0, [], 1) == Success(None)
    ensures FastestSector(2, [Lap(None, 0, [Some(10), Some(10)])], 2) == Success(Some(10))
  {
  }

  /** No lap time without a complete first lap. */
  lemma NoCompleteLap()
    ensures FastestLapTime([]) == None && FastestLap([]) == None
    ensures FastestLapTime([Lap(None, 0, [Some(10), Some(10)])]) == None
    ensures SlowestLap([Lap(None, 0, [Some(10), Some(10)])]) == None
  {
  }

  // ---------------------------------------------------------------------
  // Where the code and its documentation part
  // ---------------------------------------------------------------------

  /** On laps of 30, 40, 20 and 25 the fastest lap is lap 2. Asked for the
      next fastest, the code returns lap 0 (30), the first other lap at
      least as slow, where the next fastest is lap 3 (25). */
  lemma NextFastestFinding()
    ensures FastestLap(TwelveMarkerLaps()) == Some(2)
    ensures OrNextAsWritten(TwelveMarkerLaps(), 2, true) == Some(0)
    ensures OrNext(TwelveMarkerLaps(), 2, true) == Some(3)
  {
    var laps := TwelveMarkerLaps();
    FastestIs(laps, 2, 20);
    var r := OrNext(laps, 2, true);
    assert r.Some?;
    assert laps[r.value].length.value <= 25 by {
      assert laps[3].length == Some(25);
    }
  }

  /** On laps of 20, 30 and 40 the slowest lap is lap 2. Asked for the
      next slowest, the code returns lap 0 (20), the first other lap at
      most as slow, where the next slowest is lap 1 (30). */
  lemma NextSlowestFinding()
    ensures SlowestLap([Lap(Some(20), 0, []), Lap(Some(30), 20, []), Lap(Some(40), 50, [])]) == Some(2)
    ensures OrNextAsWritten([Lap(Some(20), 0, []), Lap(Some(30), 20, []), Lap(Some(40), 50, [])], 2, false) == Some(0)
    ensures OrNext([Lap(Some(20), 0, []), Lap(Some(30), 20, []), Lap(Some(40), 50, [])], 2, false) == Some(1)
  {
    var laps := [Lap(Some(20), 0, []), Lap(Some(30), 20, []), Lap(Some(40), 50, [])];
    SlowestIs(laps, 2, 40);
    var r := OrNext(laps, 2, false);
    assert r.Some?;
    assert 30 <= laps[r.value].length.value by {
      assert laps[1].length == Some(30);
    }
  }

  /** The Python 2 test `None <= 40` admits an incomplete lap: after a 40
      lap and an incomplete one, the code's next slowest is the incomplete
      lap, where there is no next slowest lap. */
  lemma NextSlowestIncomplete()
    ensures SlowestLap([Lap(Some(40), 0, []), Lap(None, 40, [])]) == Some(0)
    ensures OrNextAsWritten([Lap(Some(40), 0, []), Lap(None, 40, [])], 0, false) == Some(1)
    ensures OrNext([Lap(Some(40), 0, []), Lap(None, 40, [])], 0, false) == None
  {
    SlowestIs([Lap(Some(40), 0, []), Lap(None, 40, [])], 0, 40);
  }
}
