/** Lap and sector derivation from a session's flat marker list
    (`Session.refresh_laps` and `Lap` in `openmotorsport/openmotorsport.py`).

    Markers are session times in milliseconds. With `k` sectors per lap the
    markers are cut into groups of `k + 1`: the first `k` marks of a group
    close the lap's sectors and the last one closes the lap. */
module Laps {
  import opened Wrappers
  import opened Arith

  // ---------------------------------------------------------------------
  // Laps
  // ---------------------------------------------------------------------

  /** A derived lap. `length` is None when the lap's closing mark is missing;
      `offset` is the session time at which the lap starts; each entry of
      `sectors` is the time from the previous boundary of the lap to that
      sector's mark, None when the mark is missing. */
  datatype Lap = Lap(length: Option<int>, offset: int, sectors: seq<Option<int>>)

  /** `end_time`: the offset plus the length; without a length, the offset
      plus the last sector time present; without either, the offset. */
  function EndTime(lap: Lap): (r: int)
    ensures lap.length.Some? ==> r == lap.offset + lap.length.value
    ensures lap.length.None? ==>
      (forall j :: 0 <= j < |lap.sectors| ==> lap.sectors[j].None?) ==> r == lap.offset
    ensures lap.length.None? ==>
      forall j :: 0 <= j < |lap.sectors| && lap.sectors[j].Some? && LaterAbsent(lap.sectors, j) ==>
        r == lap.offset + lap.sectors[j].value
  {
    match lap.length
    case Some(l) => lap.offset + l
    case None =>
      match LastPresent(lap.sectors)
      case None => lap.offset
      case Some(j) => lap.offset + lap.sectors[j].value
  }

  /** No entry of `xs` after position `j` is present. */
  ghost predicate LaterAbsent(xs: seq<Option<int>>, j: nat) {
    forall j' :: j < j' < |xs| ==> xs[j'].None?
  }

  /** Position of the last entry of `xs` that is present. */
  function LastPresent(xs: seq<Option<int>>): (r: Option<nat>)
    ensures r.None? ==> forall j :: 0 <= j < |xs| ==> xs[j].None?
    ensures r.Some? ==> r.value < |xs| && xs[r.value].Some?
    ensures r.Some? ==> LaterAbsent(xs, r.value)
    decreases |xs|
  {
    if |xs| == 0 then None
    else if xs[|xs| - 1].Some? then Some(|xs| - 1)
    else LastPresent(xs[..|xs| - 1])
  }

  // ---------------------------------------------------------------------
  // Grouping
  // ---------------------------------------------------------------------

  /** The `n` slots starting at marker `start`, None past the last marker. */
  function Chunk(markers: seq<int>, start: nat, n: nat): seq<Option<int>> {
    seq(n, j requires 0 <= j < n =>
      if start + j < |markers| then Some(markers[start + j]) else None)
  }

  /** `grouper(markers, n)`, that is `izip_longest(*[iter(markers)] * n,
      fillvalue=None)`: consecutive groups of `n` markers, the last one
      padded with None. */
  function Grouper(markers: seq<int>, n: nat): (groups: seq<seq<Option<int>>>)
    requires n > 0
    ensures |groups| == CeilDiv(|markers|, n)
    ensures forall i :: 0 <= i < |groups| ==> |groups[i]| == n
    decreases |markers|
  {
    if |markers| == 0 then []
    else if |markers| <= n then
      CeilDivOne(|markers|, n);
      [Chunk(markers, 0, n)]
    else
      CeilDivStep(|markers|, n);
      [Chunk(markers, 0, n)] + Grouper(markers[n..], n)
  }

  /** Group `i` holds the `n` slots from marker `i * n` on: every marker
      lands in exactly one slot, in order, and only the last group is
      padded. */
  lemma {:induction false} GrouperAt(markers: seq<int>, n: nat, i: nat)
    requires n > 0 && i < |Grouper(markers, n)|
    ensures Grouper(markers, n)[i] == Chunk(markers, i * n, n)
    decreases |markers|
  {
    if i == 0 {
      assert Grouper(markers, n)[0] == Chunk(markers, 0, n);
    } else {
      GrouperStep(markers, n);
      GrouperAt(markers[n..], n, i - 1);
      assert (i - 1) * n == i * n - n;
      ChunkShiftAt(markers, n, i * n);
    }
  }

  lemma ChunkShiftAt(markers: seq<int>, n: nat, p: nat)
    requires n <= |markers| && n <= p
    ensures Chunk(markers[n..], p - n, n) == Chunk(markers, p, n)
  {
  }

  /** There is a group `i` exactly when its first slot holds a marker. */
  lemma GroupCount(count: nat, n: nat, i: nat)
    requires n > 0
    ensures i < CeilDiv(count, n) <==> i * n < count
  {
    var q := CeilDiv(count, n);
    DivBounds(count + n - 1, n);
    if i < q {
      MulMono(i + 1, q, n);
      assert n * (i + 1) == i * n + n;
    } else {
      MulMono(q, i, n);
    }
  }

  // ---------------------------------------------------------------------
  // Building laps
  // ---------------------------------------------------------------------

  /** Every mark present in a group is made relative to the boundary before
      it: the first to `prev`, each later one to the mark preceding it. */
  function RelSectors(g: seq<Option<int>>, prev: int): (r: seq<Option<int>>)
    ensures |r| == |g|
    ensures forall j :: 0 <= j < |g| ==> (r[j].Some? <==> g[j].Some?)
    ensures |g| > 0 && g[0].Some? ==> r[0] == Some(g[0].value - prev)
    decreases |g|
  {
    if |g| == 0 then []
    else match g[0]
      case None => [None] + RelSectors(g[1..], prev)
      case Some(t) => [Some(t - prev)] + RelSectors(g[1..], t)
  }

  /** The lap closed by group `g`, which starts at session time `offset`:
      the last slot is the closing mark, the others are sector marks. */
  function LapFromGroup(g: seq<Option<int>>, offset: int): (lap: Lap)
    requires |g| > 0
    ensures |lap.sectors| == |g| - 1
  {
    var last := g[|g| - 1];
    Lap(if last.Some? then Some(last.value - offset) else None,
        offset, RelSectors(g[..|g| - 1], offset))
  }

  /** The laps of consecutive groups. Each lap starts where the laps before
      it end: at the sum of their lengths. In the groups of `DeriveLaps`
      only the final, padded group can lack its closing mark, so the zero
      used for a missing length is never added into a later lap's offset.
      Where a mark at time 0 loses a length as well, the source raises
      `TypeError` instead; `BuildLapsAsWritten` models that. */
  function BuildLaps(groups: seq<seq<Option<int>>>, offset: int): (laps: seq<Lap>)
    requires forall i :: 0 <= i < |groups| ==> |groups[i]| > 0
    ensures |laps| == |groups|
    decreases |groups|
  {
    if |groups| == 0 then []
    else
      var lap := LapFromGroup(groups[0], offset);
      [lap] + BuildLaps(groups[1..], offset + lap.length.GetOr(0))
  }

  /** `refresh_laps`: no laps until the number of sectors per lap is set;
      with `k` sectors, one lap per group of `k + 1` markers, each with
      exactly `k` sector entries. */
  function DeriveLaps(markers: seq<int>, numSectors: Option<nat>): (laps: seq<Lap>)
    ensures numSectors.None? ==> laps == []
    ensures numSectors.Some? ==> |laps| == CeilDiv(|markers|, numSectors.value + 1)
  {
    match numSectors
    case None => []
    case Some(k) => BuildLaps(Grouper(markers, k + 1), 0)
  }

  // ---------------------------------------------------------------------
  // Reference definition: each lap read directly off the markers
  // ---------------------------------------------------------------------

  /** Session time at which lap `i` of `n`-marker groups starts: the closing
      mark of the group before it, 0 for the first lap. */
  function LapStart(markers: seq<int>, n: nat, i: nat): int
    requires n > 0 && i * n <= |markers|
  {
    if i == 0 then 0
    else
      MulAtLeast(i, n);
      markers[i * n - 1]
  }

  /** Reference lap `i`: group `i` made relative to the previous group's
      closing mark, without any running sum. */
  function RefLap(markers: seq<int>, n: nat, i: nat): Lap
    requires n > 0 && i * n < |markers|
  {
    LapFromGroup(Chunk(markers, i * n, n), LapStart(markers, n, i))
  }

  /** The offset the running sum of lap lengths gives the lap of group `i`. */
  ghost function FoldOffset(groups: seq<seq<Option<int>>>, offset: int, i: nat): int
    requires forall j :: 0 <= j < |groups| ==> |groups[j]| > 0
    requires i < |groups|
    decreases i
  {
    if i == 0 then offset
    else FoldOffset(groups[1..], offset + LapFromGroup(groups[0], offset).length.GetOr(0), i - 1)
  }

  /** Lap `i` is built from group `i` at its running-sum offset. */
  lemma {:induction false} BuildLapsAt(groups: seq<seq<Option<int>>>, offset: int, i: nat)
    requires forall j :: 0 <= j < |groups| ==> |groups[j]| > 0
    requires i < |groups|
    ensures BuildLaps(groups, offset)[i] == LapFromGroup(groups[i], FoldOffset(groups, offset, i))
    decreases i
  {
    if i > 0 {
      var next := offset + LapFromGroup(groups[0], offset).length.GetOr(0);
      BuildLapsAt(groups[1..], next, i - 1);
    }
  }

  /** The running sum of lap lengths up to group `i` of `n`-marker groups
      is the closing mark of group `i - 1`, at marker position `p - 1`. */
  lemma {:induction false} GroupOffset(markers: seq<int>, n: nat, offset: int, i: nat, p: nat)
    requires n > 0 && p == i * n && p < |markers|
    ensures i < |Grouper(markers, n)|
    ensures FoldOffset(Grouper(markers, n), offset, i) == if p == 0 then offset else markers[p - 1]
    decreases |markers|, 1
  {
    GroupCount(|markers|, n, i);
    if i == 0 {
      assert p == 0;
    } else {
      assert n <= p && (i - 1) * n == p - n by {
        MulAtLeast(i, n);
      }
      LaterGroupOffset(markers, n, offset, i, p);
    }
  }

  /** The step case of `GroupOffset`: after the first group, the running
      sum restarts from the first group's closing mark. */
  lemma {:induction false} LaterGroupOffset(markers: seq<int>, n: nat, offset: int, i: nat, p: nat)
    requires 0 < n <= p < |markers| && 0 < i < |Grouper(markers, n)|
    requires p == i * n && (i - 1) * n == p - n
    ensures FoldOffset(Grouper(markers, n), offset, i) == markers[p - 1]
    decreases |markers|, 0
  {
    var rest := markers[n..];
    var next := markers[n - 1];
    assert FoldOffset(Grouper(markers, n), offset, i) == FoldOffset(Grouper(rest, n), next, i - 1) by {
      GrouperStep(markers, n);
      FirstLapEnd(markers, n, offset);
    }
    GroupOffset(rest, n, next, i - 1, p - n);
    assert (if p - n == 0 then next else rest[p - n - 1]) == markers[p - 1];
  }

  /** Building laps by summing lap lengths agrees with the reference: the
      lap of the group at marker position `p` starts at the marker just
      before `p`. */
  lemma FoldAt(markers: seq<int>, n: nat, offset: int, i: nat, p: nat)
    requires n > 0 && p == i * n && p < |markers|
    ensures i < |Grouper(markers, n)|
    ensures BuildLaps(Grouper(markers, n), offset)[i]
         == LapFromGroup(Chunk(markers, p, n), if p == 0 then offset else markers[p - 1])
  {
    GroupOffset(markers, n, offset, i, p);
    BuildLapsAt(Grouper(markers, n), offset, i);
    GrouperAt(markers, n, i);
  }

  /** Past the first group, the groups are those of the remaining markers. */
  lemma GrouperStep(markers: seq<int>, n: nat)
    requires 0 < n < |markers|
    ensures Grouper(markers, n)[0] == Chunk(markers, 0, n)
    ensures Grouper(markers, n)[1..] == Grouper(markers[n..], n)
  {
  }

  /** A full first group ends the first lap at its closing mark. */
  lemma FirstLapEnd(markers: seq<int>, n: nat, offset: int)
    requires 0 < n < |markers|
    ensures markers[n - 1] == offset + LapFromGroup(Chunk(markers, 0, n), offset).length.GetOr(0)
  {
    assert Chunk(markers, 0, n)[n - 1] == Some(markers[n - 1]);
  }

  /** Lap `i` of the derived laps is the reference lap `i`. */
  lemma DerivedLap(markers: seq<int>, k: nat, i: nat)
    requires i < |DeriveLaps(markers, Some(k))|
    ensures 0 <= i * (k + 1) < |markers|
    ensures DeriveLaps(markers, Some(k))[i] == RefLap(markers, k + 1, i)
  {
    assert DeriveLaps(markers, Some(k)) == BuildLaps(Grouper(markers, k + 1), 0);
    BuiltLap(markers, k + 1, i);
  }

  /** Lap `i` built from the groups of `n` markers is the reference lap
      `i`. */
  lemma BuiltLap(markers: seq<int>, n: nat, i: nat)
    requires n > 0 && i < |Grouper(markers, n)|
    ensures 0 <= i * n < |markers|
    ensures BuildLaps(Grouper(markers, n), 0)[i] == RefLap(markers, n, i)
  {
    var p := i * n;
    assert 0 <= p < |markers| && (i > 0 ==> p >= n) && (i == 0 ==> p == 0) by {
      GroupCount(|markers|, n, i);
      MulMono(0, i, n);
      if i > 0 {
        MulAtLeast(i, n);
      }
    }
    FoldAt(markers, n, 0, i, p);
    assert LapStart(markers, n, i) == if p == 0 then 0 else markers[p - 1];
  }

  /** No slot of `g` holds a mark. */
  ghost predicate AllAbsent(g: seq<Option<int>>) {
    forall j :: 0 <= j < |g| ==> g[j].None?
  }

  /** No mark follows a missing one in a group. */
  ghost predicate Padded(g: seq<Option<int>>)
    decreases |g|
  {
    |g| == 0 || if g[0].Some? then Padded(g[1..]) else AllAbsent(g)
  }

  /** The slots of a chunk are filled up to the last marker. */
  lemma {:induction false} ChunkPadded(markers: seq<int>, start: nat, n: nat)
    ensures Padded(Chunk(markers, start, n))
    decreases n
  {
    var g := Chunk(markers, start, n);
    if n > 0 && start < |markers| {
      assert g[1..] == Chunk(markers, start + 1, n - 1);
      ChunkPadded(markers, start + 1, n - 1);
    }
  }

  /** Every prefix of a padded group is padded. */
  lemma {:induction false} PaddedPrefix(g: seq<Option<int>>, k: nat)
    requires Padded(g) && k <= |g|
    ensures Padded(g[..k])
    decreases k
  {
    if k > 0 && g[0].Some? {
      assert g[..k][1..] == g[1..][..k - 1];
      PaddedPrefix(g[1..], k - 1);
    }
  }

  /** Sector `j` is its mark minus the mark before it, or minus `prev` for
      the first sector. */
  lemma {:induction false} RelSectorsAt(g: seq<Option<int>>, prev: int, j: nat)
    requires j < |g| && g[j].Some? && Padded(g)
    ensures j > 0 ==> g[j - 1].Some?
    ensures RelSectors(g, prev)[j] == Some(g[j].value - (if j == 0 then prev else g[j - 1].value))
    decreases j
  {
    assert g[0].Some?;
    if j > 0 {
      RelSectorsAt(g[1..], g[0].value, j - 1);
    }
  }

  // ---------------------------------------------------------------------
  // Properties of the derived laps
  // ---------------------------------------------------------------------

  /** The offset of lap `i` is the closing mark of the lap before it. */
  lemma LapOffset(markers: seq<int>, k: nat, i: nat)
    requires i < |DeriveLaps(markers, Some(k))|
    ensures i * (k + 1) < |markers|
    ensures DeriveLaps(markers, Some(k))[i].offset == LapStart(markers, k + 1, i)
  {
    DerivedLap(markers, k, i);
  }

  /** Every lap has one entry per sector. */
  lemma SectorCount(markers: seq<int>, k: nat, i: nat)
    requires i < |DeriveLaps(markers, Some(k))|
    ensures |DeriveLaps(markers, Some(k))[i].sectors| == k
  {
    DerivedLap(markers, k, i);
  }

  /** The length of lap `i` is its closing mark minus its offset, or None
      when the markers run out before it. */
  lemma LapLength(markers: seq<int>, k: nat, i: nat)
    requires i < |DeriveLaps(markers, Some(k))|
    ensures i * (k + 1) < |markers|
    ensures DeriveLaps(markers, Some(k))[i].length ==
      if i * (k + 1) + k < |markers|
      then Some(markers[i * (k + 1) + k] - LapStart(markers, k + 1, i))
      else None
  {
    DerivedLap(markers, k, i);
    RefLength(markers, k + 1, i);
  }

  /** The length of reference lap `i`, read off the markers. */
  lemma RefLength(markers: seq<int>, n: nat, i: nat)
    requires n > 0 && i * n < |markers|
    ensures RefLap(markers, n, i).length ==
      if i * n + n - 1 < |markers|
      then Some(markers[i * n + n - 1] - LapStart(markers, n, i))
      else None
  {
    assert Chunk(markers, i * n, n)[n - 1] ==
      if i * n + n - 1 < |markers| then Some(markers[i * n + n - 1]) else None;
  }

  /** Sector `j` of lap `i` is its mark minus the previous boundary (the lap
      offset for the first sector), or None when the markers run out. */
  lemma LapSector(markers: seq<int>, k: nat, i: nat, j: nat)
    requires i < |DeriveLaps(markers, Some(k))| && j < k
    ensures 0 <= i * (k + 1) < |markers|
    ensures |DeriveLaps(markers, Some(k))[i].sectors| == k
    ensures var p := i * (k + 1);
      DeriveLaps(markers, Some(k))[i].sectors[j] ==
        if p + j >= |markers| then None
        else if j == 0 then Some(markers[p] - LapStart(markers, k + 1, i))
        else Some(markers[p + j] - markers[p + j - 1])
  {
    DerivedLap(markers, k, i);
    RefSector(markers, k, i, j);
  }

  /** Sector `j` of reference lap `i`, read off the markers. */
  lemma RefSector(markers: seq<int>, k: nat, i: nat, j: nat)
    requires i * (k + 1) < |markers| && j < k
    ensures |RefLap(markers, k + 1, i).sectors| == k
    ensures var p := i * (k + 1);
      RefLap(markers, k + 1, i).sectors[j] ==
        if p + j >= |markers| then None
        else if j == 0 then Some(markers[p] - LapStart(markers, k + 1, i))
        else Some(markers[p + j] - markers[p + j - 1])
  {
    var p := i * (k + 1);
    var start := LapStart(markers, k + 1, i);
    var g := Chunk(markers, p, k + 1);
    assert RefLap(markers, k + 1, i).sectors == RelSectors(g[..k], start);
    GroupSector(markers, k, p, start, j);
  }

  /** The sectors of lap `i` are those of its group, made relative from the
      lap's start. */
  lemma DerivedSectors(markers: seq<int>, k: nat, i: nat)
    requires i < |DeriveLaps(markers, Some(k))|
    ensures 0 <= i * (k + 1) < |markers|
    ensures DeriveLaps(markers, Some(k))[i].sectors
         == RelSectors(Chunk(markers, i * (k + 1), k + 1)[..k], LapStart(markers, k + 1, i))
  {
    DerivedLap(markers, k, i);
  }

  /** Sector `j` of the group of `k + 1` slots at marker position `p`, made
      relative to the boundary before it. */
  lemma GroupSector(markers: seq<int>, k: nat, p: nat, start: int, j: nat)
    requires p < |markers| && j < k
    ensures |RelSectors(Chunk(markers, p, k + 1)[..k], start)| == k
    ensures RelSectors(Chunk(markers, p, k + 1)[..k], start)[j] ==
      if p + j >= |markers| then None
      else if j == 0 then Some(markers[p] - start)
      else Some(markers[p + j] - markers[p + j - 1])
  {
    var g := Chunk(markers, p, k + 1)[..k];
    assert g == Chunk(markers, p, k);
    if p + j < |markers| {
      ChunkPadded(markers, p, k);
      RelSectorsAt(g, start, j);
    } else {
      RelSectorsAbsent(g, start, j);
    }
  }

  /** A missing mark gives a missing sector time. */
  lemma {:induction false} RelSectorsAbsent(g: seq<Option<int>>, prev: int, j: nat)
    requires j < |g| && g[j].None?
    ensures RelSectors(g, prev)[j].None?
    decreases j
  {
    if j > 0 {
      RelSectorsAbsent(g[1..], if g[0].Some? then g[0].value else prev, j - 1);
    }
  }

  /** Every lap but the last has its closing mark. */
  lemma OnlyLastIncomplete(markers: seq<int>, k: nat, i: nat)
    requires i + 1 < |DeriveLaps(markers, Some(k))|
    ensures DeriveLaps(markers, Some(k))[i].length.Some?
  {
    LapLength(markers, k, i);
    DerivedLap(markers, k, i + 1);
    assert (i + 1) * (k + 1) == i * (k + 1) + k + 1;
  }

  /** A lap with a closing mark ends at that mark. */
  lemma CompleteLapEnd(markers: seq<int>, k: nat, i: nat)
    requires i < |DeriveLaps(markers, Some(k))|
    requires DeriveLaps(markers, Some(k))[i].length.Some?
    ensures i * (k + 1) + k < |markers|
    ensures EndTime(DeriveLaps(markers, Some(k))[i]) == markers[i * (k + 1) + k]
  {
    LapLength(markers, k, i);
    LapOffset(markers, k, i);
  }

  /** Each lap starts where the previous one ends. */
  lemma OffsetChain(markers: seq<int>, k: nat, i: nat)
    requires i + 1 < |DeriveLaps(markers, Some(k))|
    ensures DeriveLaps(markers, Some(k))[i].length.Some?
    ensures DeriveLaps(markers, Some(k))[i + 1].offset == EndTime(DeriveLaps(markers, Some(k))[i])
  {
    OnlyLastIncomplete(markers, k, i);
    CompleteLapEnd(markers, k, i);
    LapOffset(markers, k, i + 1);
    assert (i + 1) * (k + 1) - 1 == i * (k + 1) + k;
  }

  /** Sum of the lap lengths, a missing length counting as zero. */
  function TotalLength(laps: seq<Lap>): int
    decreases |laps|
  {
    if |laps| == 0 then 0
    else TotalLength(laps[..|laps| - 1]) + laps[|laps| - 1].length.GetOr(0)
  }

  /** A lap's offset is the sum of the lengths of all laps before it, all
      of which are complete. */
  lemma {:induction false} OffsetIsSum(markers: seq<int>, k: nat, i: nat)
    requires i < |DeriveLaps(markers, Some(k))|
    ensures forall j :: 0 <= j < i ==> DeriveLaps(markers, Some(k))[j].length.Some?
    ensures DeriveLaps(markers, Some(k))[i].offset == TotalLength(DeriveLaps(markers, Some(k))[..i])
    decreases i
  {
    var laps := DeriveLaps(markers, Some(k));
    if i == 0 {
      LapOffset(markers, k, 0);
    } else {
      OffsetIsSum(markers, k, i - 1);
      OffsetChain(markers, k, i - 1);
      assert laps[..i][..i - 1] == laps[..i - 1];
    }
  }

  /** With no sectors each marker closes one lap: lap `i` runs from marker
      `i - 1` (or 0) to marker `i` and has no sector entries. */
  lemma NoSectorLaps(markers: seq<int>, i: nat)
    requires i < |DeriveLaps(markers, Some(0))|
    ensures i < |markers|
    ensures DeriveLaps(markers, Some(0))[i]
         == Lap(Some(markers[i] - (if i == 0 then 0 else markers[i - 1])),
                if i == 0 then 0 else markers[i - 1], [])
  {
    LapLength(markers, 0, i);
    LapOffset(markers, 0, i);
    SectorCount(markers, 0, i);
    assert i * (0 + 1) == i;
  }

  // ---------------------------------------------------------------------
  // Rebuilding the markers from the laps
  // ---------------------------------------------------------------------

  /** The marks a group holds, in order. */
  function Present(g: seq<Option<int>>): seq<int>
    decreases |g|
  {
    if |g| == 0 then []
    else (if g[0].Some? then [g[0].value] else []) + Present(g[1..])
  }

  /** Session times of the sector marks, found by adding the sector times
      one after another to `base`; a missing sector ends the list. */
  function AbsMarks(base: int, sectors: seq<Option<int>>): seq<int>
    decreases |sectors|
  {
    if |sectors| == 0 then []
    else match sectors[0]
      case None => []
      case Some(d) => [base + d] + AbsMarks(base + d, sectors[1..])
  }

  /** The markers a lap accounts for: its sector marks, then its closing
      mark when it has one. */
  function LapMarks(lap: Lap): seq<int> {
    AbsMarks(lap.offset, lap.sectors)
      + (if lap.length.Some? then [lap.offset + lap.length.value] else [])
  }

  /** The markers a list of laps accounts for, lap after lap. */
  function Markers(laps: seq<Lap>): seq<int>
    decreases |laps|
  {
    if |laps| == 0 then [] else LapMarks(laps[0]) + Markers(laps[1..])
  }

  /** A group with no mark holds nothing. */
  lemma {:induction false} PresentNone(g: seq<Option<int>>)
    requires AllAbsent(g)
    ensures Present(g) == []
    decreases |g|
  {
    if |g| > 0 {
      PresentNone(g[1..]);
    }
  }

  /** The marks of two groups side by side are the marks of each in turn. */
  lemma {:induction false} PresentAppend(a: seq<Option<int>>, b: seq<Option<int>>)
    ensures Present(a + b) == Present(a) + Present(b)
    decreases |a|
  {
    if |a| > 0 {
      assert (a + b)[1..] == a[1..] + b;
      PresentAppend(a[1..], b);
    } else {
      assert a + b == b;
    }
  }

  /** The slots from `start` hold exactly the markers from `start` on, up
      to `n` of them. */
  lemma {:induction false} PresentChunk(markers: seq<int>, start: nat, n: nat)
    requires start <= |markers|
    ensures Present(Chunk(markers, start, n))
         == if start + n <= |markers| then markers[start..start + n] else markers[start..]
    decreases n
  {
    var g := Chunk(markers, start, n);
    if n == 0 {
    } else if start == |markers| {
      assert AllAbsent(g);
      PresentNone(g);
    } else {
      assert g[1..] == Chunk(markers, start + 1, n - 1);
      PresentChunk(markers, start + 1, n - 1);
    }
  }

  /** Adding up the relative sector times gives back the marks. */
  lemma {:induction false} RelSectorsInverse(g: seq<Option<int>>, prev: int)
    requires Padded(g)
    ensures AbsMarks(prev, RelSectors(g, prev)) == Present(g)
    decreases |g|
  {
    if |g| > 0 {
      match g[0]
      case None =>
        PresentNone(g);
      case Some(t) =>
        RelSectorsInverse(g[1..], t);
    }
  }

  /** The lap of a group accounts for exactly the group's marks. */
  lemma GroupMarks(g: seq<Option<int>>, offset: int)
    requires |g| > 0 && Padded(g)
    ensures LapMarks(LapFromGroup(g, offset)) == Present(g)
  {
    var k := |g| - 1;
    var closing := if g[k].Some? then [g[k].value] else [];
    assert LapMarks(LapFromGroup(g, offset)) == Present(g[..k]) + closing by {
      PaddedPrefix(g, k);
      RelSectorsInverse(g[..k], offset);
    }
    assert Present(g) == Present(g[..k]) + closing by {
      SplitLast(g);
      PresentAppend(g[..k], [g[k]]);
      assert Present([g[k]]) == closing;
    }
  }

  lemma SplitAt<T>(s: seq<T>, n: nat)
    requires n <= |s|
    ensures s[..n] + s[n..] == s
  {
  }

  lemma SplitLast<T>(g: seq<T>)
    requires |g| > 0
    ensures g == g[..|g| - 1] + [g[|g| - 1]]
  {
  }

  /** Building laps from the groups of `markers` and listing their marks
      gives back `markers`. */
  lemma {:induction false} BuildMarks(markers: seq<int>, n: nat, offset: int)
    requires n > 0
    ensures Markers(BuildLaps(Grouper(markers, n), offset)) == markers
    decreases |markers|, 1
  {
    if 0 < |markers| <= n {
      var first := LapFromGroup(Chunk(markers, 0, n), offset);
      FirstGroupMarks(markers, n, offset);
      assert BuildLaps(Grouper(markers, n), offset) == [first];
      MarkersCons(first, []);
    } else if |markers| > n {
      LaterMarks(markers, n, offset);
    }
  }

  /** The step case of `BuildMarks`: the first lap accounts for the first
      group, the later laps for the rest. */
  lemma {:induction false} LaterMarks(markers: seq<int>, n: nat, offset: int)
    requires 0 < n < |markers|
    ensures Markers(BuildLaps(Grouper(markers, n), offset)) == markers
    decreases |markers|, 0
  {
    var first := LapFromGroup(Chunk(markers, 0, n), offset);
    var rest := markers[n..];
    var tail := BuildLaps(Grouper(rest, n), markers[n - 1]);
    assert BuildLaps(Grouper(markers, n), offset) == [first] + tail by {
      GrouperStep(markers, n);
      FirstLapEnd(markers, n, offset);
      BuildLapsCons(Grouper(markers, n), offset, Chunk(markers, 0, n), Grouper(rest, n), markers[n - 1]);
    }
    assert Markers([first] + tail) == markers by {
      MarkersCons(first, tail);
      FirstGroupMarks(markers, n, offset);
      BuildMarks(rest, n, markers[n - 1]);
      SplitAt(markers, n);
    }
  }

  /** The first lap accounts for the markers of the first group. */
  lemma FirstGroupMarks(markers: seq<int>, n: nat, offset: int)
    requires 0 < n && 0 < |markers|
    ensures LapMarks(LapFromGroup(Chunk(markers, 0, n), offset))
         == if |markers| <= n then markers else markers[..n]
  {
    ChunkPadded(markers, 0, n);
    GroupMarks(Chunk(markers, 0, n), offset);
    PresentChunk(markers, 0, n);
  }

  /** The laps of non-empty groups: the first group's lap, then the laps of
      the others from where it ends. */
  lemma BuildLapsCons(groups: seq<seq<Option<int>>>, offset: int,
                      first: seq<Option<int>>, others: seq<seq<Option<int>>>, next: int)
    requires |groups| > 0 && forall i :: 0 <= i < |groups| ==> |groups[i]| > 0
    requires groups[0] == first && groups[1..] == others
    requires next == offset + LapFromGroup(first, offset).length.GetOr(0)
    ensures BuildLaps(groups, offset) == [LapFromGroup(first, offset)] + BuildLaps(others, next)
  {
  }

  /** The marks of a lap list that starts with `lap`. */
  lemma MarkersCons(lap: Lap, laps: seq<Lap>)
    ensures Markers([lap] + laps) == LapMarks(lap) + Markers(laps)
  {
    assert ([lap] + laps)[1..] == laps;
  }

  /** Round trip: the derived laps account for every marker, in order, so
      the markers can be rebuilt from the laps alone. */
  lemma MarkersRoundTrip(markers: seq<int>, k: nat)
    ensures Markers(DeriveLaps(markers, Some(k))) == markers
  {
    BuildMarks(markers, k + 1, 0);
  }

  /** Adding markers leaves every complete lap as it was: a complete lap
      only reads markers that are already there. */
  lemma ExtendKeepsCompleteLap(markers: seq<int>, extra: seq<int>, k: nat, i: nat)
    requires i < |DeriveLaps(markers, Some(k))|
    requires DeriveLaps(markers, Some(k))[i].length.Some?
    ensures i < |DeriveLaps(markers + extra, Some(k))|
    ensures DeriveLaps(markers + extra, Some(k))[i] == DeriveLaps(markers, Some(k))[i]
  {
    var longer := markers + extra;
    var before, after := DeriveLaps(markers, Some(k)), DeriveLaps(longer, Some(k));
    LapLength(markers, k, i);
    var p := i * (k + 1);
    assert p + k < |markers|;
    assert i < |after| by {
      GroupCount(|longer|, k + 1, i);
    }
    LapLength(longer, k, i);
    LapOffset(markers, k, i);
    LapOffset(longer, k, i);
    assert LapStart(longer, k + 1, i) == LapStart(markers, k + 1, i);
    SectorCount(markers, k, i);
    SectorCount(longer, k, i);
    forall j | 0 <= j < k
      ensures after[i].sectors[j] == before[i].sectors[j]
    {
      LapSector(markers, k, i, j);
      LapSector(longer, k, i, j);
    }
    assert after[i].sectors == before[i].sectors;
  }

  // ---------------------------------------------------------------------
  // Lap tables from concrete marker lists
  // ---------------------------------------------------------------------

  /** Two complete laps of two sectors each. */
  lemma TwoCompleteLaps()
    ensures DeriveLaps([10, 20, 30, 50, 60, 70], Some(2))
         == [Lap(Some(30), 0, [Some(10), Some(10)]), Lap(Some(40), 30, [Some(20), Some(10)])]
  {
    var markers := [10, 20, 30, 50, 60, 70];
    var laps := DeriveLaps(markers, Some(2));
    assert |laps| == 2 by {
      CeilDivStep(6, 3);
      CeilDivOne(3, 3);
    }
    LapFields(markers, 0);
    LapFields(markers, 1);
  }

  /** A complete lap followed by one that stops after its first sector. */
  lemma PartialSecondLap()
    ensures DeriveLaps([10, 20, 30, 40], Some(2))
         == [Lap(Some(30), 0, [Some(10), Some(10)]), Lap(None, 30, [Some(10), None])]
  {
    var markers := [10, 20, 30, 40];
    var laps := DeriveLaps(markers, Some(2));
    assert |laps| == 2 by {
      CeilDivStep(4, 3);
      CeilDivOne(1, 3);
    }
    LapFields(markers, 0);
    LapFields(markers, 1);
  }

  /** Two marks of a two-sector lap give its sectors but no length. */
  lemma PartialFirstLap()
    ensures DeriveLaps([10, 20], Some(2)) == [Lap(None, 0, [Some(10), Some(10)])]
  {
    var markers := [10, 20];
    assert |DeriveLaps(markers, Some(2))| == 1 by {
      CeilDivOne(2, 3);
    }
    LapFields(markers, 0);
  }

  /** Lap `i` of a two-sector lap table, field by field. */
  lemma LapFields(markers: seq<int>, i: nat)
    requires i < |DeriveLaps(markers, Some(2))|
    ensures var p := i * 3;
      0 <= p < |markers| &&
      DeriveLaps(markers, Some(2))[i] ==
        Lap(if p + 2 < |markers| then Some(markers[p + 2] - LapStart(markers, 3, i)) else None,
            LapStart(markers, 3, i),
            [Some(markers[p] - LapStart(markers, 3, i)),
             if p + 1 < |markers| then Some(markers[p + 1] - markers[p]) else None])
  {
    DerivedLap(markers, 2, i);
    RefFields(markers, i);
  }

  /** Reference lap `i` of two-sector laps, field by field. */
  lemma RefFields(markers: seq<int>, i: nat)
    requires i * 3 < |markers|
    ensures var p := i * 3;
      RefLap(markers, 3, i) ==
        Lap(if p + 2 < |markers| then Some(markers[p + 2] - LapStart(markers, 3, i)) else None,
            LapStart(markers, 3, i),
            [Some(markers[p] - LapStart(markers, 3, i)),
             if p + 1 < |markers| then Some(markers[p + 1] - markers[p]) else None])
  {
    RefSector(markers, 2, i, 0);
    RefSector(markers, 2, i, 1);
  }

  /** Without sectors, markers evenly spaced `step` apart from `step` on
      give laps of length `step`, lap `i` starting at `step * i`. */
  lemma EvenLaps(markers: seq<int>, step: int, i: nat)
    requires forall j :: 0 <= j < |markers| ==> markers[j] == step * (j + 1)
    requires i < |markers|
    ensures |DeriveLaps(markers, Some(0))| == |markers|
    ensures DeriveLaps(markers, Some(0))[i] == Lap(Some(step), step * i, [])
  {
    assert CeilDiv(|markers|, 1) == |markers|;
    NoSectorLaps(markers, i);
    if i > 0 {
      assert step * (i - 1 + 1) == step * i;
      assert step * (i + 1) - step * i == step;
    }
  }

  /** Six markers 10 apart without sectors are six laps of 10 starting 10
      apart. */
  lemma SixPlainLaps(markers: seq<int>)
    requires markers == [10, 20, 30, 40, 50, 60]
    ensures |DeriveLaps(markers, Some(0))| == 6
    ensures forall i :: 0 <= i < 6 ==> DeriveLaps(markers, Some(0))[i] == Lap(Some(10), 10 * i, [])
  {
    forall i | 0 <= i < 6
      ensures DeriveLaps(markers, Some(0))[i] == Lap(Some(10), 10 * i, [])
    {
      EvenLaps(markers, 10, i);
    }
    EvenLaps(markers, 10, 0);
  }

  /** Unset sector count: no laps, whatever the markers. */
  lemma NoCountNoLaps(markers: seq<int>)
    ensures DeriveLaps(markers, None) == []
    ensures DeriveLaps([], Some(2)) == []
  {
  }

  /** `end_time` of laps with and without a length. */
  lemma EndTimeExamples()
    ensures EndTime(Lap(Some(10), 10, [])) == 20
    ensures EndTime(Lap(None, 0, [Some(10), Some(20)])) == 20
    ensures EndTime(Lap(None, 0, [Some(10), None])) == 10
    ensures EndTime(Lap(None, 0, [])) == 0
  {
  }

  // ---------------------------------------------------------------------
  // Marks at session time 0, as `refresh_laps` tests them
  // ---------------------------------------------------------------------

  /** Python truthiness of a slot: `if s` treats a mark at time 0 like a
      missing one. */
  function Truthy(m: Option<int>): (r: Option<int>)
    ensures r.Some? <==> m.Some? && m.value != 0
    ensures r.Some? ==> r == m
  {
    if m.Some? && m.value != 0 then m else None
  }

  /** The groups after `if s`: every slot holding a mark at time 0 is
      treated as missing. */
  function TruthyGroups(groups: seq<seq<Option<int>>>): (r: seq<seq<Option<int>>>)
    ensures |r| == |groups|
    ensures forall i :: 0 <= i < |groups| ==> |r[i]| == |groups[i]|
    ensures forall i, j :: 0 <= i < |groups| && 0 <= j < |groups[i]| ==> r[i][j] == Truthy(groups[i][j])
  {
    seq(|groups|, i requires 0 <= i < |groups| =>
      seq(|groups[i]|, j requires 0 <= j < |groups[i]| => Truthy(groups[i][j])))
  }

  /** Some slot of `g` holds a mark. */
  predicate HasMark(g: seq<Option<int>>) {
    exists j :: 0 <= j < |g| && g[j].Some?
  }

  /** Group `i` has no closing mark, so its lap gets no time. */
  ghost predicate LengthLost(groups: seq<seq<Option<int>>>, i: int) {
    0 <= i < |groups| && |groups[i]| > 0 && groups[i][|groups[i]| - 1].None?
  }

  /** The loop of `refresh_laps` as written. `make_relative` subtracts the
      sum of the times of the laps built so far, so once a lap has no time
      (`lost`) the next mark raises `TypeError`; a group without any mark
      never calls it. */
  function BuildLapsAsWritten(groups: seq<seq<Option<int>>>, offset: int, lost: bool): (r: Result<seq<Lap>>)
    requires forall i :: 0 <= i < |groups| ==> |groups[i]| > 0
    ensures r.Failure? ==> r.error == TypeError
    ensures r.Success? ==> r.value == BuildLaps(groups, offset)
    ensures r.Failure? <==> MarkAfterLost(groups, lost)
    decreases |groups|
  {
    if |groups| == 0 then Success([])
    else if lost && HasMark(groups[0]) then Failure(TypeError)
    else
      var lap := LapFromGroup(groups[0], offset);
      var rest := BuildLapsAsWritten(groups[1..], offset + lap.length.GetOr(0), lost || lap.length.None?);
      assert LengthLost(groups, 0) <==> lap.length.None?;
      LostStep(groups, lost);
      match rest
      case Failure(e) => Failure(e)
      case Success(laps) => Success([lap] + laps)
  }

  /** Some mark of `groups` comes after a lap without a time, or after
      an earlier lap when one before `groups` already had none. */
  ghost predicate MarkAfterLost(groups: seq<seq<Option<int>>>, lost: bool) {
    exists j :: 0 <= j < |groups| && HasMark(groups[j]) &&
      (lost || exists i :: 0 <= i < j && LengthLost(groups, i))
  }

  /** Unrolling `MarkAfterLost` by one group: the first group's marks
      meet a lost time only from before, the rest may also meet the first
      group's. */
  lemma LostStep(groups: seq<seq<Option<int>>>, lost: bool)
    requires |groups| > 0 && forall i :: 0 <= i < |groups| ==> |groups[i]| > 0
    ensures MarkAfterLost(groups, lost) <==>
      (lost && HasMark(groups[0])) || MarkAfterLost(groups[1..], lost || LengthLost(groups, 0))
  {
    LostShift(groups, lost);
  }

  /** A mark after the first group meets a lap without a time exactly when,
      in the groups after the first, it meets one there or the first lap
      already had none. */
  lemma LostShift(groups: seq<seq<Option<int>>>, lost: bool)
    requires |groups| > 0 && forall i :: 0 <= i < |groups| ==> |groups[i]| > 0
    ensures MarkAfterLost(groups[1..], lost || LengthLost(groups, 0))
        <==> exists j :: 1 <= j < |groups| && HasMark(groups[j]) &&
               (lost || exists i :: 0 <= i < j && LengthLost(groups, i))
  {
    if MarkAfterLost(groups[1..], lost || LengthLost(groups, 0)) {
      LostShiftDown(groups, lost);
    }
    if exists j :: 1 <= j < |groups| && HasMark(groups[j]) &&
         (lost || exists i :: 0 <= i < j && LengthLost(groups, i)) {
      var j :| 1 <= j < |groups| && HasMark(groups[j]) &&
         (lost || exists i :: 0 <= i < j && LengthLost(groups, i));
      LostShiftUp(groups, lost, j);
    }
  }

  lemma LostShiftDown(groups: seq<seq<Option<int>>>, lost: bool)
    requires |groups| > 0 && MarkAfterLost(groups[1..], lost || LengthLost(groups, 0))
    ensures exists j :: 1 <= j < |groups| && HasMark(groups[j]) && (lost || exists i :: 0 <= i < j && LengthLost(groups, i))
  {
    var tail := groups[1..];
    var j :| 0 <= j < |tail| && HasMark(tail[j]) &&
       ((lost || LengthLost(groups, 0)) || exists i :: 0 <= i < j && LengthLost(tail, i));
    assert tail[j] == groups[j + 1];
    if !lost && !LengthLost(groups, 0) {
      var i :| 0 <= i < j && LengthLost(tail, i);
      assert tail[i] == groups[i + 1];
      assert LengthLost(groups, i + 1);
    }
  }

  lemma LostShiftUp(groups: seq<seq<Option<int>>>, lost: bool, j: int)
    requires 1 <= j < |groups| && HasMark(groups[j])
    requires lost || exists i :: 0 <= i < j && LengthLost(groups, i)
    ensures MarkAfterLost(groups[1..], lost || LengthLost(groups, 0))
  {
    var tail := groups[1..];
    assert tail[j - 1] == groups[j];
    if !lost {
      var i :| 0 <= i < j && LengthLost(groups, i);
      if i > 0 {
        assert tail[i - 1] == groups[i];
        assert LengthLost(tail, i - 1);
      }
    }
  }

  /** `refresh_laps` as written: every slot goes through `if s`, so a mark
      at time 0 becomes a missing sector or a missing lap time, and a lap
      without a time makes the next mark's `make_relative` raise
      `TypeError`. */
  function DeriveLapsAsWritten(markers: seq<int>, numSectors: Option<nat>): (r: Result<seq<Lap>>)
    ensures numSectors.None? ==> r == Success([])
    ensures r.Failure? ==> r.error == TypeError
    ensures r.Success? && numSectors.Some? ==>
      |r.value| == CeilDiv(|markers|, numSectors.value + 1)
  {
    match numSectors
    case None => Success([])
    case Some(k) => BuildLapsAsWritten(TruthyGroups(Grouper(markers, k + 1)), 0, false)
  }

  /** The closing mark of lap `i`, with `k` sectors per lap, is at time 0. */
  ghost predicate ZeroClosesLap(markers: seq<int>, k: nat, i: nat) {
    i * (k + 1) + k < |markers| && markers[i * (k + 1) + k] == 0
  }

  /** Slot `m` of lap `j`, with `k` sectors per lap, holds a mark that is
      not at time 0. */
  ghost predicate NonZeroMark(markers: seq<int>, k: nat, j: nat, m: nat) {
    m <= k && j * (k + 1) + m < |markers| && markers[j * (k + 1) + m] != 0
  }

  /** The as-written derivation raises `TypeError` exactly when a lap's
      closing mark is at time 0 and a later lap holds a mark that is not. */
  lemma AsWrittenTypeError(markers: seq<int>, k: nat)
    ensures DeriveLapsAsWritten(markers, Some(k)).Failure? <==>
      exists i: nat, j: nat, m: nat :: i < j && ZeroClosesLap(markers, k, i) && NonZeroMark(markers, k, j, m)
  {
    var tested := TruthyGroups(Grouper(markers, k + 1));
    if DeriveLapsAsWritten(markers, Some(k)).Failure? {
      var j, i :| 0 <= j < |tested| && HasMark(tested[j]) && 0 <= i < j && LengthLost(tested, i);
      var m :| 0 <= m < |tested[j]| && tested[j][m].Some?;
      LostMarkIsZero(markers, k, i, j, m);
    }
    if exists i: nat, j: nat, m: nat :: i < j && ZeroClosesLap(markers, k, i) && NonZeroMark(markers, k, j, m) {
      var i: nat, j: nat, m: nat :| i < j && ZeroClosesLap(markers, k, i) && NonZeroMark(markers, k, j, m);
      ZeroLosesMark(markers, k, i, j, m);
    }
  }

  /** Slot `m` of tested group `i` is marker `i * n + m` when that marker
      exists and is not 0, and missing otherwise. */
  lemma TestedSlot(markers: seq<int>, n: nat, i: nat, m: nat)
    requires n > 0 && i < |Grouper(markers, n)| && m < n
    ensures TruthyGroups(Grouper(markers, n))[i][m] ==
      if i * n + m < |markers| && markers[i * n + m] != 0 then Some(markers[i * n + m]) else None
  {
    GrouperAt(markers, n, i);
  }

  /** Every slot of an earlier group comes before every slot of a later
      one. */
  lemma EarlierSlot(i: nat, j: nat, n: nat, a: nat, b: nat)
    requires i < j && a < n
    ensures i * n + a < j * n + b
  {
    MulMono(i + 1, j, n);
  }

  /** A failure of the as-written derivation names a zero closing mark and
      a later mark that is not 0. */
  lemma LostMarkIsZero(markers: seq<int>, k: nat, i: nat, j: nat, m: nat)
    requires var tested := TruthyGroups(Grouper(markers, k + 1));
      i < j < |tested| && m < |tested[j]| && tested[j][m].Some? && LengthLost(tested, i)
    ensures ZeroClosesLap(markers, k, i) && NonZeroMark(markers, k, j, m)
  {
    var n := k + 1;
    var tested := TruthyGroups(Grouper(markers, n));
    TestedSlot(markers, n, j, m);
    EarlierSlot(i, j, n, k, m);
    TestedSlot(markers, n, i, k);
    assert tested[i][k] == None;
  }

  /** A zero closing mark followed by a later mark that is not 0 makes the
      as-written derivation fail. */
  lemma ZeroLosesMark(markers: seq<int>, k: nat, i: nat, j: nat, m: nat)
    requires i < j && ZeroClosesLap(markers, k, i) && NonZeroMark(markers, k, j, m)
    ensures DeriveLapsAsWritten(markers, Some(k)).Failure?
  {
    var n := k + 1;
    var tested := TruthyGroups(Grouper(markers, n));
    GroupCount(|markers|, n, j);
    TestedSlot(markers, n, j, m);
    assert HasMark(tested[j]);
    GroupCount(|markers|, n, i);
    TestedSlot(markers, n, i, k);
    assert tested[i][k] == None;
    assert LengthLost(tested, i);
  }

  /** Without a mark at time 0 the truthiness test changes nothing and
      nothing is raised. */
  lemma AsWrittenWithoutZero(markers: seq<int>, numSectors: Option<nat>)
    requires forall i :: 0 <= i < |markers| ==> markers[i] != 0
    ensures DeriveLapsAsWritten(markers, numSectors) == Success(DeriveLaps(markers, numSectors))
  {
    if numSectors.Some? {
      var k := numSectors.value;
      var groups := Grouper(markers, k + 1);
      NoZeroNoTypeError(markers, k);
      TruthyKeepsGroups(markers, k + 1);
      assert DeriveLapsAsWritten(markers, numSectors) == BuildLapsAsWritten(groups, 0, false);
    }
  }

  /** Without a mark at time 0 nothing is raised. */
  lemma NoZeroNoTypeError(markers: seq<int>, k: nat)
    requires forall i :: 0 <= i < |markers| ==> markers[i] != 0
    ensures DeriveLapsAsWritten(markers, Some(k)).Success?
  {
    forall i: nat
      ensures !ZeroClosesLap(markers, k, i)
    {
      var c := i * (k + 1) + k;
      assert c < |markers| ==> markers[c] != 0;
    }
    AsWrittenTypeError(markers, k);
  }

  /** Without a mark at time 0 the truthiness test keeps every group. */
  lemma TruthyKeepsGroups(markers: seq<int>, n: nat)
    requires n > 0 && forall i :: 0 <= i < |markers| ==> markers[i] != 0
    ensures TruthyGroups(Grouper(markers, n)) == Grouper(markers, n)
  {
    var groups := Grouper(markers, n);
    var tested := TruthyGroups(groups);
    forall i | 0 <= i < |groups|
      ensures tested[i] == groups[i]
    {
      GrouperAt(markers, n, i);
    }
  }

  /** A marker at time 0 is lost: with one sector per lap, markers [0, 10]
      give a lap whose only sector is missing, so the laps no longer
      account for the markers. */
  lemma ZeroMarkerLost()
    ensures DeriveLapsAsWritten([0, 10], Some(1)) == Success([Lap(Some(10), 0, [None])])
    ensures Markers(DeriveLapsAsWritten([0, 10], Some(1)).value) == [10]
    ensures DeriveLaps([0, 10], Some(1)) == [Lap(Some(10), 0, [Some(0)])]
    ensures Markers(DeriveLaps([0, 10], Some(1))) == [0, 10]
  {
    var g := [Some(0), Some(10)];
    assert Grouper([0, 10], 2) == [g] by {
      CeilDivOne(2, 2);
      assert Chunk([0, 10], 0, 2) == g;
    }
    assert RelSectors([None], 0) == [None];
    assert RelSectors([Some(0)], 0) == [Some(0)];
    var tested := TruthyGroups([g]);
    assert tested[0] == [None, Some(10)];
    assert tested == [[None, Some(10)]];
    assert BuildLaps([[None, Some(10)]], 0) == [Lap(Some(10), 0, [None])];
    assert BuildLapsAsWritten([[None, Some(10)]], 0, false).Success? by {
      assert !LengthLost([[None, Some(10)]], 0);
    }
    assert BuildLaps([g], 0) == [Lap(Some(10), 0, [Some(0)])];
    assert AbsMarks(0, [None]) == [];
    assert AbsMarks(0, [Some(0)]) == [0];
  }

  /** A lap closed at time 0 loses its time, and the next lap's mark then
      raises `TypeError`: with no sectors, markers [0, 10] fail as written,
      while the corrected derivation gives two laps that account for both
      markers. */
  lemma ZeroLapMarkTypeError()
    ensures DeriveLapsAsWritten([0, 10], Some(0)) == Failure(TypeError)
    ensures |DeriveLaps([0, 10], Some(0))| == 2
    ensures Markers(DeriveLaps([0, 10], Some(0))) == [0, 10]
  {
    assert ZeroClosesLap([0, 10], 0, 0) && NonZeroMark([0, 10], 0, 1, 0);
    AsWrittenTypeError([0, 10], 0);
    assert CeilDiv(2, 1) == 2;
    MarkersRoundTrip([0, 10], 0);
  }
}
