/**
  The asset-allocation donut: each asset is one stroke of a circle of radius
  40 with the dash pattern "dash, gap 251". The chart takes 251 units as the
  length of the circle (2 * pi * 40 is about 251.33), so 100 percent spans
  251 units. A segment's dash is its allocation percentage times 2.51 and it
  is shifted along the circle by the sum of the earlier allocations times
  2.51, so the segments follow each other around the circle.
  The asset list beside it shows a two-letter badge and a signed change.
 */
module AssetAllocation {

  /** One row of the portfolio table. */
  datatype Asset = Asset(
    symbol: string, name: string, balance: string, value: string,
    change: real, color: string, allocation: real)

  /** Dash units per allocation percent. */
  const DashPerPercent: real := 2.51
  /**
    The gap after each dash, 251 units: at least the 251 units the chart
    takes as the circle's length, so one segment draws a single dash.
   */
  const DashGap: real := 251.0

  /** The portfolio the donut draws. */
  const Assets: seq<Asset> := [
    Asset("ETH", "Ethereum", "12.458", "$24,891.45", 5.23, "#627EEA", 45.0),
    Asset("BTC", "Bitcoin (Wrapped)", "0.842", "$18,524.80", 2.14, "#F7931A", 33.0),
    Asset("AAVE", "Aave", "245.12", "$8,175.24", -1.87, "#B6509E", 15.0),
    Asset("UNI", "Uniswap", "892.50", "$3,891.12", 8.42, "#FF007A", 7.0)
  ]

  /** Every allocation is non-negative. */
  predicate NonNegativeAllocations(assets: seq<Asset>) {
    forall i :: 0 <= i < |assets| ==> assets[i].allocation >= 0.0
  }

  /** Sum of the allocations, folded from the left (`reduce((sum, a) => sum + a.allocation, 0)`). */
  function TotalAllocation(assets: seq<Asset>): (total: real)
    ensures NonNegativeAllocations(assets) ==> total >= 0.0
  {
    if assets == [] then 0.0
    else TotalAllocation(assets[..|assets| - 1]) + assets[|assets| - 1].allocation
  }

  /** The allocations of the assets before position `i`. */
  function PreviousOffset(assets: seq<Asset>, i: nat): (offset: real)
    requires i <= |assets|
    ensures i == 0 ==> offset == 0.0
    ensures NonNegativeAllocations(assets) ==> offset >= 0.0
  {
    assert NonNegativeAllocations(assets) ==> NonNegativeAllocations(assets[..i]);
    TotalAllocation(assets[..i])
  }

  /** The offsets are the prefix sums: 0 first, then each adds the previous asset's allocation. */
  lemma PreviousOffsetStep(assets: seq<Asset>, i: nat)
    requires i < |assets|
    ensures PreviousOffset(assets, 0) == 0.0
    ensures PreviousOffset(assets, i + 1) == PreviousOffset(assets, i) + assets[i].allocation
  {
    assert assets[..0] == [];
    assert assets[..i + 1][..i] == assets[..i];
  }

  /** With non-negative allocations the offsets never decrease along the list. */
  lemma {:induction false} PreviousOffsetMonotone(assets: seq<Asset>, i: nat, j: nat)
    requires NonNegativeAllocations(assets)
    requires i <= j <= |assets|
    ensures PreviousOffset(assets, i) <= PreviousOffset(assets, j)
    decreases j - i
  {
    if i < j {
      PreviousOffsetStep(assets, i);
      PreviousOffsetMonotone(assets, i + 1, j);
    }
  }

  /** The last offset is the total allocation. */
  lemma PreviousOffsetOfAll(assets: seq<Asset>)
    ensures PreviousOffset(assets, |assets|) == TotalAllocation(assets)
  {
    assert assets[..|assets|] == assets;
  }

  /**
    A donut segment: the two numbers of `strokeDasharray` (the dash and the
    gap after it) and `strokeDashoffset`.
   */
  datatype Segment = Segment(dash: real, gap: real, offset: real)

  /** Where a segment starts and ends along the circle, in dash units. */
  function SegmentStart(s: Segment): real { -s.offset }
  function SegmentEnd(s: Segment): real { -s.offset + s.dash }

  /**
    The segment drawn for the asset at position `i`. When the allocations
    are non-negative and total 100, the dash lies within the first 251 units
    of the circle, so the 251-unit gap behind it hides the rest of the pattern.
   */
  function SegmentAt(assets: seq<Asset>, i: nat): (s: Segment)
    requires i < |assets|
    ensures s.gap == DashGap
    ensures NonNegativeAllocations(assets) && TotalAllocation(assets) == 100.0 ==>
              0.0 <= SegmentStart(s) <= SegmentEnd(s) <= DashGap
  {
    var p, q := PreviousOffset(assets, i), PreviousOffset(assets, i + 1);
    var s := Segment(assets[i].allocation * DashPerPercent, DashGap, -p * DashPerPercent);
    PreviousOffsetStep(assets, i);
    PreviousOffsetOfAll(assets);
    assert SegmentEnd(s) == q * DashPerPercent;
    if NonNegativeAllocations(assets) then
      PreviousOffsetMonotone(assets, 0, i);
      PreviousOffsetMonotone(assets, i, i + 1);
      PreviousOffsetMonotone(assets, i + 1, |assets|);
      s
    else
      s
  }

  /** Both dash length and start are the allocation figures scaled by 2.51. */
  lemma SegmentIsProportional(assets: seq<Asset>, i: nat)
    requires i < |assets|
    ensures SegmentStart(SegmentAt(assets, i)) == PreviousOffset(assets, i) * DashPerPercent
    ensures SegmentEnd(SegmentAt(assets, i)) == PreviousOffset(assets, i + 1) * DashPerPercent
  {
    PreviousOffsetStep(assets, i);
    var p := PreviousOffset(assets, i);
    var a := assets[i].allocation;
    assert (p + a) * DashPerPercent == p * DashPerPercent + a * DashPerPercent;
  }

  /** Consecutive segments meet: each ends exactly where the next starts, with no gap or overlap. */
  lemma SegmentsAreContiguous(assets: seq<Asset>, i: nat)
    requires i + 1 < |assets|
    ensures SegmentEnd(SegmentAt(assets, i)) == SegmentStart(SegmentAt(assets, i + 1))
  {
    SegmentIsProportional(assets, i);
  }

  /** With non-negative allocations the segments start in order around the circle. */
  lemma SegmentStartsAreOrdered(assets: seq<Asset>, i: nat, j: nat)
    requires NonNegativeAllocations(assets)
    requires i <= j < |assets|
    ensures SegmentStart(SegmentAt(assets, i)) <= SegmentStart(SegmentAt(assets, j))
  {
    PreviousOffsetMonotone(assets, i, j);
    var p, q := PreviousOffset(assets, i), PreviousOffset(assets, j);
    assert q * DashPerPercent - p * DashPerPercent == (q - p) * DashPerPercent;
  }

  /**
    When the allocations sum to 100 the segments span the 251 units the chart
    takes as the circle's length (the true length 2 * pi * 40 is about 251.33).
   */
  lemma LastSegmentClosesCircle(assets: seq<Asset>)
    requires |assets| > 0 && TotalAllocation(assets) == 100.0
    ensures SegmentStart(SegmentAt(assets, 0)) == 0.0
    ensures SegmentEnd(SegmentAt(assets, |assets| - 1)) == DashGap
  {
    PreviousOffsetStep(assets, 0);
    SegmentIsProportional(assets, |assets| - 1);
    PreviousOffsetOfAll(assets);
  }

  /** The portfolio's allocations 45 + 33 + 15 + 7 span all 251 units. */
  lemma PortfolioFillsCircle()
    ensures NonNegativeAllocations(Assets)
    ensures TotalAllocation(Assets) == 100.0
    ensures SegmentEnd(SegmentAt(Assets, |Assets| - 1)) == DashGap
  {
    var a := Assets;
    PreviousOffsetStep(a, 0);
    PreviousOffsetStep(a, 1);
    PreviousOffsetStep(a, 2);
    PreviousOffsetStep(a, 3);
    PreviousOffsetOfAll(a);
    assert PreviousOffset(a, 4) == 100.0;
    LastSegmentClosesCircle(a);
  }

  /** The token badge: the first two characters of the symbol (`symbol.slice(0, 2)`). */
  function Badge(symbol: string): (b: string)
    ensures |b| == if |symbol| < 2 then |symbol| else 2
    ensures symbol == b + symbol[|b|..]
  {
    if |symbol| <= 2 then symbol else symbol[..2]
  }

  /** The change cell: a sign prefix and a colour class, decided by `change >= 0`. */
  datatype ChangeStyle = ChangeStyle(prefix: string, cls: string)

  function ChangeStyleOf(change: real): (s: ChangeStyle)
    ensures s.prefix == "+" <==> change >= 0.0
    ensures s.prefix == "" <==> change < 0.0
    ensures s.cls == "text-bio-emerald" <==> change >= 0.0
    ensures s.cls == "text-destructive" <==> change < 0.0
  {
    if change >= 0.0 then ChangeStyle("+", "text-bio-emerald") else ChangeStyle("", "text-destructive")
  }

  /**
    The change text: prefix, the number as JavaScript writes it (`numberText`,
    not modelled), and a percent sign.
   */
  function ChangeText(change: real, numberText: string): (t: string)
    ensures change >= 0.0 ==> t == "+" + numberText + "%"
    ensures change < 0.0 ==> t == numberText + "%"
  {
    ChangeStyleOf(change).prefix + numberText + "%"
  }
}
