/** The direction tables of the metadata module (`module-scripts/metadata/constants.py`):
    compass sectors, opposite headings, turn ranges and the padding of a point query. */
module Constants {

  /** The eight compass labels. */
  datatype Heading = N | NE | E | SE | S | SW | W | NW

  /** The labels in the order the tables list them. */
  const Headings: seq<Heading> := [N, NE, E, SE, S, SW, W, NW]

  /** The text of a label, as it appears in the metadata columns. */
  function Name(h: Heading): string
  {
    match h
    case N => "N" case NE => "NE" case E => "E" case SE => "SE"
    case S => "S" case SW => "SW" case W => "W" case NW => "NW"
  }

  lemma NameInjective(a: Heading, b: Heading)
    ensures Name(a) == Name(b) <==> a == b
  {
  }

  lemma HeadingsComplete(h: Heading)
    ensures h in Headings
  {
  }

  /** `HEADING_DICT`: the bounds of each sector in degrees. The entry for N is the
      three-number tuple `(337.5, 22, 5)`, where `(337.5, 22.5)` was evidently meant. */
  function HeadingDict(h: Heading): seq<real>
  {
    match h
    case N => [337.5, 22.0, 5.0]
    case NE => [22.5, 67.5]
    case E => [67.5, 112.5]
    case SE => [112.5, 157.5]
    case S => [157.5, 202.5]
    case SW => [202.5, 247.5]
    case W => [247.5, 292.5]
    case NW => [292.5, 337.5]
  }

  /** The N entry is malformed: three numbers, its second is not 22.5. */
  lemma HeadingDictNorthMalformed()
    ensures |HeadingDict(N)| == 3 && HeadingDict(N)[1] != 22.5
  {
  }

  /** The seven other sectors are consecutive 45-degree intervals from 22.5 to 337.5. */
  lemma HeadingDictSectors()
    ensures forall k :: 1 <= k < 8 ==>
      && |HeadingDict(Headings[k])| == 2
      && HeadingDict(Headings[k])[0] == 22.5 + 45.0 * (k - 1) as real
      && HeadingDict(Headings[k])[1] == HeadingDict(Headings[k])[0] + 45.0
  {
    assert forall k :: 2 <= k < 8 ==> HeadingDict(Headings[k])[0] == HeadingDict(Headings[k - 1])[1];
  }

  /** `x` lies in the half-open sector `[lo, hi)` that `HEADING_DICT` gives a non-N label. */
  predicate InSector(h: Heading, x: real)
    requires h != N
  {
    HeadingDict(h)[0] <= x < HeadingDict(h)[1]
  }

  /** The seven half-open sectors tile `[22.5, 337.5)`: each angle there lies in exactly one. */
  lemma SectorsTile(x: real)
    requires 22.5 <= x < 337.5
    ensures exists h :: h != N && InSector(h, x)
    ensures forall a, b :: a != N && b != N && InSector(a, x) && InSector(b, x) ==> a == b
  {
    if x < 67.5 { assert InSector(NE, x); }
    else if x < 112.5 { assert InSector(E, x); }
    else if x < 157.5 { assert InSector(SE, x); }
    else if x < 202.5 { assert InSector(S, x); }
    else if x < 247.5 { assert InSector(SW, x); }
    else if x < 292.5 { assert InSector(W, x); }
    else { assert InSector(NW, x); }
  }

  /** `DIRECT_OPPOSITE_HEADING`. */
  function DirectOpposite(h: Heading): Heading
  {
    match h
    case N => S case NE => SW case E => W case SE => NW
    case S => N case SW => NE case W => E case NW => SE
  }

  /** Every label has a direct opposite, different from itself, whose opposite is the label. */
  lemma DirectOppositeInvolution(h: Heading)
    ensures DirectOpposite(DirectOpposite(h)) == h
    ensures DirectOpposite(h) != h
  {
  }

  /** `OPPOSITE_HEADING`: the two labels 135 degrees away. */
  function Opposite(h: Heading): seq<Heading>
  {
    match h
    case N => [SW, SE]
    case NE => [W, S]
    case E => [NW, SW]
    case SE => [N, W]
    case S => [NE, NW]
    case SW => [E, N]
    case W => [NE, SE]
    case NW => [S, E]
  }

  /** Being generally opposite is a symmetric relation. */
  lemma OppositeSymmetric(a: Heading, b: Heading)
    ensures b in Opposite(a) <==> a in Opposite(b)
  {
  }

  /** Each entry holds two labels, neither the label itself nor its direct opposite. */
  lemma OppositeEntries(h: Heading)
    ensures |Opposite(h)| == 2 && Opposite(h)[0] != Opposite(h)[1]
    ensures h !in Opposite(h) && DirectOpposite(h) !in Opposite(h)
  {
  }

  /** The direct-opposite pairs `utils.py` tests for, one per axis. */
  const DirectlyOppositePairs: seq<(Heading, Heading)> := [(N, S), (NE, SW), (E, W), (SE, NW)]

  /** The general-opposite pairs `utils.py` tests for. */
  const GenerallyOppositePairs: seq<(Heading, Heading)> := [
    (N, SW), (N, SE), (NE, W), (NE, S), (E, NW), (E, SW), (SE, N), (SE, W),
    (S, NE), (S, NW), (SW, E), (SW, N), (W, NE), (W, SE), (NW, S), (NW, E)
  ]

  /** The pairs of `OPPOSITE_HEADING`, entry by entry in table order. */
  function OppositePairs(hs: seq<Heading>): (ps: seq<(Heading, Heading)>)
    ensures |ps| == 2 * |hs|
  {
    if hs == [] then []
    else [(hs[0], Opposite(hs[0])[0]), (hs[0], Opposite(hs[0])[1])] + OppositePairs(hs[1..])
  }

  /** The hard-coded direct pairs are the table's, each axis once. */
  lemma DirectlyOppositePairsMatchTable()
    ensures forall i :: 0 <= i < |DirectlyOppositePairs| ==>
      DirectOpposite(DirectlyOppositePairs[i].0) == DirectlyOppositePairs[i].1
    ensures forall h :: (h, DirectOpposite(h)) in DirectlyOppositePairs || (DirectOpposite(h), h) in DirectlyOppositePairs
  {
  }

  /** The hard-coded general pairs are `OPPOSITE_HEADING` flattened in table order. */
  lemma GenerallyOppositePairsMatchTable()
    ensures GenerallyOppositePairs == OppositePairs(Headings)
  {
  }

  /** The turns of `TURN_RANGES`. */
  datatype Turn = Right | Left | Ahead | UTurn

  /** `TURN_RANGES`: closed intervals of degrees; `ahead` wraps round 0. */
  function TurnRanges(t: Turn): seq<(int, int)>
  {
    match t
    case Right => [(67, 135)]
    case Left => [(225, 292)]
    case Ahead => [(315, 360), (0, 45)]
    case UTurn => [(157, 202)]
  }

  predicate InTurn(t: Turn, x: int) {
    exists i :: 0 <= i < |TurnRanges(t)| && TurnRanges(t)[i].0 <= x <= TurnRanges(t)[i].1
  }

  /** No angle lies in the ranges of two different turns. */
  lemma TurnRangesDisjoint(a: Turn, b: Turn, x: int)
    requires InTurn(a, x) && InTurn(b, x)
    ensures a == b
  {
    var i :| 0 <= i < |TurnRanges(a)| && TurnRanges(a)[i].0 <= x <= TurnRanges(a)[i].1;
    var j :| 0 <= j < |TurnRanges(b)| && TurnRanges(b)[j].0 <= x <= TurnRanges(b)[j].1;
  }

  /** `POINT_RANGE`: the padding, in degrees, around a queried point. */
  const PointRange: real := 0.05
}
