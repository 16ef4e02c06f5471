/** GPS cells, their textual ids and viewports (server/internal/grid/grid.go).
    Coordinates are reals; cell numbers are 64-bit where the source computes with parsed ids. */
module Grid {
  import opened Options
  import opened GoText

  datatype Cell = Cell(lat: int, lng: int)

  const LAT_UNIT := 0.0009
  const LNG_UNIT := 0.0011

  function Format(c: Cell): string { Itoa(c.lat) + [':'] + Itoa(c.lng) }

  function CellOf(lat: real, lng: real): Cell {
    Cell((lat / LAT_UNIT).Floor, (lng / LNG_UNIT).Floor)
  }

  function ToGridID(lat: real, lng: real): string { Format(CellOf(lat, lng)) }

  /** An id names the cell of a point by two numbers, latitude first, and a cell is half-open on both axes. */
  lemma IDNamesCell(lat: real, lng: real, i: int, j: int)
    requires i as real * 0.0009 <= lat < (i + 1) as real * 0.0009
    requires j as real * 0.0011 <= lng < (j + 1) as real * 0.0011
    ensures CellOf(lat, lng) == Cell(i, j) && ToGridID(lat, lng) == Itoa(i) + ":" + Itoa(j)
  {
    hide Itoa;
    FloorBetween(lat, LAT_UNIT, i);
    FloorBetween(lng, LNG_UNIT, j);
  }

  lemma FloorBetween(x: real, u: real, k: int)
    requires u > 0.0 && k as real * u <= x < (k + 1) as real * u
    ensures (x / u).Floor == k
  {
    var q := x / u;
    assert q * u == x;
    Factor(q - k as real, u);
    Factor((k + 1) as real - q, u);
    assert (q - k as real) * u == x - k as real * u && ((k + 1) as real - q) * u == (k + 1) as real * u - x;
  }

  lemma Factor(x: real, u: real)
    requires u > 0.0
    ensures (x * u >= 0.0 <==> x >= 0.0) && (x * u > 0.0 <==> x > 0.0)
  {
  }

  /** SplitN at the first colon, then Atoi on both halves. */
  function ParseCell(id: string): Option<Cell> {
    var i := Find(id, ':');
    if i == |id| then None
    else
      match (Atoi(id[..i]), Atoi(id[i + 1..]))
      case (Some(lat), Some(lng)) => Some(Cell(lat, lng))
      case _ => None
  }

  /** An id parses exactly when it is two numbers with a colon in between, as Atoi reads them. */
  lemma ParsesExactly(id: string, c: Cell)
    ensures ParseCell(id) == Some(c) <==>
            exists a, b :: ':' !in a && id == a + ":" + b && Atoi(a) == Some(c.lat) && Atoi(b) == Some(c.lng)
  {
    hide Atoi, Find;
    if ParseCell(id) == Some(c) {
      var i := Find(id, ':');
      FindIs(id, ':');
      assert id == id[..i] + ":" + id[i + 1..];
    }
    forall a, b | ':' !in a && id == a + ":" + b && Atoi(a) == Some(c.lat) && Atoi(b) == Some(c.lng)
      ensures ParseCell(id) == Some(c)
    {
      FindAfterPrefix(a, ':', b);
      assert a + ":" + b == a + [':'] + b && id[..|a|] == a && id[|a| + 1..] == b;
    }
  }

  lemma FindIs(s: string, c: char)
    ensures var i := Find(s, c); i <= |s| && c !in s[..i] && (i < |s| ==> s[i] == c)
  {
  }

  predicate InRange(c: Cell) { IsInt64(c.lat) && IsInt64(c.lng) }

  lemma FormatSplits(c: Cell)
    ensures Find(Format(c), ':') == |Itoa(c.lat)|
    ensures Format(c)[..|Itoa(c.lat)|] == Itoa(c.lat) && Format(c)[|Itoa(c.lat)| + 1..] == Itoa(c.lng)
  {
    if ':' in Itoa(c.lat) {
      ItoaChars(c.lat, ':');
    }
    FindAfterPrefix(Itoa(c.lat), ':', Itoa(c.lng));
  }

  /** Parsing undoes printing on every pair of 64-bit integers, negatives included, and on no other pair. */
  lemma ParseFormat(c: Cell)
    ensures ParseCell(Format(c)) == if InRange(c) then Some(c) else None
  {
    FormatSplits(c);
    AtoiItoa(c.lat);
    AtoiItoa(c.lng);
  }

  lemma FormatInjective(c: Cell, d: Cell)
    requires Format(c) == Format(d)
    ensures c == d
  {
    FormatSplits(c);
    FormatSplits(d);
    ItoaInjective(c.lat, d.lat);
    ItoaInjective(c.lng, d.lng);
  }

  lemma Cancel(x: real, u: real)
    requires u > 0.0
    ensures x * u / u == x
  {
    var q := x * u / u;
    assert q * u == x * u;
    assert (q - x) * u == 0.0;
  }

  function Center(c: Cell): (real, real) {
    ((c.lat as real + 0.5) * LAT_UNIT, (c.lng as real + 0.5) * LNG_UNIT)
  }

  lemma CenterInCell(c: Cell)
    ensures CellOf(Center(c).0, Center(c).1) == c
  {
    Cancel(c.lat as real + 0.5, LAT_UNIT);
    Cancel(c.lng as real + 0.5, LNG_UNIT);
  }

  function GridIDToCenter(id: string): Option<(real, real)> {
    var c := ParseCell(id);
    if c.None? then None else Some(Center(c.value))
  }

  /** The centre is halfway between the edges of its cell on both axes. */
  lemma CenterIsHalfway(id: string)
    requires GridIDToCenter(id).Some?
    ensures var (lat, lng), c := GridIDToCenter(id).value, ParseCell(id).value;
            && lat - c.lat as real * 0.0009 == (c.lat + 1) as real * 0.0009 - lat
            && lng - c.lng as real * 0.0011 == (c.lng + 1) as real * 0.0011 - lng
  {
  }

  /** The centre of a cell lies in that cell, so converting back prints the canonical id;
      it is the very id given whenever that was printed from 64-bit numbers. */
  lemma CenterMapsBack(id: string)
    requires GridIDToCenter(id).Some?
    ensures var (lat, lng) := GridIDToCenter(id).value;
            && ToGridID(lat, lng) == Format(ParseCell(id).value)
            && forall c :: InRange(c) && id == Format(c) ==> ToGridID(lat, lng) == id
  {
    CenterInCell(ParseCell(id).value);
    forall c | InRange(c) && id == Format(c) ensures c == ParseCell(id).value {
      ParseFormat(c);
    }
  }

  // ---- neighbours ----

  /** The i-th offset in the order of the nested loops, which skip the centre of the three-by-three block. */
  function Offset(i: nat): (d: (int, int))
    requires i < 8
    ensures -1 <= d.0 <= 1 && -1 <= d.1 <= 1 && d != (0, 0)
  {
    var k := if i < 4 then i else i + 1;
    (k / 3 - 1, k % 3 - 1)
  }

  function Shift(c: Cell, dlat: int, dlng: int): Cell {
    Cell(Wrap64(c.lat + dlat), Wrap64(c.lng + dlng))
  }

  function NeighborCells(c: Cell): (r: seq<Cell>)
    ensures |r| == 8
    ensures forall i :: 0 <= i < 8 ==> r[i] == Shift(c, Offset(i).0, Offset(i).1)
  {
    seq(8, i requires 0 <= i < 8 => Shift(c, Offset(i).0, Offset(i).1))
  }

  function NeighborIDs(id: string): (r: Option<seq<string>>)
    ensures r.Some? ==> |r.value| == 8
  {
    var c := ParseCell(id);
    if c.None? then None else Some(Formats(NeighborCells(c.value)))
  }

  /** How many neighbours precede the one at this offset in loop order. */
  function OffsetIndex(dlat: int, dlng: int): (i: nat)
    requires -1 <= dlat <= 1 && -1 <= dlng <= 2
    ensures i <= 8
    ensures dlng <= 1 && (dlat, dlng) != (0, 0) ==> i < 8 && Offset(i) == (dlat, dlng)
  {
    3 * (dlat + 1) + (dlng + 1) - if dlat > 0 || (dlat == 0 && dlng > 0) then 1 else 0
  }

  lemma NextNeighbor(c: Cell, dlat: int, dlng: int)
    requires -1 <= dlat <= 1 && -1 <= dlng <= 1 && (dlat, dlng) != (0, 0)
    ensures OffsetIndex(dlat, dlng) < 8
    ensures Formats(NeighborCells(c)[..OffsetIndex(dlat, dlng)]) + [Format(Shift(c, dlat, dlng))]
            == Formats(NeighborCells(c)[..OffsetIndex(dlat, dlng) + 1])
  {
    var i := OffsetIndex(dlat, dlng);
    assert NeighborCells(c)[..i + 1] == NeighborCells(c)[..i] + [Shift(c, dlat, dlng)];
  }

  method GetNeighbors8(id: string) returns (r: Option<seq<string>>)
    ensures r == NeighborIDs(id)
  {
    hide ParseCell, Format, Shift;
    var parsed := ParseCell(id);
    if parsed.None? { return None; }
    var c := parsed.value;
    var neighbors: seq<string> := [];
    var dlat := -1;
    while dlat <= 1
      invariant -1 <= dlat <= 2
      invariant neighbors == Formats(NeighborCells(c)[..if dlat == 2 then 8 else OffsetIndex(dlat, -1)])
    {
      var dlng := -1;
      while dlng <= 1
        invariant -1 <= dlng <= 2
        invariant neighbors == Formats(NeighborCells(c)[..OffsetIndex(dlat, dlng)])
      {
        if !(dlat == 0 && dlng == 0) {
          NextNeighbor(c, dlat, dlng);
          neighbors := neighbors + [Format(Shift(c, dlat, dlng))];
        }
        dlng := dlng + 1;
      }
      dlat := dlat + 1;
    }
    assert NeighborCells(c)[..8] == NeighborCells(c);
    return Some(neighbors);
  }

  lemma ShiftsDiffer(c: Cell, a: int, b: int, x: int, y: int)
    requires -1 <= a <= 1 && -1 <= b <= 1 && -1 <= x <= 1 && -1 <= y <= 1 && (a, b) != (x, y)
    ensures Shift(c, a, b) != Shift(c, x, y)
  {
    if a != x {
      WrapSeparates(c.lat + a, c.lat + x);
    } else {
      WrapSeparates(c.lng + b, c.lng + y);
    }
  }

  /** The eight neighbours are eight different cells, none of them the cell itself, and every cell one step away in
      any direction is among them. */
  lemma NeighborsExact(c: Cell)
    requires InRange(c)
    ensures forall i, j :: 0 <= i < j < 8 ==> NeighborCells(c)[i] != NeighborCells(c)[j]
    ensures c !in NeighborCells(c)
    ensures forall a, b :: -1 <= a <= 1 && -1 <= b <= 1 && (a, b) != (0, 0) ==> Shift(c, a, b) in NeighborCells(c)
  {
    hide Shift;
    var r := NeighborCells(c);
    forall i, j | 0 <= i < j < 8 ensures r[i] != r[j] {
      ShiftsDiffer(c, Offset(i).0, Offset(i).1, Offset(j).0, Offset(j).1);
    }
    forall i | 0 <= i < 8 ensures r[i] != Shift(c, 0, 0) {
      ShiftsDiffer(c, Offset(i).0, Offset(i).1, 0, 0);
    }
    ShiftNothing(c);
    forall a, b | -1 <= a <= 1 && -1 <= b <= 1 && (a, b) != (0, 0) ensures Shift(c, a, b) in r {
      var k := 3 * (a + 1) + b + 1;
      var i := if k < 4 then k else k - 1;
      assert Offset(i) == (a, b);
      assert r[i] == Shift(c, a, b);
    }
  }

  /** Their order, which a random draw refers to: row by row from the south-west, each number wrapping at 64 bits. */
  lemma NeighborsInOrder(id: string)
    requires ParseCell(id).Some?
    ensures var c := ParseCell(id).value;
            var (s, n, w, e) := (Wrap64(c.lat - 1), Wrap64(c.lat + 1), Wrap64(c.lng - 1), Wrap64(c.lng + 1));
            NeighborIDs(id) == Some(Formats([Cell(s, w), Cell(s, c.lng), Cell(s, e), Cell(c.lat, w), Cell(c.lat, e),
                                             Cell(n, w), Cell(n, c.lng), Cell(n, e)]))
  {
    hide Wrap64, ParseCell;
    var c := ParseCell(id).value;
    ParsedInRange(id);
    ShiftRows(c);
    assert NeighborCells(c) == [Shift(c, -1, -1), Shift(c, -1, 0), Shift(c, -1, 1), Shift(c, 0, -1), Shift(c, 0, 1),
                                Shift(c, 1, -1), Shift(c, 1, 0), Shift(c, 1, 1)];
  }

  lemma ParsedInRange(id: string)
    ensures ParseCell(id).Some? ==> InRange(ParseCell(id).value)
  {
  }

  lemma ShiftRows(c: Cell)
    requires InRange(c)
    ensures Wrap64(c.lat + 0) == c.lat && Wrap64(c.lng + 0) == c.lng
  {
  }

  lemma ShiftNothing(c: Cell)
    requires InRange(c)
    ensures Shift(c, 0, 0) == c
  {
  }

  // ---- viewports ----

  function Row(lat: int, lo: int, hi: int): seq<Cell>
    decreases hi - lo
  {
    if lo > hi then [] else Row(lat, lo, hi - 1) + [Cell(lat, hi)]
  }

  function Block(latLo: int, latHi: int, lngLo: int, lngHi: int): seq<Cell>
    decreases latHi - latLo
  {
    if latLo > latHi then [] else Block(latLo, latHi - 1, lngLo, lngHi) + Row(latHi, lngLo, lngHi)
  }

  function Formats(cells: seq<Cell>): (ids: seq<string>)
    ensures |ids| == |cells| && forall i :: 0 <= i < |ids| ==> ids[i] == Format(cells[i])
  {
    seq(|cells|, i requires 0 <= i < |cells| => Format(cells[i]))
  }

  function ViewportCells(neLat: real, neLng: real, swLat: real, swLng: real): seq<Cell> {
    var sw, ne := CellOf(swLat, swLng), CellOf(neLat, neLng);
    Block(sw.lat, ne.lat, sw.lng, ne.lng)
  }

  /** How many rows and columns the box asks for; neither is positive when that axis is inverted. */
  function Extent(neLat: real, neLng: real, swLat: real, swLng: real): (int, int) {
    var sw, ne := CellOf(swLat, swLng), CellOf(neLat, neLng);
    (ne.lat - sw.lat + 1, ne.lng - sw.lng + 1)
  }

  /** The largest capacity `make([]string, 0, n)` accepts on a 64-bit machine: 2^48 bytes of 16-byte headers. */
  const MAX_CAPACITY := 0x1000_0000_0000

  /** The preallocation does not panic: its capacity, the 64-bit product, is neither negative nor too large. */
  predicate Preallocates(neLat: real, neLng: real, swLat: real, swLng: real) {
    var (rows, columns) := Extent(neLat, neLng, swLat, swLng);
    0 <= Wrap64(rows * columns) <= MAX_CAPACITY
  }

  lemma FormatsAppend(cells: seq<Cell>, c: Cell)
    ensures Formats(cells) + [Format(c)] == Formats(cells + [c])
  {
  }

  lemma BlockStep(latLo: int, lat: int, lngLo: int, lngHi: int, last: int)
    requires latLo <= lat
    requires last == lngHi || (lngLo > lngHi && last == lngLo - 1)
    ensures Block(latLo, lat - 1, lngLo, lngHi) + Row(lat, lngLo, last) == Block(latLo, lat, lngLo, lngHi)
  {
  }

  /** The nested loops over the cell numbers. */
  method ListCells(latMin: int, latMax: int, lngMin: int, lngMax: int) returns (grids: seq<string>)
    ensures grids == Formats(Block(latMin, latMax, lngMin, lngMax))
  {
    grids := [];
    var lat := latMin;
    while lat <= latMax
      invariant latMin <= lat && (lat <= latMax + 1 || lat == latMin)
      invariant grids == Formats(Block(latMin, lat - 1, lngMin, lngMax))
    {
      var lng := lngMin;
      ghost var above := Block(latMin, lat - 1, lngMin, lngMax);
      assert above + Row(lat, lngMin, lngMin - 1) == above;
      while lng <= lngMax
        invariant lngMin <= lng && (lng <= lngMax + 1 || lng == lngMin)
        invariant grids == Formats(above + Row(lat, lngMin, lng - 1))
      {
        FormatsAppend(above + Row(lat, lngMin, lng - 1), Cell(lat, lng));
        assert above + Row(lat, lngMin, lng - 1) + [Cell(lat, lng)] == above + Row(lat, lngMin, lng);
        grids := grids + [Format(Cell(lat, lng))];
        lng := lng + 1;
      }
      BlockStep(latMin, lat, lngMin, lngMax, lng - 1);
      lat := lat + 1;
    }
  }

  method GetGridsInViewport(neLat: real, neLng: real, swLat: real, swLng: real) returns (r: Option<seq<string>>)
    ensures r.Some? <==> Preallocates(neLat, neLng, swLat, swLng)
    ensures r.Some? ==> r.value == Formats(ViewportCells(neLat, neLng, swLat, swLng))
  {
    var latMin, latMax := (swLat / LAT_UNIT).Floor, (neLat / LAT_UNIT).Floor;
    var lngMin, lngMax := (swLng / LNG_UNIT).Floor, (neLng / LNG_UNIT).Floor;
    WrapMultiplies(latMax - latMin + 1, lngMax - lngMin + 1);
    var capacity := Wrap64(Wrap64(latMax - latMin + 1) * Wrap64(lngMax - lngMin + 1));
    if capacity < 0 || capacity > MAX_CAPACITY { return None; }
    var grids := ListCells(latMin, latMax, lngMin, lngMax);
    return Some(grids);
  }

  lemma {:induction false} RowExact(lat: int, lo: int, hi: int)
    ensures forall c :: c in Row(lat, lo, hi) <==> c.lat == lat && lo <= c.lng <= hi
    ensures forall i, j :: 0 <= i < j < |Row(lat, lo, hi)| ==> Row(lat, lo, hi)[i] != Row(lat, lo, hi)[j]
    decreases hi - lo
  {
    if lo <= hi {
      RowExact(lat, lo, hi - 1);
    }
  }

  /** The block is listed from south to north, each row from west to east. */
  predicate Earlier(c: Cell, d: Cell) { c.lat < d.lat || (c.lat == d.lat && c.lng < d.lng) }

  lemma {:induction false} RowInOrder(lat: int, lo: int, hi: int)
    ensures forall i, j :: 0 <= i < j < |Row(lat, lo, hi)| ==> Earlier(Row(lat, lo, hi)[i], Row(lat, lo, hi)[j])
    decreases hi - lo
  {
    if lo <= hi {
      var init := Row(lat, lo, hi - 1);
      RowInOrder(lat, lo, hi - 1);
      RowExact(lat, lo, hi - 1);
      assert forall i :: 0 <= i < |init| ==> init[i] in init;
    }
  }

  lemma {:induction false} BlockInOrder(latLo: int, latHi: int, lngLo: int, lngHi: int)
    ensures var b := Block(latLo, latHi, lngLo, lngHi);
            forall i, j :: 0 <= i < j < |b| ==> b[i].lat < b[j].lat || (b[i].lat == b[j].lat && b[i].lng < b[j].lng)
    decreases latHi - latLo
  {
    if latLo <= latHi {
      var init, last := Block(latLo, latHi - 1, lngLo, lngHi), Row(latHi, lngLo, lngHi);
      BlockInOrder(latLo, latHi - 1, lngLo, lngHi);
      BlockExact(latLo, latHi - 1, lngLo, lngHi);
      RowInOrder(latHi, lngLo, lngHi);
      RowExact(latHi, lngLo, lngHi);
      assert forall i :: 0 <= i < |init| ==> init[i] in init;
      assert forall i :: 0 <= i < |last| ==> last[i] in last;
    }
  }

  lemma {:induction false} RowSize(lat: int, lo: int, hi: int)
    ensures |Row(lat, lo, hi)| == if lo <= hi then hi - lo + 1 else 0
    decreases hi - lo
  {
    if lo <= hi {
      RowSize(lat, lo, hi - 1);
    }
  }

  lemma {:induction false} BlockSize(latLo: int, latHi: int, lngLo: int, lngHi: int)
    requires lngLo <= lngHi
    ensures |Block(latLo, latHi, lngLo, lngHi)|
            == if latLo <= latHi then (latHi - latLo + 1) * (lngHi - lngLo + 1) else 0
    decreases latHi - latLo
  {
    if latLo <= latHi {
      BlockSize(latLo, latHi - 1, lngLo, lngHi);
      RowSize(latHi, lngLo, lngHi);
      assert (latHi - latLo) * (lngHi - lngLo + 1) + (lngHi - lngLo + 1) == (latHi - latLo + 1) * (lngHi - lngLo + 1);
    }
  }

  lemma {:induction false} BlockExact(latLo: int, latHi: int, lngLo: int, lngHi: int)
    ensures var b := Block(latLo, latHi, lngLo, lngHi);
            && (forall c :: c in b <==> latLo <= c.lat <= latHi && lngLo <= c.lng <= lngHi)
            && (forall i, j :: 0 <= i < j < |b| ==> b[i] != b[j])
    decreases latHi - latLo
  {
    if latLo <= latHi {
      BlockExact(latLo, latHi - 1, lngLo, lngHi);
      RowExact(latHi, lngLo, lngHi);
      var above := Block(latLo, latHi - 1, lngLo, lngHi);
      var b := Block(latLo, latHi, lngLo, lngHi);
      forall i, j | 0 <= i < j < |b| ensures b[i] != b[j] {
        if i < |above| <= j {
          assert b[i] in above && b[j] in Row(latHi, lngLo, lngHi);
        }
      }
    }
  }

  /** The half-open cell meets the closed box. */
  ghost predicate Meets(c: Cell, neLat: real, neLng: real, swLat: real, swLng: real) {
    exists lat: real, lng: real ::
      swLat <= lat <= neLat && swLng <= lng <= neLng && CellOf(lat, lng) == c
  }

  lemma FloorMonotone(x: real, y: real, u: real)
    requires x <= y && u > 0.0
    ensures (x / u).Floor <= (y / u).Floor
  {
    assert x / u <= y / u;
  }

  /** A coordinate in [lo, hi] whose cell number is i exists whenever i is between the end cells. */
  lemma PointInCell(lo: real, hi: real, u: real, i: int) returns (x: real)
    requires lo <= hi && u > 0.0 && (lo / u).Floor <= i <= (hi / u).Floor
    ensures lo <= x <= hi && (x / u).Floor == i
  {
    if i == (lo / u).Floor {
      x := lo;
    } else {
      x := i as real * u;
      assert x / u == i as real;
      assert lo / u < i as real <= hi / u;
      assert lo / u * u == lo && hi / u * u == hi;
    }
  }

  lemma BlockIsMeets(c: Cell, neLat: real, neLng: real, swLat: real, swLng: real)
    requires swLat <= neLat && swLng <= neLng
    ensures var sw, ne := CellOf(swLat, swLng), CellOf(neLat, neLng);
            sw.lat <= c.lat <= ne.lat && sw.lng <= c.lng <= ne.lng <==> Meets(c, neLat, neLng, swLat, swLng)
  {
    var sw, ne := CellOf(swLat, swLng), CellOf(neLat, neLng);
    if sw.lat <= c.lat <= ne.lat && sw.lng <= c.lng <= ne.lng {
      var lat := PointInCell(swLat, neLat, LAT_UNIT, c.lat);
      var lng := PointInCell(swLng, neLng, LNG_UNIT, c.lng);
      assert CellOf(lat, lng) == c;
    }
    if Meets(c, neLat, neLng, swLat, swLng) {
      var lat: real, lng: real :| swLat <= lat <= neLat && swLng <= lng <= neLng && CellOf(lat, lng) == c;
      FloorMonotone(swLat, lat, LAT_UNIT);
      FloorMonotone(lat, neLat, LAT_UNIT);
      FloorMonotone(swLng, lng, LNG_UNIT);
      FloorMonotone(lng, neLng, LNG_UNIT);
    }
  }

  lemma FormatsKeepDistinct(cells: seq<Cell>)
    requires forall i, j :: 0 <= i < j < |cells| ==> cells[i] != cells[j]
    ensures forall i, j :: 0 <= i < j < |cells| ==> Formats(cells)[i] != Formats(cells)[j]
    ensures forall c :: Format(c) in Formats(cells) <==> c in cells
    ensures forall id :: id in Formats(cells) ==> exists c :: c in cells && id == Format(c)
  {
    var ids := Formats(cells);
    forall i, j | 0 <= i < j < |ids| ensures ids[i] != ids[j] {
      if ids[i] == ids[j] {
        FormatInjective(cells[i], cells[j]);
      }
    }
    forall c ensures Format(c) in ids <==> c in cells {
      if Format(c) in ids {
        var i :| 0 <= i < |ids| && ids[i] == Format(c);
        FormatInjective(c, cells[i]);
      }
      if c in cells {
        var i :| 0 <= i < |cells| && cells[i] == c;
        assert ids[i] == Format(c);
      }
    }
  }

  lemma ViewportCellsExact(neLat: real, neLng: real, swLat: real, swLng: real)
    requires swLat <= neLat && swLng <= neLng
    ensures var cells := ViewportCells(neLat, neLng, swLat, swLng);
            && (forall c :: c in cells <==> Meets(c, neLat, neLng, swLat, swLng))
            && (forall i, j :: 0 <= i < j < |cells| ==> cells[i] != cells[j])
  {
    var sw, ne := CellOf(swLat, swLng), CellOf(neLat, neLng);
    BlockExact(sw.lat, ne.lat, sw.lng, ne.lng);
    forall c ensures c in ViewportCells(neLat, neLng, swLat, swLng) <==> Meets(c, neLat, neLng, swLat, swLng) {
      BlockIsMeets(c, neLat, neLng, swLat, swLng);
    }
  }

  /** An upright viewport lists every cell that meets the closed box exactly once and nothing else; the request for it
      panics exactly when the number of those cells, counted modulo 2^64, is above the largest capacity. */
  lemma ViewportExact(neLat: real, neLng: real, swLat: real, swLng: real)
    requires swLat <= neLat && swLng <= neLng
    ensures var ids := Formats(ViewportCells(neLat, neLng, swLat, swLng));
            && (forall c :: Format(c) in ids <==> Meets(c, neLat, neLng, swLat, swLng))
            && (forall id :: id in ids ==> exists c :: id == Format(c) && Meets(c, neLat, neLng, swLat, swLng))
            && (forall i, j :: 0 <= i < j < |ids| ==> ids[i] != ids[j])
            && (Preallocates(neLat, neLng, swLat, swLng) <==> |ids| % TWO_64 <= MAX_CAPACITY)
  {
    UprightSize(neLat, neLng, swLat, swLng);
    PanicsExactly(neLat, neLng, swLat, swLng);
    ViewportCellsExact(neLat, neLng, swLat, swLng);
    FormatsKeepDistinct(ViewportCells(neLat, neLng, swLat, swLng));
    forall id | id in Formats(ViewportCells(neLat, neLng, swLat, swLng))
      ensures exists c :: id == Format(c) && Meets(c, neLat, neLng, swLat, swLng)
    {
      var c :| c in ViewportCells(neLat, neLng, swLat, swLng) && id == Format(c);
    }
  }

  lemma UprightSize(neLat: real, neLng: real, swLat: real, swLng: real)
    requires swLat <= neLat && swLng <= neLng
    ensures var (rows, columns) := Extent(neLat, neLng, swLat, swLng);
            rows > 0 && columns > 0 && |ViewportCells(neLat, neLng, swLat, swLng)| == rows * columns
  {
    FloorMonotone(swLat, neLat, LAT_UNIT);
    FloorMonotone(swLng, neLng, LNG_UNIT);
    var sw, ne := CellOf(swLat, swLng), CellOf(neLat, neLng);
    BlockSize(sw.lat, ne.lat, sw.lng, ne.lng);
  }

  /** For every box, upright or inverted: no panic exactly when the product of rows and columns lies at most the
      largest capacity above a multiple of 2^64. */
  lemma PanicsExactly(neLat: real, neLng: real, swLat: real, swLng: real)
    ensures var sw, ne := CellOf(swLat, swLng), CellOf(neLat, neLng);
            var rows, columns := ne.lat - sw.lat + 1, ne.lng - sw.lng + 1;
            Preallocates(neLat, neLng, swLat, swLng) <==>
            rows * columns % 0x1_0000_0000_0000_0000 <= 0x1000_0000_0000
  {
    var (rows, columns) := Extent(neLat, neLng, swLat, swLng);
    WrapsSmall(rows * columns);
  }

  lemma WrapsSmall(n: int)
    ensures 0 <= Wrap64(n) <= MAX_CAPACITY <==> n % TWO_64 <= MAX_CAPACITY
  {
    var k := (n - MIN_INT) / TWO_64;
    ModShift(Wrap64(n), k);
    assert n == Wrap64(n) + TWO_64 * k;
  }

  /** While the product fits in 64 bits, a panic means one of two things: exactly one axis is inverted by more than a
      cell, or the axes agree in direction and ask for too much. An inverted box that does not panic lists nothing. */
  lemma InvertedViewport(neLat: real, neLng: real, swLat: real, swLng: real)
    ensures var (rows, columns) := Extent(neLat, neLng, swLat, swLng);
            && (IsInt64(rows * columns) ==>
                  (!Preallocates(neLat, neLng, swLat, swLng) <==>
                    rows < 0 < columns || columns < 0 < rows
                    || ((rows > 0 <==> columns > 0) && rows * columns > MAX_CAPACITY)))
            && (rows <= 0 || columns <= 0 ==> ViewportCells(neLat, neLng, swLat, swLng) == [])
  {
    var sw, ne := CellOf(swLat, swLng), CellOf(neLat, neLng);
    Signs(ne.lat - sw.lat + 1, ne.lng - sw.lng + 1);
    BlockExact(sw.lat, ne.lat, sw.lng, ne.lng);
    var cells := Block(sw.lat, ne.lat, sw.lng, ne.lng);
    if cells != [] {
      assert cells[0] in cells;
    }
  }

  lemma Signs(rows: int, columns: int)
    ensures rows * columns < 0 <==> rows < 0 < columns || columns < 0 < rows
    ensures rows * columns > 0 ==> (rows > 0 <==> columns > 0)
  {
  }

  /** No upright box on the globe panics. */
  lemma GlobeIsSafe(neLat: real, neLng: real, swLat: real, swLng: real)
    requires -90.0 <= swLat <= neLat <= 90.0 && -180.0 <= swLng <= neLng <= 180.0
    ensures Preallocates(neLat, neLng, swLat, swLng)
  {
    hide CellOf, ViewportCells;
    UprightSize(neLat, neLng, swLat, swLng);
    GlobeExtent(neLat, neLng, swLat, swLng);
    var (rows, columns) := Extent(neLat, neLng, swLat, swLng);
    BoundedProduct(rows, columns);
  }

  lemma GlobeExtent(neLat: real, neLng: real, swLat: real, swLng: real)
    requires -90.0 <= swLat <= neLat <= 90.0 && -180.0 <= swLng <= neLng <= 180.0
    ensures var (rows, columns) := Extent(neLat, neLng, swLat, swLng); rows <= 200_001 && columns <= 327_274
  {
    FloorMonotone(-90.0, swLat, LAT_UNIT);
    FloorMonotone(neLat, 90.0, LAT_UNIT);
    FloorMonotone(-180.0, swLng, LNG_UNIT);
    FloorMonotone(neLng, 180.0, LNG_UNIT);
  }

  lemma BoundedProduct(rows: int, columns: int)
    requires 0 < rows <= 200_001 && 0 < columns <= 327_274
    ensures 0 <= rows * columns <= MAX_CAPACITY
  {
    ProductMonotone(rows, 200_001, columns);
  }

  lemma ProductMonotone(a: int, b: int, c: nat)
    requires a <= b
    ensures a * c <= b * c
  {
    assert (b - a) * c >= 0;
  }

  /** But nothing keeps a client on the globe: this upright box panics, and so does its double inversion. */
  lemma FarBoxPanics()
    ensures !Preallocates(1000.0, 10000.0, -1000.0, -10000.0)
    ensures !Preallocates(-1000.0, -10000.0, 1000.0, 10000.0)
  {
    assert Extent(1000.0, 10000.0, -1000.0, -10000.0) == (2222224, 18181820);
    assert Extent(-1000.0, -10000.0, 1000.0, 10000.0) == (-2222222, -18181818);
  }

  /** The id of every point of the box is listed. */
  lemma PointsAreListed(neLat: real, neLng: real, swLat: real, swLng: real, lat: real, lng: real)
    requires swLat <= lat <= neLat && swLng <= lng <= neLng
    ensures ToGridID(lat, lng) in Formats(ViewportCells(neLat, neLng, swLat, swLng))
  {
    ViewportExact(neLat, neLng, swLat, swLng);
    assert Meets(CellOf(lat, lng), neLat, neLng, swLat, swLng);
  }
}
