/** The zigzag order of the coefficients of a block: stbi__jpeg_dezigzag (ITU-T T.81 figure A.6). */
module JpegZigzag {

  /** Where coefficient i of the zigzag order stands in the block. */
  function Table(i: nat): (c: nat)
    requires i < 64
    ensures c < 64
  {
    match i
    case 0 => 0 case 1 => 1 case 2 => 8 case 3 => 16
    case 4 => 9 case 5 => 2 case 6 => 3 case 7 => 10
    case 8 => 17 case 9 => 24 case 10 => 32 case 11 => 25
    case 12 => 18 case 13 => 11 case 14 => 4 case 15 => 5
    case 16 => 12 case 17 => 19 case 18 => 26 case 19 => 33
    case 20 => 40 case 21 => 48 case 22 => 41 case 23 => 34
    case 24 => 27 case 25 => 20 case 26 => 13 case 27 => 6
    case 28 => 7 case 29 => 14 case 30 => 21 case 31 => 28
    case 32 => 35 case 33 => 42 case 34 => 49 case 35 => 56
    case 36 => 57 case 37 => 50 case 38 => 43 case 39 => 36
    case 40 => 29 case 41 => 22 case 42 => 15 case 43 => 23
    case 44 => 30 case 45 => 37 case 46 => 44 case 47 => 51
    case 48 => 58 case 49 => 59 case 50 => 52 case 51 => 45
    case 52 => 38 case 53 => 31 case 54 => 39 case 55 => 46
    case 56 => 53 case 57 => 60 case 58 => 61 case 59 => 54
    case 60 => 47 case 61 => 55 case 62 => 62 case 63 => 63
  }

  /** The number, in the zigzag order, of the coefficient that stands at place i. */
  function Zigzag(i: nat): (c: nat)
    requires i < 64
    ensures c < 64
  {
    match i
    case 0 => 0 case 1 => 1 case 2 => 5 case 3 => 6
    case 4 => 14 case 5 => 15 case 6 => 27 case 7 => 28
    case 8 => 2 case 9 => 4 case 10 => 7 case 11 => 13
    case 12 => 16 case 13 => 26 case 14 => 29 case 15 => 42
    case 16 => 3 case 17 => 8 case 18 => 12 case 19 => 17
    case 20 => 25 case 21 => 30 case 22 => 41 case 23 => 43
    case 24 => 9 case 25 => 11 case 26 => 18 case 27 => 24
    case 28 => 31 case 29 => 40 case 30 => 44 case 31 => 53
    case 32 => 10 case 33 => 19 case 34 => 23 case 35 => 32
    case 36 => 39 case 37 => 45 case 38 => 52 case 39 => 54
    case 40 => 20 case 41 => 22 case 42 => 33 case 43 => 38
    case 44 => 46 case 45 => 51 case 46 => 55 case 47 => 60
    case 48 => 21 case 49 => 34 case 50 => 37 case 51 => 47
    case 52 => 50 case 53 => 56 case 54 => 59 case 55 => 61
    case 56 => 35 case 57 => 36 case 58 => 48 case 59 => 49
    case 60 => 57 case 61 => 58 case 62 => 62 case 63 => 63
  }

  /** The decoder's table has 15 more entries, which all are the last place. */
  function Dezigzag(i: nat): (c: nat)
    requires i < 64 + 15
    ensures c < 64
  {
    if i < 64 then Table(i) else 63
  }

  /** Every place of the block belongs to one coefficient. */
  lemma ZigzagInverts(i: nat)
    requires i < 64
    ensures Zigzag(Table(i)) == i && Table(Zigzag(i)) == i
  {
    hide Zigzag, Table;
    NumberOfPlace(i);
    PlaceOfNumber(i);
  }

  lemma NumberOfPlace(i: nat)
    requires i < 64
    ensures Zigzag(Table(i)) == i
  {
    hide Zigzag, Table;
    if i < 32 { NumbersLow(i); } else { NumbersHigh(i); }
  }

  lemma NumbersLow(i: nat)
    requires i < 32
    ensures Zigzag(Table(i)) == i
  {
  }

  lemma NumbersHigh(i: nat)
    requires 32 <= i < 64
    ensures Zigzag(Table(i)) == i
  {
  }

  lemma PlaceOfNumber(c: nat)
    requires c < 64
    ensures Table(Zigzag(c)) == c
  {
    hide Zigzag, Table;
    if c < 32 { PlacesLow(c); } else { PlacesHigh(c); }
  }

  lemma PlacesLow(c: nat)
    requires c < 32
    ensures Table(Zigzag(c)) == c
  {
  }

  lemma PlacesHigh(c: nat)
    requires 32 <= c < 64
    ensures Table(Zigzag(c)) == c
  {
  }

  // ---------------------------------------------------------------------------
  // The path itself (ITU-T T.81 figure A.6)

  /** Up to the long diagonal: diagonal d begins behind the d * (d + 1) / 2 places of the ones before it, and
      is walked upwards if d is even and downwards if it is odd. */
  lemma ZigzagPath(r: nat, c: nat)
    requires r + c <= 7
    ensures var d := r + c; Zigzag(8 * r + c) == d * (d + 1) / 2 + if d % 2 == 0 then c else r
  {
    hide Zigzag;
    if r < 2 { PathTop(r, c); } else { PathBelow(r, c); }
  }

  lemma PathTop(r: nat, c: nat)
    requires r < 2 && r + c <= 7
    ensures var d := r + c; Zigzag(8 * r + c) == d * (d + 1) / 2 + if d % 2 == 0 then c else r
  {
    match r case 0 => case 1 =>
  }

  lemma PathBelow(r: nat, c: nat)
    requires 2 <= r && r + c <= 7
    ensures var d := r + c; Zigzag(8 * r + c) == d * (d + 1) / 2 + if d % 2 == 0 then c else r
  {
    match r case 2 => case 3 => case 4 => case 5 => case 6 => case 7 =>
  }

  /** Turned upside down the path is the same, walked backwards. */
  lemma ZigzagTurned(u: nat)
    requires u < 64
    ensures Zigzag(63 - u) == 63 - Zigzag(u)
  {
    if u < 32 { TurnedLow(u); } else { TurnedLow(63 - u); }
  }

  lemma TurnedLow(u: nat)
    requires u < 32
    ensures Zigzag(63 - u) == 63 - Zigzag(u)
  {
  }

  /** The number of the coefficient in row r and column c. */
  function Walk(r: nat, c: nat): (i: nat)
    requires r < 8 && c < 8
    ensures i < 64
  {
    if r + c <= 7 then WalkHalf(r, c) else 63 - WalkHalf(7 - r, 7 - c)
  }

  function WalkHalf(r: nat, c: nat): (i: nat)
    requires r + c <= 7
    ensures i <= 35
  {
    var d := r + c;
    Triangle(d);
    d * (d + 1) / 2 + if d % 2 == 0 then c else r
  }

  lemma Triangle(d: nat)
    requires d <= 7
    ensures d * (d + 1) / 2 + d <= 35
  {
    match d case 0 => case 1 => case 2 => case 3 => case 4 => case 5 => case 6 => case 7 =>
  }

  /** The tables of the decoder follow this walk. */
  lemma TableWalks(r: nat, c: nat)
    requires r < 8 && c < 8
    ensures Zigzag(8 * r + c) == Walk(r, c) && Table(Walk(r, c)) == 8 * r + c
  {
    hide Zigzag, Table;
    if r + c <= 7 {
      ZigzagPath(r, c);
    } else {
      ZigzagPath(7 - r, 7 - c);
      ZigzagTurned(8 * r + c);
    }
    ZigzagInverts(8 * r + c);
  }

  /** Row and column of coefficient i. */
  lemma PlaceOf(i: nat) returns (r: nat, c: nat)
    requires i < 64
    ensures r < 8 && c < 8 && Walk(r, c) == i
  {
    hide Zigzag, Table, Walk;
    r, c := Table(i) / 8, Table(i) % 8;
    ZigzagInverts(i);
    TableWalks(r, c);
  }
}
