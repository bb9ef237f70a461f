/*
 * Grid-position helpers of the game: position equality, clock formatting,
 * nearest-position selection and the ring of positions around a tile.
 */
module Utils {

  datatype Option<T> = None | Some(value: T)

  /** A position as the game passes it around: integer grid coordinates x and y
      and a layer z that 2-D positions leave absent (None stands for `undefined`). */
  datatype Position = Position(x: int, y: int, z: Option<int>)

  // ---------------------------------------------------------------------------
  // equalPositions
  // ---------------------------------------------------------------------------

  /** Strict comparison of the three coordinates; an absent z equals only an absent z. */
  function EqualPositions(a: Position, b: Position): (r: bool)
    ensures r <==> a == b
  {
    a.x == b.x && a.y == b.y && a.z == b.z
  }

  lemma EqualPositionsIsEquivalence(a: Position, b: Position, c: Position)
    ensures EqualPositions(a, a)
    ensures EqualPositions(a, b) == EqualPositions(b, a)
    ensures EqualPositions(a, b) && EqualPositions(b, c) ==> EqualPositions(a, c)
  {
  }

  /** Two 2-D positions are equal exactly when their x and y agree. */
  lemma EqualFlatPositions(a: Position, b: Position)
    requires a.z == None && b.z == None
    ensures EqualPositions(a, b) <==> a.x == b.x && a.y == b.y
  {
  }

  /** A 2-D position never equals a position that carries a layer, even at z = 0. */
  lemma FlatNeverEqualsLayered(a: Position, b: Position)
    requires a.z == None && b.z.Some?
    ensures !EqualPositions(a, b)
  {
  }

  // ---------------------------------------------------------------------------
  // formatTime
  // ---------------------------------------------------------------------------

  predicate IsDigit(c: char) {
    '0' <= c <= '9'
  }

  predicate AllDigits(s: string) {
    forall i :: 0 <= i < |s| ==> IsDigit(s[i])
  }

  function DigitChar(d: int): char
    requires 0 <= d < 10
  {
    ('0' as int + d) as char
  }

  function DigitValue(c: char): int
    requires IsDigit(c)
  {
    c as int - '0' as int
  }

  /** Decimal notation of n without leading zeros, as a template literal prints it. */
  function NatToDecimal(n: nat): (s: string)
    ensures |s| >= 1 && AllDigits(s)
    ensures (s[0] == '0') <==> n == 0
    decreases n
  {
    if n < 10 then [DigitChar(n)] else NatToDecimal(n / 10) + [DigitChar(n % 10)]
  }

  /** Decimal notation of an integer, with a leading '-' when it is negative. */
  function IntToDecimal(i: int): string {
    if i < 0 then "-" + NatToDecimal(-i) else NatToDecimal(i)
  }

  /** The value of a string of decimal digits (the independent reading of NatToDecimal). */
  function ParseDecimal(s: string): nat
    requires AllDigits(s)
  {
    if s == [] then 0 else ParseDecimal(s[..|s| - 1]) * 10 + DigitValue(s[|s| - 1])
  }

  /** A multiple of b leaves no remainder. */
  lemma MultipleHasNoRemainder(b: int, q: int)
    requires b > 0
    ensures (b * q) % b == 0
  {
    var x := b * q;
    var d := q - x / b;
    assert x == b * (x / b) + x % b;
    assert x % b == b * d;
  }

  /** The `%` operator of JavaScript: the remainder takes the sign of the dividend, is
      smaller than the divisor in magnitude, and differs from the dividend by a multiple
      of the divisor. */
  function JsRemainder(a: int, b: int): (r: int)
    requires b > 0
    ensures a >= 0 ==> 0 <= r < b
    ensures a < 0 ==> -b < r <= 0
    ensures (a - r) % b == 0
  {
    if a >= 0 then
      MultipleHasNoRemainder(b, a / b);
      a % b
    else
      var q := (-a) / b;
      var r := -((-a) % b);
      MultipleHasNoRemainder(b, -q);
      assert a - r == b * (-q);
      r
  }

  /** A field of the clock: a '0' in front exactly when the number is below 10. */
  function ZeroPadded(n: int): string {
    (if n < 10 then "0" else "") + IntToDecimal(n)
  }

  /** Seconds as "MM:SS", minutes then seconds; `Math.floor(value / 60)` is Dafny's `/` for
      the positive divisor 60. The text always holds a ':' and starts with the pad '0' exactly
      when the minutes are below 10. */
  function FormatTime(value: int): (s: string)
    ensures ':' in s
    ensures s[0] == '0' <==> value / 60 < 10
  {
    var minutes := ZeroPadded(value / 60);
    var t := minutes + ":" + ZeroPadded(JsRemainder(value, 60));
    assert t[|minutes|] == ':';
    t
  }

  lemma {:induction false} ParseNatToDecimal(n: nat)
    ensures ParseDecimal(NatToDecimal(n)) == n
    decreases n
  {
    if n >= 10 {
      var s := NatToDecimal(n);
      ParseNatToDecimal(n / 10);
      assert s[..|s| - 1] == NatToDecimal(n / 10);
    }
  }

  lemma {:induction false} ParseLeadingZero(s: string)
    requires AllDigits(s)
    ensures AllDigits("0" + s) && ParseDecimal("0" + s) == ParseDecimal(s)
    decreases |s|
  {
    var t := "0" + s;
    if s != [] {
      ParseLeadingZero(s[..|s| - 1]);
      assert t[..|t| - 1] == "0" + s[..|s| - 1];
    }
  }

  lemma {:induction false} NatToDecimalLength(n: nat)
    ensures n < 10 <==> |NatToDecimal(n)| == 1
    ensures 10 <= n < 100 ==> |NatToDecimal(n)| == 2
    decreases n
  {
    if n >= 10 {
      NatToDecimalLength(n / 10);
    }
  }

  /** A padded field of a non-negative number: at least two digits, reading back as n,
      starting with '0' exactly when n < 10, and exactly two digits when n < 100. */
  lemma ZeroPaddedField(n: nat)
    ensures var s := ZeroPadded(n);
      |s| >= 2 && AllDigits(s) && ParseDecimal(s) == n
      && (s[0] == '0' <==> n < 10)
      && (n < 100 ==> |s| == 2)
  {
    var d := NatToDecimal(n);
    ParseNatToDecimal(n);
    NatToDecimalLength(n);
    if n < 10 {
      ParseLeadingZero(d);
      assert ZeroPadded(n) == "0" + d;
    } else {
      assert ZeroPadded(n) == d;
    }
  }

  /** For a non-negative value the text is minutes ':' seconds, both all digits, the
      seconds exactly two of them; read back, minutes * 60 + seconds is the value. */
  lemma FormatTimeFields(value: int)
    requires value >= 0
    ensures var s := FormatTime(value); var k := |s| - 3;
      k >= 2 && s[k] == ':'
      && AllDigits(s[..k]) && AllDigits(s[k + 1..])
      && ParseDecimal(s[..k]) == value / 60
      && ParseDecimal(s[k + 1..]) == value % 60
      && ParseDecimal(s[..k]) * 60 + ParseDecimal(s[k + 1..]) == value
      && (s[0] == '0' <==> value / 60 < 10)
      && (s[k + 1] == '0' <==> value % 60 < 10)
  {
    var m, sec := value / 60, value % 60;
    ZeroPaddedField(m);
    ZeroPaddedField(sec);
    var s := FormatTime(value);
    var ms, ss := ZeroPadded(m), ZeroPadded(sec);
    assert s == ms + ":" + ss;
    assert s[..|ms|] == ms;
    assert s[|ms| + 1..] == ss;
  }

  /** Below 100 minutes (6000 seconds) the text is exactly "MM:SS". */
  lemma FormatTimeClock(value: int)
    requires 0 <= value < 6000
    ensures var s := FormatTime(value);
      |s| == 5 && s[2] == ':' && AllDigits(s[..2]) && AllDigits(s[3..])
      && ParseDecimal(s[..2]) * 60 + ParseDecimal(s[3..]) == value
  {
    ZeroPaddedField(value / 60);
    ZeroPaddedField(value % 60);
    FormatTimeFields(value);
  }

  /** A negative value is formatted digit by digit like any other: the sign lands after the pad. */
  lemma FormatTimeOfMinusOne()
    ensures FormatTime(-1) == "0-1:0-1"
  {
    assert -1 / 60 == -1;
    assert JsRemainder(-1, 60) == -1;
    assert IntToDecimal(-1) == "-1";
  }

  /** The value of an optionally signed decimal, the reading of IntToDecimal. */
  function ReadSigned(s: string): int {
    if |s| > 0 && s[0] == '-' && AllDigits(s[1..]) then 0 - ParseDecimal(s[1..])
    else if AllDigits(s) then ParseDecimal(s)
    else 0
  }

  lemma ReadIntToDecimal(i: int)
    ensures ReadSigned(IntToDecimal(i)) == i
  {
    if i < 0 {
      ParseNatToDecimal(-i);
      assert ("-" + NatToDecimal(-i))[1..] == NatToDecimal(-i);
    } else {
      ParseNatToDecimal(i);
    }
  }

  /** For a negative value the minutes are floor(value / 60) and the seconds the truncating
      remainder, in (-60, 0]: minutes * 60 + seconds is the value for a multiple of 60 and one
      minute less otherwise. */
  lemma NegativeFields(value: int)
    requires value < 0
    ensures value / 60 < 0 && -60 < JsRemainder(value, 60) <= 0
    ensures value % 60 == 0 ==> (value / 60) * 60 + JsRemainder(value, 60) == value
    ensures value % 60 != 0 ==> (value / 60) * 60 + JsRemainder(value, 60) == value - 60
  {
    var q, m := value / 60, JsRemainder(value, 60);
    assert value == 60 * q + value % 60;
    if value % 60 == 0 {
      assert m == 0;
    } else {
      assert m == value % 60 - 60;
    }
  }

  /** For a negative value each field is '0' followed by a signed number, and reading the
      fields back gives the minutes and seconds of NegativeFields. */
  lemma FormatTimeNegative(value: int)
    requires value < 0
    ensures var mins := IntToDecimal(value / 60); var secs := IntToDecimal(JsRemainder(value, 60));
      FormatTime(value) == "0" + mins + ":0" + secs
      && ReadSigned(mins) == value / 60 && ReadSigned(mins) < 0
      && -60 < ReadSigned(secs) <= 0
      && (value % 60 == 0 ==> ReadSigned(mins) * 60 + ReadSigned(secs) == value)
      && (value % 60 != 0 ==> ReadSigned(mins) * 60 + ReadSigned(secs) == value - 60)
  {
    NegativeFields(value);
    ReadIntToDecimal(value / 60);
    ReadIntToDecimal(JsRemainder(value, 60));
  }

  // ---------------------------------------------------------------------------
  // selectClosest
  // ---------------------------------------------------------------------------

  /** Square of the Euclidean distance in the x-y plane; it orders positions exactly as
      the distance itself does. */
  function SquaredDistance(p: Position, target: Position): int {
    var dx := p.x - target.x;
    var dy := p.y - target.y;
    dx * dx + dy * dy
  }

  predicate SortedBy(s: seq<Position>, key: Position -> int) {
    forall i, j :: 0 <= i < j < |s| ==> key(s[i]) <= key(s[j])
  }

  /** Dropping the head of a sorted sequence leaves it sorted. */
  lemma TailSorted(s: seq<Position>, key: Position -> int)
    requires s != [] && SortedBy(s, key)
    ensures SortedBy(s[1..], key)
  {
    forall i, j | 0 <= i < j < |s| - 1
      ensures key(s[1..][i]) <= key(s[1..][j])
    {
      assert s[1..][i] == s[i + 1] && s[1..][j] == s[j + 1];
    }
  }

  /** A sorted sequence with a head no greater than any of its elements is still sorted. */
  lemma ConsSorted(b: Position, s: seq<Position>, key: Position -> int)
    requires SortedBy(s, key)
    requires forall k :: 0 <= k < |s| ==> key(b) <= key(s[k])
    ensures SortedBy([b] + s, key)
  {
    forall i, j | 0 <= i < j < |s| + 1
      ensures key(([b] + s)[i]) <= key(([b] + s)[j])
    {
      assert ([b] + s)[j] == s[j - 1];
      if i > 0 {
        assert ([b] + s)[i] == s[i - 1];
      }
    }
  }

  /** A lower bound of t and of p bounds every element of a sequence holding t and p. */
  lemma LowerBoundKept(b: Position, p: Position, t: seq<Position>, r: seq<Position>, key: Position -> int)
    requires key(b) <= key(p)
    requires forall k :: 0 <= k < |t| ==> key(b) <= key(t[k])
    requires multiset(r) == multiset(t) + multiset{p}
    ensures forall k :: 0 <= k < |r| ==> key(b) <= key(r[k])
  {
    forall k | 0 <= k < |r|
      ensures key(b) <= key(r[k])
    {
      assert r[k] in multiset(r);
      if r[k] != p {
        assert r[k] in multiset(t);
        var i :| 0 <= i < |t| && t[i] == r[k];
      }
    }
  }

  /** Puts p in front of every element whose key is not below p's, so equal keys keep
      their original order (the sort is stable). */
  function InsertBy(p: Position, s: seq<Position>, key: Position -> int): (r: seq<Position>)
    requires SortedBy(s, key)
    ensures multiset(r) == multiset(s) + multiset{p}
    ensures SortedBy(r, key)
  {
    if s == [] || key(p) <= key(s[0]) then
      ConsSorted(p, s, key);
      [p] + s
    else
      TailSorted(s, key);
      var rest := InsertBy(p, s[1..], key);
      LowerBoundKept(s[0], p, s[1..], rest, key);
      ConsSorted(s[0], rest, key);
      assert s == [s[0]] + s[1..];
      [s[0]] + rest
  }

  /** Sort by key, as `Array.prototype.sort` with the comparator `a.key - b.key`. */
  function SortBy(s: seq<Position>, key: Position -> int): (r: seq<Position>)
    ensures multiset(r) == multiset(s)
    ensures SortedBy(r, key)
  {
    if s == [] then []
    else
      assert s == [s[0]] + s[1..];
      InsertBy(s[0], SortBy(s[1..], key), key)
  }

  /** Sorting a sequence already in key order leaves it as it is, ties included. */
  lemma {:induction false} SortBySorted(s: seq<Position>, key: Position -> int)
    requires SortedBy(s, key)
    ensures SortBy(s, key) == s
  {
    if s != [] {
      TailSorted(s, key);
      SortBySorted(s[1..], key);
      assert s == [s[0]] + s[1..];
    }
  }

  /** The end index `Array.prototype.slice(0, end)` uses: end clamped to [0, length], where
      a negative end counts back from length. */
  function SliceEnd(length: nat, end: int): (k: nat)
    ensures k <= length
    ensures end >= 0 ==> k <= end && (k < end ==> k == length)
    ensures end < 0 ==> k >= length + end && (k > 0 ==> k == length + end)
  {
    if end < 0 then (if length + end > 0 then length + end else 0)
    else if end < length then end
    else length
  }

  /** The first k elements of a sorted sequence: each is at most every element left behind. */
  lemma SplitSorted(s: seq<Position>, k: nat, key: Position -> int)
    requires SortedBy(s, key) && k <= |s|
    ensures multiset(s) - multiset(s[..k]) == multiset(s[k..])
    ensures forall p, q :: p in multiset(s[..k]) && q in multiset(s[k..]) ==> key(p) <= key(q)
  {
    assert s == s[..k] + s[k..];
    forall p, q | p in multiset(s[..k]) && q in multiset(s[k..])
      ensures key(p) <= key(q)
    {
      var i :| 0 <= i < k && s[..k][i] == p;
      var j :| 0 <= j < |s| - k && s[k..][j] == q;
      assert s[i] == p && s[k + j] == q;
    }
  }

  /** A prefix of a sorted arrangement of whole: drawn from whole, sorted, and below the rest. */
  lemma SortedPrefix(whole: seq<Position>, s: seq<Position>, k: nat, key: Position -> int)
    requires multiset(s) == multiset(whole) && SortedBy(s, key) && k <= |s|
    ensures multiset(s[..k]) <= multiset(whole)
    ensures SortedBy(s[..k], key)
    ensures forall p, q :: p in multiset(s[..k]) && q in multiset(whole) - multiset(s[..k]) ==>
              key(p) <= key(q)
  {
    SplitSorted(s, k, key);
    assert s == s[..k] + s[k..];
    assert multiset(whole) - multiset(s[..k]) == multiset(s[k..]);
    forall i, j | 0 <= i < j < k
      ensures key(s[..k][i]) <= key(s[..k][j])
    {
      assert s[..k][i] == s[i] && s[..k][j] == s[j];
    }
  }

  /** The count elements of least key, least first: `sort` by key, then `slice(0, count)`. */
  function FirstByKey(positions: seq<Position>, key: Position -> int, count: int): (r: seq<Position>)
    ensures |r| == SliceEnd(|positions|, count)
    ensures multiset(r) <= multiset(positions)
    ensures SortedBy(r, key)
    ensures forall p, q :: p in multiset(r) && q in multiset(positions) - multiset(r) ==> key(p) <= key(q)
  {
    var sorted := SortBy(positions, key);
    assert |sorted| == |multiset(sorted)| == |multiset(positions)| == |positions|;
    var k := SliceEnd(|positions|, count);
    SortedPrefix(positions, sorted, k, key);
    sorted[..k]
  }

  /** The count positions closest to target, nearest first. */
  function SelectClosest(positions: seq<Position>, target: Position, count: int := 1): (r: seq<Position>)
    ensures count >= 0 ==> |r| == (if count < |positions| then count else |positions|)
    ensures count < 0 ==> |r| == (if |positions| + count > 0 then |positions| + count else 0)
  {
    FirstByKey(positions, p => SquaredDistance(p, target), count)
  }

  /** The selection is drawn from the input and ordered nearest first. */
  lemma SelectClosestOrdered(positions: seq<Position>, target: Position, count: int)
    ensures var r := SelectClosest(positions, target, count);
      multiset(r) <= multiset(positions)
      && forall i, j :: 0 <= i < j < |r| ==>
           SquaredDistance(r[i], target) <= SquaredDistance(r[j], target)
  {
  }

  /** Every selected position is at least as close to target as every position left out. */
  lemma SelectClosestIsNearest(positions: seq<Position>, target: Position, count: int)
    ensures var r := SelectClosest(positions, target, count);
      forall p, q :: p in multiset(r) && q in multiset(positions) - multiset(r) ==>
        SquaredDistance(p, target) <= SquaredDistance(q, target)
  {
  }

  /** With the default count, the result is one position at least as close as any other. */
  lemma SelectClosestDefault(positions: seq<Position>, target: Position)
    requires |positions| > 0
    ensures var r := SelectClosest(positions, target);
      |r| == 1 && r[0] in positions
      && forall q :: q in positions ==> SquaredDistance(r[0], target) <= SquaredDistance(q, target)
  {
    var r := SelectClosest(positions, target);
    SelectClosestOrdered(positions, target, 1);
    SelectClosestIsNearest(positions, target, 1);
    assert r[0] in multiset(r);
    forall q | q in positions
      ensures SquaredDistance(r[0], target) <= SquaredDistance(q, target)
    {
      if q in multiset(positions) - multiset(r) {
      } else {
        assert q in multiset(r);
        assert q in r;
        assert q == r[0];
      }
    }
  }

  // ---------------------------------------------------------------------------
  // aroundPosition
  // ---------------------------------------------------------------------------

  /** The eight compass directions; north points toward smaller y. */
  datatype Compass = N | NE | E | SE | S | SW | W | NW

  const Clockwise: seq<Compass> := [N, NE, E, SE, S, SW, W, NW]

  function Eastward(c: Compass): int {
    match c
    case NE | E | SE => 1
    case SW | W | NW => -1
    case N | S => 0
  }

  function Southward(c: Compass): int {
    match c
    case SE | S | SW => 1
    case NW | N | NE => -1
    case E | W => 0
  }

  /** The 2-D position `shift` tiles from p in direction c. */
  function Toward(p: Position, c: Compass, shift: int): Position {
    Position(p.x + shift * Eastward(c), p.y + shift * Southward(c), None)
  }

  /** q is a 2-D position two tiles from p along a row, a column or a diagonal. */
  predicate InRing(p: Position, q: Position) {
    q.z == None
    && (q.x - p.x) in {-2, 0, 2} && (q.y - p.y) in {-2, 0, 2}
    && !(q.x == p.x && q.y == p.y)
  }

  /** The eight positions at offset 2 around position, starting north and going clockwise. */
  function AroundPosition(position: Position): (r: seq<Position>)
    ensures |r| == 8
    ensures forall i, j :: 0 <= i < j < |r| ==> r[i] != r[j]
    ensures forall q :: q in r <==> InRing(position, q)
  {
    var x, y := position.x, position.y;
    var shift := 2;
    [
      Position(x, y - shift, None),
      Position(x + shift, y - shift, None),
      Position(x + shift, y, None),
      Position(x + shift, y + shift, None),
      Position(x, y + shift, None),
      Position(x - shift, y + shift, None),
      Position(x - shift, y, None),
      Position(x - shift, y - shift, None)
    ]
  }

  /** The ring comes in the order N, NE, E, SE, S, SW, W, NW. */
  lemma AroundPositionClockwise(position: Position)
    ensures forall i :: 0 <= i < 8 ==> AroundPosition(position)[i] == Toward(position, Clockwise[i], 2)
  {
  }
}
