/** Day 5: boarding passes read as binary numbers (F and L are 0, B and R
    are 1), the highest seat id, and the search for the one free seat
    between two occupied ones. */
module Day05 {
  import opened Wrappers
  import opened Text
  import opened Numbers

  /** The number of seat slots `main` tracks (`[false; 1024]`). */
  const SEAT_SLOTS: nat := 1024

  /** One of the replacements 'F'→'0', 'B'→'1', 'L'→'0', 'R'→'1'; every
      other character is kept. */
  function Translate(c: char): char {
    if c == 'F' || c == 'L' then '0'
    else if c == 'B' || c == 'R' then '1'
    else c
  }

  /** The pass after the four `replace` calls. */
  function Binary(pass: string): (b: string)
    ensures |b| == |pass|
    ensures forall k :: 0 <= k < |pass| ==> b[k] == Translate(pass[k])
  {
    seq(|pass|, k requires 0 <= k < |pass| => Translate(pass[k]))
  }

  /** `parse_boarding_pass_str`: `usize::from_str_radix(.., 2).unwrap()`;
      `None` where the source panics. */
  function ParseBoardingPass(pass: string): (r: Option<nat>)
    ensures r.Some? ==> r.value < USIZE_BOUND
  {
    ParseUnsigned(Binary(pass), 2, USIZE_BOUND)
  }

  predicate IsPassLetter(c: char) {
    c == 'F' || c == 'B' || c == 'L' || c == 'R'
  }

  /** A pass made of the four letters only. */
  predicate IsPass(s: string) {
    forall k :: 0 <= k < |s| ==> IsPassLetter(s[k])
  }

  function Bit(c: char): nat {
    if c == 'B' || c == 'R' then 1 else 0
  }

  /** The value of a pass read most significant letter first: each B or R at
      distance d from the end contributes 2^d. */
  function PassValue(s: string): nat {
    if |s| == 0 then 0 else Bit(s[0]) * Pow(2, |s| - 1) + PassValue(s[1..])
  }

  lemma {:induction false} BinaryDigits(s: string)
    requires IsPass(s)
    ensures AllDigits(Binary(s), 2) && PlainDigits(Binary(s), 2)
    ensures ValueOf(Binary(s), 2) == PassValue(s)
    decreases |s|
  {
    if |s| > 0 {
      var head, tail := Binary(s[..1]), Binary(s[1..]);
      assert Binary(s) == head + tail;
      assert IsPass(s[1..]);
      BinaryDigits(s[1..]);
      assert head[..0] == "";
      assert ValueOf(head, 2) == Bit(s[0]);
      ValueOfAppend(head, tail, 2);
    }
  }

  lemma PowMonotone(b: nat, m: nat, n: nat)
    requires b >= 1 && m <= n
    ensures Pow(b, m) <= Pow(b, n)
    decreases n
  {
    if m < n {
      PowMonotone(b, m, n - 1);
      MulMonotone(1, b, Pow(b, n - 1));
    }
  }

  lemma {:induction false} PowAdd(b: nat, m: nat, n: nat)
    ensures Pow(b, m + n) == Pow(b, m) * Pow(b, n)
    decreases m
  {
    if m > 0 {
      PowAdd(b, m - 1, n);
      assert Pow(b, m + n) == b * Pow(b, m - 1 + n);
    }
  }

  lemma PowBound64()
    ensures Pow(2, 64) == USIZE_BOUND
  {
    assert Pow(2, 8) == 256;
    PowAdd(2, 8, 8);
    PowAdd(2, 16, 16);
    PowAdd(2, 32, 32);
  }

  /** A pass of 1 to 64 letters decodes to its binary value, which is below
      2^n for n letters; so a 10-letter pass indexes inside the 1024 slots. */
  lemma Decode(s: string)
    requires IsPass(s) && 0 < |s| <= 64
    ensures ParseBoardingPass(s) == Some(PassValue(s))
    ensures PassValue(s) < Pow(2, |s|)
    ensures |s| == 10 ==> PassValue(s) < SEAT_SLOTS
  {
    BinaryDigits(s);
    assert Magnitude(Binary(s)) == Binary(s);
    ValueBound(Binary(s), 2);
    PowMonotone(2, |s|, 64);
    PowBound64();
    if |s| == 10 {
      assert Pow(2, 10) == SEAT_SLOTS;
    }
  }

  /** The id is the row (the first seven letters) times 8 plus the column
      (the last three). */
  lemma RowAndColumn(s: string)
    requires IsPass(s) && |s| == 10
    ensures PassValue(s) == PassValue(s[..7]) * 8 + PassValue(s[7..])
  {
    assert IsPass(s[..7]) && IsPass(s[7..]);
    BinaryDigits(s); BinaryDigits(s[..7]); BinaryDigits(s[7..]);
    assert Binary(s) == Binary(s[..7]) + Binary(s[7..]);
    ValueOfAppend(Binary(s[..7]), Binary(s[7..]), 2);
    assert Pow(2, 3) == 8;
  }

  /** A pass in the puzzle's shape: seven row letters F/B, then three column
      letters L/R. */
  predicate WellFormedPass(s: string) {
    |s| == 10
    && (forall k :: 0 <= k < 7 ==> s[k] == 'F' || s[k] == 'B')
    && (forall k :: 7 <= k < 10 ==> s[k] == 'L' || s[k] == 'R')
  }

  /** Well-formed passes with the same id are the same pass. */
  lemma Injective(a: string, b: string)
    requires WellFormedPass(a) && WellFormedPass(b)
    requires ParseBoardingPass(a) == ParseBoardingPass(b)
    ensures a == b
  {
    assert IsPass(a) && IsPass(b);
    Decode(a); Decode(b);
    BinaryDigits(a); BinaryDigits(b);
    ValueOfInjective(Binary(a), Binary(b), 2);
    forall k | 0 <= k < 10 ensures a[k] == b[k] {
      assert Binary(a)[k] == Binary(b)[k];
    }
  }

  /** Only the bit matters, not the letter: F and L, and B and R, may stand
      for each other, so passes of equal length are not told apart by id. */
  lemma LettersInterchangeable()
    ensures ParseBoardingPass("FB") == ParseBoardingPass("LR") == Some(1)
  {
    assert Binary("FB") == "01" == Binary("LR");
    assert Magnitude("01") == "01" && AllDigits("01", 2);
    assert "01"[..1] == "0" && "0"[..0] == "";
  }

  /** The empty pass, a stray character, or a '+' anywhere but at the front
      make the decode fail. The characters '0' and '1', and a single leading
      '+', pass through the replacements and are accepted (`Lenient`). */
  lemma Errors(s: string, k: nat)
    requires k < |s|
    requires !IsPassLetter(s[k]) && s[k] != '0' && s[k] != '1' && (k > 0 || s[k] != '+')
    ensures ParseBoardingPass("") == None
    ensures ParseBoardingPass(s) == None
  {
    var b := Binary(s);
    assert b[k] == s[k];
    var m := Magnitude(b);
    if |b| > 0 && b[0] == '+' {
      assert m[k - 1] == b[k];
      assert !IsDigit(m[k - 1], 2);
    } else {
      assert m == b;
      assert !IsDigit(m[k], 2);
    }
    assert !AllDigits(m, 2);
  }

  lemma Lenient()
    ensures ParseBoardingPass("+B") == Some(1) && ParseBoardingPass("B0") == Some(2)
  {
    assert Binary("+B") == "+1";
    assert Magnitude("+1") == "1";
    assert Binary("B0") == "10";
    assert "10"[..1] == "1";
  }

  /** The examples: BFFFBBFRRR, FFFBBBFRRR and BBFFBBFRLL. */
  lemma Example1()
    ensures ParseBoardingPass("BFFFBBFRRR") == Some(567)
  {
    assert Binary("BFFFBBFRRR") == "1000110111";
    assert Format(567, 2) == "1000110111";
    ParseFormat(567, 2, USIZE_BOUND);
  }

  lemma Example2()
    ensures ParseBoardingPass("FFFBBBFRRR") == Some(119)
  {
    var f := Format(119, 2);
    ExampleBinary2();
    assert Magnitude("000" + f) == "000" + f;
    LeadingZeros(f);
    FormatValue(119, 2);
  }

  lemma ExampleBinary2()
    ensures Binary("FFFBBBFRRR") == "000" + Format(119, 2)
  {
    assert Binary("FFFBBBFRRR") == "0001110111";
    assert Format(119, 2) == "1110111";
  }

  /** Leading zeros do not change a binary value. */
  lemma LeadingZeros(f: string)
    requires AllDigits(f, 2)
    ensures AllDigits("000" + f, 2)
    ensures ValueOf("000" + f, 2) == ValueOf(f, 2)
  {
    assert AllDigits("000", 2);
    ValueOfAppend("000", f, 2);
    assert ValueOf("000", 2) == 0 by {
      assert "000"[..2] == "00" && "00"[..1] == "0" && "0"[..0] == "";
    }
  }

  lemma Example3()
    ensures ParseBoardingPass("BBFFBBFRLL") == Some(820)
  {
    assert Binary("BBFFBBFRLL") == "1100110100";
    assert Format(820, 2) == "1100110100";
    ParseFormat(820, 2, USIZE_BOUND);
  }

  /** Every line decodes to an id inside the slot array. */
  predicate AllSeatsValid(lines: seq<string>) {
    forall k :: 0 <= k < |lines| ==>
      ParseBoardingPass(lines[k]).Some? && ParseBoardingPass(lines[k]).value < SEAT_SLOTS
  }

  /** Some line decodes to seat `s`. */
  predicate Occupied(lines: seq<string>, s: nat) {
    exists k :: 0 <= k < |lines| && ParseBoardingPass(lines[k]) == Some(s)
  }

  /** `h` is the largest id, or 0 when there are no lines. */
  predicate IsHighest(h: nat, lines: seq<string>)
    requires AllSeatsValid(lines)
  {
    (forall k :: 0 <= k < |lines| ==> ParseBoardingPass(lines[k]).value <= h)
    && (h == 0 || Occupied(lines, h))
  }

  /** Seat `s` is free and both its neighbours are taken. */
  predicate FreeBetweenOccupied(lines: seq<string>, s: nat) {
    1 <= s <= SEAT_SLOTS - 2 && Occupied(lines, s - 1) && !Occupied(lines, s) && Occupied(lines, s + 1)
  }

  /** What one more line adds to the facts the scan in `FindSeats` keeps. */
  lemma ScanStep(lines: seq<string>, i: nat, highest: nat)
    requires i < |lines| && AllSeatsValid(lines[..i]) && IsHighest(highest, lines[..i])
    requires ParseBoardingPass(lines[i]).Some? && ParseBoardingPass(lines[i]).value < SEAT_SLOTS
    ensures AllSeatsValid(lines[..i + 1])
    ensures var id := ParseBoardingPass(lines[i]).value;
      IsHighest(if id > highest then id else highest, lines[..i + 1])
    ensures forall s: nat :: Occupied(lines[..i + 1], s) <==>
      Occupied(lines[..i], s) || ParseBoardingPass(lines[i]) == Some(s)
  {
    assert lines[..i + 1] == lines[..i] + [lines[i]];
    ValidAppend(lines[..i], lines[i]);
    OccupiedAppend(lines[..i], lines[i]);
    HighestAppend(lines[..i], lines[i], highest);
  }

  lemma ValidAppend(prefix: seq<string>, line: string)
    requires AllSeatsValid(prefix)
    requires ParseBoardingPass(line).Some? && ParseBoardingPass(line).value < SEAT_SLOTS
    ensures AllSeatsValid(prefix + [line])
  {
    var next := prefix + [line];
    forall k | 0 <= k < |next|
      ensures ParseBoardingPass(next[k]).Some? && ParseBoardingPass(next[k]).value < SEAT_SLOTS
    {
      if k < |prefix| {
        assert next[k] == prefix[k];
      }
    }
  }

  lemma OccupiedAppend(prefix: seq<string>, line: string)
    ensures forall s: nat :: Occupied(prefix + [line], s) <==>
      Occupied(prefix, s) || ParseBoardingPass(line) == Some(s)
  {
    var next := prefix + [line];
    forall s: nat | Occupied(prefix, s) ensures Occupied(next, s) {
      var k :| 0 <= k < |prefix| && ParseBoardingPass(prefix[k]) == Some(s);
      assert next[k] == prefix[k];
    }
    forall s: nat | ParseBoardingPass(line) == Some(s) ensures Occupied(next, s) {
      assert next[|prefix|] == line;
    }
    forall s: nat | Occupied(next, s) && ParseBoardingPass(line) != Some(s)
      ensures Occupied(prefix, s)
    {
      var k :| 0 <= k < |next| && ParseBoardingPass(next[k]) == Some(s);
      assert k < |prefix| && prefix[k] == next[k];
    }
  }

  lemma HighestAppend(prefix: seq<string>, line: string, highest: nat)
    requires AllSeatsValid(prefix) && IsHighest(highest, prefix)
    requires ParseBoardingPass(line).Some? && ParseBoardingPass(line).value < SEAT_SLOTS
    ensures AllSeatsValid(prefix + [line])
    ensures var id := ParseBoardingPass(line).value;
      IsHighest(if id > highest then id else highest, prefix + [line])
  {
    ValidAppend(prefix, line);
    OccupiedAppend(prefix, line);
    var next := prefix + [line];
    var id := ParseBoardingPass(line).value;
    var h := if id > highest then id else highest;
    forall k | 0 <= k < |next| ensures ParseBoardingPass(next[k]).value <= h {
      if k < |prefix| {
        assert next[k] == prefix[k];
      }
    }
  }

  /** `main` after reading the input: the highest id and every seat it
      reports, in increasing order; `None` where the source panics (a line
      that does not decode, or an id outside the 1024 slots). */
  method FindSeats(input: string) returns (r: Option<(nat, seq<nat>)>)
    ensures r.None? <==> !AllSeatsValid(Lines(input))
    ensures r.Some? ==> IsHighest(r.value.0, Lines(input))
    ensures r.Some? ==> forall s: nat :: s in r.value.1 <==> FreeBetweenOccupied(Lines(input), s)
    ensures r.Some? ==> forall i, j :: 0 <= i < j < |r.value.1| ==> r.value.1[i] < r.value.1[j]
  {
    r := ScanSeats(Lines(input));
  }

  /** The scan over the lines of the input behind `FindSeats`. */
  method ScanSeats(lines: seq<string>) returns (r: Option<(nat, seq<nat>)>)
    ensures r.None? <==> !AllSeatsValid(lines)
    ensures r.Some? ==> IsHighest(r.value.0, lines)
    ensures r.Some? ==> forall s: nat :: s in r.value.1 <==> FreeBetweenOccupied(lines, s)
    ensures r.Some? ==> forall i, j :: 0 <= i < j < |r.value.1| ==> r.value.1[i] < r.value.1[j]
  {
    var highest: nat := 0;
    var occupied := new bool[SEAT_SLOTS](_ => false);
    var i := 0;
    while i < |lines|
      invariant 0 <= i <= |lines|
      invariant AllSeatsValid(lines[..i])
      invariant IsHighest(highest, lines[..i])
      invariant forall s: nat :: s < SEAT_SLOTS ==> (occupied[s] <==> Occupied(lines[..i], s))
    {
      var id := ParseBoardingPass(lines[i]);
      if id.None? || id.value >= SEAT_SLOTS {
        return None;
      }
      ScanStep(lines, i, highest);
      if id.value > highest {
        highest := id.value;
      }
      occupied[id.value] := true;
      i := i + 1;
    }
    assert lines[..i] == lines;
    var seats := FreeSeats(occupied);
    SameFreeSeats(lines, occupied);
    r := Some((highest, seats));
  }

  lemma SameFreeSeats(lines: seq<string>, occupied: array<bool>)
    requires occupied.Length == SEAT_SLOTS
    requires forall s: nat :: s < SEAT_SLOTS ==> (occupied[s] <==> Occupied(lines, s))
    ensures forall s: nat :: FreeSlotBetween(occupied, s) <==> FreeBetweenOccupied(lines, s)
  {
    forall s: nat ensures FreeSlotBetween(occupied, s) <==> FreeBetweenOccupied(lines, s) {
      if 1 <= s <= SEAT_SLOTS - 2 {
        assert occupied[s - 1] <==> Occupied(lines, s - 1);
        assert occupied[s] <==> Occupied(lines, s);
        assert occupied[s + 1] <==> Occupied(lines, s + 1);
      }
    }
  }

  /** Slot `s` is free and both neighbouring slots are taken. */
  predicate FreeSlotBetween(occupied: array<bool>, s: nat)
    reads occupied
  {
    1 <= s < occupied.Length - 1 && occupied[s - 1] && !occupied[s] && occupied[s + 1]
  }

  /** The `windows(3)` scan: every seat whose slot is free while both
      neighbouring slots are taken, in increasing order. */
  method FreeSeats(occupied: array<bool>) returns (seats: seq<nat>)
    requires occupied.Length == SEAT_SLOTS
    ensures forall s: nat :: s in seats <==> FreeSlotBetween(occupied, s)
    ensures forall i, j :: 0 <= i < j < |seats| ==> seats[i] < seats[j]
  {
    seats := [];
    var k := 0;
    while k < SEAT_SLOTS - 2
      invariant 0 <= k <= SEAT_SLOTS - 2
      invariant forall s: nat :: s in seats <==> s <= k && FreeSlotBetween(occupied, s)
      invariant forall a, b :: 0 <= a < b < |seats| ==> seats[a] < seats[b]
      invariant forall a :: 0 <= a < |seats| ==> seats[a] <= k
    {
      if occupied[k] && !occupied[k + 1] && occupied[k + 2] {
        assert FreeSlotBetween(occupied, k + 1);
        seats := seats + [k + 1];
      } else {
        assert !FreeSlotBetween(occupied, k + 1);
      }
      k := k + 1;
    }
  }
}
