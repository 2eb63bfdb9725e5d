/** Day 6: customs declaration forms. The input is a list of groups separated
    by a blank line; each line of a group is one person's answers, one letter
    per question answered "yes". */
module Day06 {
  import opened Wrappers
  import opened Text

  /** The groups of the input, as `split("\n\n")` cuts them. */
  function Groups(input: string): (r: seq<string>)
    ensures |r| >= 1
    ensures Join(r, "\n\n") == input
  {
    SplitOn(input, "\n\n")
  }

  function Sum(xs: seq<nat>): nat {
    if |xs| == 0 then 0 else Sum(xs[..|xs| - 1]) + xs[|xs| - 1]
  }

  // ---------------------------------------------------------------------
  // Part 1: questions to which anyone in the group answered "yes"

  /** The answers given in a group: every character except whitespace. */
  function Answered(group: string): set<char> {
    set c | c in group && !IsWhitespace(c)
  }

  function CharsOf(s: seq<char>): set<char> {
    set c | c in s
  }

  predicate Sorted(s: seq<char>) {
    forall i, j :: 0 <= i < j < |s| ==> s[i] <= s[j]
  }

  predicate StrictlyIncreasing(s: seq<char>) {
    forall i, j :: 0 <= i < j < |s| ==> s[i] < s[j]
  }

  function Insert(c: char, s: seq<char>): (r: seq<char>)
    requires Sorted(s)
    ensures Sorted(r)
    ensures multiset(r) == multiset(s) + multiset{c}
  {
    if |s| == 0 then [c]
    else if c <= s[0] then [c] + s
    else
      var t := Insert(c, s[1..]);
      InsertStep(c, s, t);
      [s[0]] + t
  }

  /** Putting the head of `s` back in front of `c` inserted into the rest. */
  lemma InsertStep(c: char, s: seq<char>, t: seq<char>)
    requires Sorted(s) && |s| > 0 && s[0] < c
    requires Sorted(t) && multiset(t) == multiset(s[1..]) + multiset{c}
    ensures Sorted([s[0]] + t)
    ensures multiset([s[0]] + t) == multiset(s) + multiset{c}
  {
    assert s == [s[0]] + s[1..];
    forall k | 0 <= k < |t| ensures s[0] <= t[k] {
      assert t[k] in multiset(t);
      if t[k] != c {
        assert t[k] in multiset(s[1..]);
      }
    }
  }

  /** `slice::sort` on characters: the characters in ascending order. */
  function Sort(s: seq<char>): (r: seq<char>)
    ensures Sorted(r)
    ensures multiset(r) == multiset(s)
  {
    if |s| == 0 then []
    else
      assert s == [s[0]] + s[1..];
      Insert(s[0], Sort(s[1..]))
  }

  /** `Vec::dedup`: each run of equal neighbours collapsed to one element. */
  function Dedup(s: seq<char>): (r: seq<char>)
    ensures forall i :: 0 < i < |r| ==> r[i - 1] != r[i]
    ensures CharsOf(r) == CharsOf(s)
    ensures Sorted(s) ==> StrictlyIncreasing(r)
    ensures |r| <= |s|
    ensures |s| > 0 ==> |r| > 0 && r[0] == s[0]
  {
    if |s| <= 1 then s
    else if s[0] == s[1] then
      var rest := Dedup(s[1..]);
      DedupDrop(s, rest);
      rest
    else
      var rest := Dedup(s[1..]);
      DedupKeep(s, rest);
      [s[0]] + rest
  }

  /** A head equal to its neighbour adds nothing to the deduplicated tail. */
  lemma DedupDrop(s: seq<char>, rest: seq<char>)
    requires |s| >= 2 && s[0] == s[1]
    requires CharsOf(rest) == CharsOf(s[1..])
    requires Sorted(s[1..]) ==> StrictlyIncreasing(rest)
    requires |rest| > 0 && rest[0] == s[1]
    ensures CharsOf(rest) == CharsOf(s)
    ensures Sorted(s) ==> StrictlyIncreasing(rest)
  {
    assert s == [s[0]] + s[1..];
    assert CharsOf(s) == {s[0]} + CharsOf(s[1..]);
    assert s[0] in CharsOf(s[1..]);
  }

  /** A head different from its neighbour stays in front of the deduplicated tail. */
  lemma DedupKeep(s: seq<char>, rest: seq<char>)
    requires |s| >= 2 && s[0] != s[1]
    requires forall i :: 0 < i < |rest| ==> rest[i - 1] != rest[i]
    requires CharsOf(rest) == CharsOf(s[1..])
    requires Sorted(s[1..]) ==> StrictlyIncreasing(rest)
    requires |rest| > 0 && rest[0] == s[1]
    ensures forall i :: 0 < i < |rest| + 1 ==> ([s[0]] + rest)[i - 1] != ([s[0]] + rest)[i]
    ensures CharsOf([s[0]] + rest) == CharsOf(s)
    ensures Sorted(s) ==> StrictlyIncreasing([s[0]] + rest)
  {
    assert s == [s[0]] + s[1..];
    var r := [s[0]] + rest;
    forall i | 0 < i < |r| ensures r[i - 1] != r[i] {
      if i > 1 {
        assert r[i - 1] == rest[i - 2] && r[i] == rest[i - 1];
      }
    }
    if Sorted(s) {
      forall k | 0 <= k < |rest| ensures s[0] < rest[k] {
        assert rest[k] in CharsOf(s[1..]);
      }
    }
    assert CharsOf(r) == {s[0]} + CharsOf(rest);
    assert CharsOf(s) == {s[0]} + CharsOf(s[1..]);
  }

  /** A strictly increasing sequence holds as many elements as distinct values. */
  lemma {:induction false} DistinctLength(s: seq<char>)
    requires StrictlyIncreasing(s)
    ensures |CharsOf(s)| == |s|
  {
    if |s| > 0 {
      DistinctLength(s[1..]);
      assert s == [s[0]] + s[1..];
      assert s[0] !in CharsOf(s[1..]);
      assert CharsOf(s) == {s[0]} + CharsOf(s[1..]);
    }
  }

  lemma {:induction false} CharsWithoutWhitespace(s: string)
    ensures CharsOf(WithoutWhitespace(s)) == Answered(s)
  {
    if |s| > 0 {
      CharsWithoutWhitespace(s[1..]);
      assert s == [s[0]] + s[1..];
      if IsWhitespace(s[0]) {
        assert Answered(s) == Answered(s[1..]);
      } else {
        assert Answered(s) == {s[0]} + Answered(s[1..]);
        assert CharsOf(WithoutWhitespace(s)) == {s[0]} + CharsOf(WithoutWhitespace(s[1..]));
      }
    }
  }

  /** One group's part-1 value: whitespace removed, characters sorted, then
      deduplicated, and the length of what is left. It is the number of
      distinct answers in the group. */
  method DistinctAnswers(group: string) returns (n: nat)
    ensures n == |Answered(group)|
  {
    var chars := Concat(SplitWhitespace(group));
    ConcatWords(group);
    chars := Sort(chars);
    assert CharsOf(chars) == CharsOf(WithoutWhitespace(group)) by {
      forall c ensures c in chars <==> c in WithoutWhitespace(group) {
        assert c in chars <==> c in multiset(chars);
        assert c in WithoutWhitespace(group) <==> c in multiset(WithoutWhitespace(group));
      }
    }
    chars := Dedup(chars);
    DistinctLength(chars);
    CharsWithoutWhitespace(group);
    n := |chars|;
  }

  /** Part 1: the value of every group, and their sum. */
  method Part1(input: string) returns (counts: seq<nat>, total: nat)
    ensures |counts| == |Groups(input)|
    ensures forall k :: 0 <= k < |counts| ==> counts[k] == |Answered(Groups(input)[k])|
    ensures total == Sum(counts)
  {
    var groups := Groups(input);
    counts := [];
    var k := 0;
    while k < |groups|
      invariant 0 <= k <= |groups|
      invariant |counts| == k
      invariant forall j :: 0 <= j < k ==> counts[j] == |Answered(groups[j])|
    {
      var n := DistinctAnswers(groups[k]);
      counts := counts + [n];
      k := k + 1;
    }
    total := Sum(counts);
  }

  // ---------------------------------------------------------------------
  // Part 2: questions to which everyone in the group answered "yes"

  /** 2^26 - 1: one bit per letter 'a' to 'z'. */
  const ALL_LETTERS: bv32 := 0x3FF_FFFF

  /** Whether bit `i` of `m` is set. */
  predicate BitSet(m: bv32, i: bv5) {
    (m >> i) & 1 == 1
  }

  /** The character whose bit is `i`: 'a' for bit 0, 'b' for bit 1, and so on. */
  function Letter(i: bv5): (c: char)
    ensures 'a' <= c && c as int - 'a' as int == i as int
  {
    ('a' as int + i as int) as char
  }

  /** A character for which `1 << (c as u32 - 'a' as u32)` neither underflows
      nor shifts by 32 or more, the two ways the source panics when built
      with overflow checks (Rust's default debug and test profiles). */
  predicate Shiftable(c: char) {
    'a' <= c && c as int - 'a' as int < 32
  }

  predicate AllShiftable(line: string) {
    forall k :: 0 <= k < |line| ==> Shiftable(line[k])
  }

  lemma OrBit(a: bv32, b: bv32, i: bv5)
    ensures BitSet(a | b, i) <==> BitSet(a, i) || BitSet(b, i)
  {
  }

  lemma AndBit(a: bv32, b: bv32, i: bv5)
    ensures BitSet(a & b, i) <==> BitSet(a, i) && BitSet(b, i)
  {
  }

  lemma ShiftBit(k: bv5, i: bv5)
    ensures BitSet(1 << k, i) <==> i == k
  {
  }

  lemma AllLettersBit(i: bv5)
    ensures BitSet(ALL_LETTERS, i) <==> i < 26
  {
  }

  lemma NoBit(i: bv5)
    ensures !BitSet(0, i)
  {
  }

  lemma AndBelow(a: bv32, b: bv32)
    requires a <= ALL_LETTERS
    ensures a & b <= ALL_LETTERS
  {
  }

  /** `1 << (c - 'a')`, or None where that panics. */
  function AnswerBit(c: char): (r: Option<bv32>)
    ensures r.Some? <==> Shiftable(c)
    ensures r.Some? ==> forall i: bv5 :: BitSet(r.value, i) <==> Letter(i) == c
  {
    if !Shiftable(c) then None
    else
      var k := (c as int - 'a' as int) as bv5;
      assert forall i: bv5 :: BitSet(1 << k, i) <==> Letter(i) == c by {
        forall i: bv5 ensures BitSet(1 << k, i) <==> Letter(i) == c {
          ShiftBit(k, i);
        }
      }
      Some(1 << k)
  }

  function Or(a: Option<bv32>, b: Option<bv32>): Option<bv32> {
    if a.Some? && b.Some? then Some(a.value | b.value) else None
  }

  /** One line's answers as a bit mask: the fold, from 0, that ORs in the bit
      of every character. Bit i is set exactly when letter i occurs in the
      line; None exactly when some character makes the shift panic. */
  function LineMask(line: string): (r: Option<bv32>)
    ensures r.Some? <==> AllShiftable(line)
    ensures r.Some? ==> forall i: bv5 :: BitSet(r.value, i) <==> Letter(i) in line
  {
    if |line| == 0 then
      assert forall i: bv5 :: !BitSet(0, i) by {
        forall i: bv5 ensures !BitSet(0, i) { NoBit(i); }
      }
      Some(0)
    else
      var init := line[..|line| - 1];
      var c := line[|line| - 1];
      assert line == init + [c];
      var r := Or(LineMask(init), AnswerBit(c));
      assert r.Some? ==> forall i: bv5 :: BitSet(r.value, i) <==> Letter(i) in line by {
        if r.Some? {
          forall i: bv5 ensures BitSet(r.value, i) <==> Letter(i) in line {
            OrBit(LineMask(init).value, AnswerBit(c).value, i);
          }
        }
      }
      r
  }

  /** The mask of two lines glued together is the OR of their masks. */
  lemma {:induction false} LineMaskAppend(a: string, b: string)
    ensures LineMask(a + b) == Or(LineMask(a), LineMask(b))
    decreases |b|
  {
    if |b| == 0 {
      assert a + b == a;
    } else {
      var init := b[..|b| - 1];
      var c := b[|b| - 1];
      assert b == init + [c];
      assert a + b == (a + init) + [c];
      LineMaskAppend(a, init);
      OrAssociative(LineMask(a), LineMask(init), AnswerBit(c));
    }
  }

  lemma OrAssociative(x: Option<bv32>, y: Option<bv32>, z: Option<bv32>)
    ensures Or(Or(x, y), z) == Or(x, Or(y, z))
  {
  }

  /** A line's mask does not depend on the order of its characters. */
  lemma LineMaskOrder(a: string, b: string)
    ensures LineMask(a + b) == LineMask(b + a)
  {
    LineMaskAppend(a, b);
    LineMaskAppend(b, a);
  }

  /** Nor on repeated answers. */
  lemma LineMaskRepeat(a: string)
    ensures LineMask(a + a) == LineMask(a)
  {
    LineMaskAppend(a, a);
  }

  /** The fold that ANDs a group's masks together, starting from all 26
      letter bits. */
  function AndAll(masks: seq<bv32>): (r: bv32)
    ensures r <= ALL_LETTERS
    ensures forall i: bv5 :: BitSet(r, i) <==> i < 26 && AllHave(masks, i)
  {
    if |masks| == 0 then
      assert forall i: bv5 :: BitSet(ALL_LETTERS, i) <==> i < 26 by {
        forall i: bv5 ensures BitSet(ALL_LETTERS, i) <==> i < 26 { AllLettersBit(i); }
      }
      ALL_LETTERS
    else
      var init := masks[..|masks| - 1];
      var m := masks[|masks| - 1];
      var acc := AndAll(init);
      var r := acc & m;
      AndBelow(acc, m);
      assert forall i: bv5 :: BitSet(r, i) <==> i < 26 && forall j :: 0 <= j < |masks| ==> BitSet(masks[j], i) by {
        forall i: bv5
          ensures BitSet(r, i) <==> i < 26 && forall j :: 0 <= j < |masks| ==> BitSet(masks[j], i)
        {
          AndBit(acc, m, i);
          assert forall j :: 0 <= j < |init| ==> init[j] == masks[j];
        }
      }
      r
  }

  /** The AND of a group's masks keeps only bits every member has. */
  lemma AndAllWithin(masks: seq<bv32>, j: nat, i: bv5)
    requires j < |masks|
    requires BitSet(AndAll(masks), i)
    ensures BitSet(masks[j], i)
  {
  }

  /** Letter `c` occurs in every non-empty line. */
  predicate EveryLineHas(lines: seq<string>, c: char) {
    forall k :: 0 <= k < |lines| && lines[k] != "" ==> c in lines[k]
  }

  /** The lines of a group hold only characters the shift accepts. */
  predicate ValidGroup(group: string) {
    forall k :: 0 <= k < |Split(group, '\n')| ==> AllShiftable(Split(group, '\n')[k])
  }

  /** One group's AND mask: bit i set exactly when i is below 26 and letter i
      occurs in every non-empty line of the group; None exactly when some line
      holds a character that makes the shift panic. */
  method GroupMask(group: string) returns (r: Option<bv32>)
    ensures r.Some? <==> ValidGroup(group)
    ensures r.Some? ==> r.value <= ALL_LETTERS
    ensures r.Some? ==> forall i: bv5 ::
      BitSet(r.value, i) <==> i < 26 && EveryLineHas(Split(group, '\n'), Letter(i))
  {
    r := LinesMask(Split(group, '\n'));
  }

  /** The loop over the lines of one group: the mask of every non-empty
      line, then their AND. */
  method LinesMask(lines: seq<string>) returns (r: Option<bv32>)
    ensures r.Some? <==> forall j :: 0 <= j < |lines| ==> AllShiftable(lines[j])
    ensures r.Some? ==> r.value <= ALL_LETTERS
    ensures r.Some? ==> forall i: bv5 ::
      BitSet(r.value, i) <==> i < 26 && EveryLineHas(lines, Letter(i))
  {
    var masks: seq<bv32> := [];
    var k := 0;
    while k < |lines|
      invariant 0 <= k <= |lines|
      invariant forall j :: 0 <= j < k ==> AllShiftable(lines[j])
      invariant Tracks(masks, lines[..k])
    {
      var line := lines[k];
      assert lines[..k + 1] == lines[..k] + [line];
      if line != "" {
        var mask := LineMask(line);
        if mask.None? {
          return None;
        }
        MaskStep(masks, mask.value, lines[..k], line);
        masks := masks + [mask.value];
      } else {
        SkipStep(masks, lines[..k]);
      }
      k := k + 1;
    }
    assert lines[..k] == lines;
    r := Some(AndAll(masks));
    GroupBits(masks, lines, r.value);
  }

  /** The masks collected so far record, bit by bit, the letters common to
      the non-empty lines read so far. */
  ghost predicate Tracks(masks: seq<bv32>, lines: seq<string>) {
    forall i: bv5 :: AllHave(masks, i) <==> EveryLineHas(lines, Letter(i))
  }

  lemma GroupBits(masks: seq<bv32>, lines: seq<string>, m: bv32)
    requires Tracks(masks, lines) && m == AndAll(masks)
    ensures forall i: bv5 :: BitSet(m, i) <==> i < 26 && EveryLineHas(lines, Letter(i))
  {
  }

  /** An empty line is skipped and changes nothing. */
  lemma SkipStep(masks: seq<bv32>, lines: seq<string>)
    requires Tracks(masks, lines)
    ensures Tracks(masks, lines + [""])
  {
    forall i: bv5 ensures EveryLineHas(lines + [""], Letter(i)) == EveryLineHas(lines, Letter(i)) {
      EveryLineHasAppend(lines, "", Letter(i));
    }
  }

  /** Bit `i` is set in every mask. */
  predicate AllHave(masks: seq<bv32>, i: bv5) {
    forall j :: 0 <= j < |masks| ==> BitSet(masks[j], i)
  }

  lemma EveryLineHasAppend(lines: seq<string>, line: string, c: char)
    ensures EveryLineHas(lines + [line], c) <==> EveryLineHas(lines, c) && (line != "" ==> c in line)
  {
    assert forall k :: 0 <= k < |lines| ==> (lines + [line])[k] == lines[k];
    assert (lines + [line])[|lines|] == line;
  }

  lemma MaskStep(masks: seq<bv32>, m: bv32, lines: seq<string>, line: string)
    requires line != "" && LineMask(line) == Some(m)
    requires Tracks(masks, lines)
    ensures Tracks(masks + [m], lines + [line])
  {
    forall i: bv5 ensures AllHave(masks + [m], i) <==> EveryLineHas(lines + [line], Letter(i)) {
      EveryLineHasAppend(lines, line, Letter(i));
      assert forall j :: 0 <= j < |masks| ==> (masks + [m])[j] == masks[j];
      assert (masks + [m])[|masks|] == m;
    }
  }

  /** The number of set bits among the lowest `n`. */
  function CountBits(m: bv32, n: nat): nat
    requires n <= 32
  {
    if n == 0 then 0 else CountBits(m, n - 1) + (if BitAt(m, n - 1) then 1 else 0)
  }

  /** Bit `i` of `m`, for an index given as a number. */
  predicate BitAt(m: bv32, i: nat) {
    i < 32 && BitSet(m, i as bv5)
  }

  /** The indexes below `n` of the set bits. */
  function SetBits(m: bv32, n: nat): set<nat>
    requires n <= 32
  {
    set i: nat | i < n && BitAt(m, i)
  }

  lemma {:induction false} CountBitsCardinality(m: bv32, n: nat)
    requires n <= 32
    ensures CountBits(m, n) == |SetBits(m, n)|
  {
    if n > 0 {
      CountBitsCardinality(m, n - 1);
      if BitAt(m, n - 1) {
        assert SetBits(m, n) == SetBits(m, n - 1) + {n - 1};
      } else {
        assert SetBits(m, n) == SetBits(m, n - 1);
      }
    }
  }

  /** `u32::count_ones`: the number of set bits. */
  function CountOnes(m: bv32): (r: nat)
    ensures r == |SetBits(m, 32)|
  {
    CountBitsCardinality(m, 32);
    CountBits(m, 32)
  }

  /** The questions everyone in the group answered, by letter index. */
  function Common(group: string): set<nat> {
    set i: nat | i < 26 && AnsweredByAll(group, i)
  }

  predicate AnsweredByAll(group: string, i: nat) {
    i < 32 && EveryLineHas(Split(group, '\n'), Letter(i as bv5))
  }

  /** A group mask's set bits are the group's common answers. */
  lemma CommonBits(group: string, m: bv32)
    requires forall i: bv5 :: BitSet(m, i) <==> i < 26 && EveryLineHas(Split(group, '\n'), Letter(i))
    ensures SetBits(m, 32) == Common(group)
  {
    forall i: nat | i < 32 ensures BitAt(m, i) <==> i < 26 && AnsweredByAll(group, i) {
      assert (i as bv5 < 26) == (i < 26);
    }
  }

  /** Part 2: the value of every group, and their sum; None when some line
      makes the shift panic. Each value counts the questions everyone in the
      group answered. */
  method Part2(input: string) returns (r: Option<(seq<nat>, nat)>)
    ensures r.Some? <==> forall k :: 0 <= k < |Groups(input)| ==> ValidGroup(Groups(input)[k])
    ensures r.Some? ==> |r.value.0| == |Groups(input)|
    ensures r.Some? ==> forall k :: 0 <= k < |r.value.0| ==> r.value.0[k] == |Common(Groups(input)[k])|
    ensures r.Some? ==> r.value.1 == Sum(r.value.0)
  {
    var counts := GroupCounts(Groups(input));
    if counts.None? {
      return None;
    }
    r := Some((counts.value, Sum(counts.value)));
  }

  /** The value of every group in turn; None at the first group whose lines
      make the shift panic. */
  method GroupCounts(groups: seq<string>) returns (r: Option<seq<nat>>)
    ensures r.Some? <==> forall k :: 0 <= k < |groups| ==> ValidGroup(groups[k])
    ensures r.Some? ==> |r.value| == |groups|
    ensures r.Some? ==> forall k :: 0 <= k < |groups| ==> r.value[k] == |Common(groups[k])|
  {
    var counts: seq<nat> := [];
    var k := 0;
    while k < |groups|
      invariant 0 <= k <= |groups|
      invariant |counts| == k
      invariant forall j :: 0 <= j < k ==> ValidGroup(groups[j])
      invariant forall j :: 0 <= j < k ==> counts[j] == |Common(groups[j])|
    {
      var count := GroupCount(groups[k]);
      if count.None? {
        return None;
      }
      CountsStep(groups, counts, k, count.value);
      counts := counts + [count.value];
      k := k + 1;
    }
    r := Some(counts);
  }

  lemma CountsStep(groups: seq<string>, counts: seq<nat>, k: nat, n: nat)
    requires k < |groups| && |counts| == k && n == |Common(groups[k])|
    requires forall j :: 0 <= j < k ==> counts[j] == |Common(groups[j])|
    ensures forall j :: 0 <= j < k + 1 ==> (counts + [n])[j] == |Common(groups[j])|
  {
  }

  /** One group's value: the set bits of its AND mask, which are the
      questions everyone in the group answered. */
  method GroupCount(group: string) returns (r: Option<nat>)
    ensures r.Some? <==> ValidGroup(group)
    ensures r.Some? ==> r.value == |Common(group)|
  {
    var mask := GroupMask(group);
    if mask.None? {
      return None;
    }
    CommonBits(group, mask.value);
    r := Some(CountOnes(mask.value));
  }
}

/** The worked example of the puzzle text. */
module Day06Examples {
  import opened Text
  import opened Day06

  lemma ExamplePart1()
    ensures |Answered("abc")| == 3
    ensures |Answered("a\nb\nc")| == 3
    ensures |Answered("ab\nac")| == 3
    ensures |Answered("a\na\na\na")| == 1
    ensures |Answered("b")| == 1
  {
    assert Answered("abc") == {'a', 'b', 'c'};
    assert Answered("a\nb\nc") == {'a', 'b', 'c'};
    assert Answered("ab\nac") == {'a', 'b', 'c'};
    assert Answered("a\na\na\na") == {'a'};
    assert Answered("b") == {'b'};
  }

  lemma SplitExample3()
    ensures Split("ab\nac", '\n') == ["ab", "ac"]
  {
    SplitJoin(["ab", "ac"], '\n');
    assert ["ab", "ac"][1..] == ["ac"];
    assert Join(["ac"], "\n") == "ac";
    assert Join(["ab", "ac"], "\n") == "ab" + "\n" + "ac" == "ab\nac";
  }

  lemma ExampleCommon3()
    ensures |Common("ab\nac")| == 1
  {
    SplitExample3();
    assert Common("ab\nac") == {0};
  }

  lemma ExampleCommon1()
    ensures |Common("abc")| == 3
  {
    SplitJoin(["abc"], '\n');
    assert Split("abc", '\n') == ["abc"];
    assert Common("abc") == {0, 1, 2};
  }

  lemma ExampleCommon2()
    ensures |Common("a\nb\nc")| == 0
  {
    SplitJoin(["a", "b", "c"], '\n');
    assert ["a", "b", "c"][1..] == ["b", "c"];
    assert ["b", "c"][1..] == ["c"];
    assert Join(["c"], "\n") == "c";
    assert Join(["b", "c"], "\n") == "b" + "\n" + "c" == "b\nc";
    assert Join(["a", "b", "c"], "\n") == "a" + "\n" + "b\nc" == "a\nb\nc";
    var lines := Split("a\nb\nc", '\n');
    assert lines == ["a", "b", "c"];
    forall i: nat | i < 26 ensures !AnsweredByAll("a\nb\nc", i) {
      var c := Letter(i as bv5);
      if c == 'a' {
        assert c !in lines[1];
      } else {
        assert c !in lines[0];
      }
    }
    assert Common("a\nb\nc") == {};
  }

  lemma SplitExample4()
    ensures Split("a\na\na\na", '\n') == ["a", "a", "a", "a"]
  {
    var lines := ["a", "a", "a", "a"];
    SplitJoin(lines, '\n');
    assert lines[1..] == ["a", "a", "a"];
    assert lines[2..] == ["a", "a"];
    assert lines[3..] == ["a"];
    assert Join(["a"], "\n") == "a";
    assert Join(["a", "a"], "\n") == "a" + "\n" + "a" == "a\na";
    assert Join(["a", "a", "a"], "\n") == "a" + "\n" + "a\na" == "a\na\na";
    assert Join(lines, "\n") == "a" + "\n" + "a\na\na" == "a\na\na\na";
  }

  lemma ExampleCommon4()
    ensures |Common("a\na\na\na")| == 1
  {
    SplitExample4();
    assert Common("a\na\na\na") == {0};
  }

  lemma ExampleCommon5()
    ensures |Common("b")| == 1
  {
    SplitJoin(["b"], '\n');
    assert Split("b", '\n') == ["b"];
    assert Common("b") == {1};
  }
}
