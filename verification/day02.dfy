/** Day 2: password-database entries of the form "min-max c: password",
    parsed into a policy and the password it applies to. */
module Day02 {
  import opened Wrappers
  import opened Text
  import opened Numbers

  /** The character a policy is about and the two bounds it names. The bounds
      are `u32` values and are not compared with each other. */
  datatype Policy = Policy(requiredChar: char, requiredMin: nat, requiredMax: nat)

  datatype PasswordWithPolicy = PasswordWithPolicy(policy: Policy, password: string)

  /** `char::from_str`: a string of exactly one character. */
  function ParseChar(s: string): (r: Option<char>)
    ensures r.Some? <==> |s| == 1
    ensures r.Some? ==> s == [r.value]
  {
    if |s| == 1 then Some(s[0]) else None
  }

  /** `Policy::from_string`: the text before the first ' ' is split at '-'
      into min and max, the text after it must be a single character; further
      ' ' or '-' separated parts are ignored. `None` where the source panics. */
  function PolicyFromString(s: string): (r: Option<Policy>)
    ensures r.Some? ==> r.value.requiredMin < U32_BOUND && r.value.requiredMax < U32_BOUND
  {
    var parts := Split(s, ' ');
    var range := Split(parts[0], '-');
    if |parts| < 2 || |range| < 2 then None
    else
      match (ParseChar(parts[1]), ParseU32(range[0]), ParseU32(range[1]))
      case (Some(c), Some(lo), Some(hi)) => Some(Policy(c, lo, hi))
      case _ => None
  }

  /** `PasswordWithPolicy::from_string`: the text before the first ": " is the
      policy, the text up to the next ": " (or the end) is the password. */
  function PasswordWithPolicyFromString(s: string): (r: Option<PasswordWithPolicy>)
  {
    var parts := SplitOn(s, ": ");
    if |parts| < 2 then None
    else
      match PolicyFromString(parts[0])
      case None => None
      case Some(p) => Some(PasswordWithPolicy(p, parts[1]))
  }

  /** The database notation of a policy. */
  function FormatPolicy(p: Policy): string {
    Format(p.requiredMin, 10) + "-" + Format(p.requiredMax, 10) + " " + [p.requiredChar]
  }

  /** The database notation of an entry. */
  function FormatEntry(e: PasswordWithPolicy): string {
    FormatPolicy(e.policy) + ": " + e.password
  }

  lemma SingleChar(c: char, sep: char)
    requires c != sep
    ensures Split([c], sep) == [[c]]
  {
    SplitJoin([[c]], sep);
  }

  /** Every policy whose bounds are `u32` values and whose character is not a
      space is read back from its notation; in particular min > max is
      accepted. */
  lemma {:induction false} PolicyRoundTrip(p: Policy)
    requires p.requiredMin < U32_BOUND && p.requiredMax < U32_BOUND
    requires p.requiredChar != ' '
    ensures PolicyFromString(FormatPolicy(p)) == Some(p)
  {
    var lo, hi := Format(p.requiredMin, 10), Format(p.requiredMax, 10);
    var range := lo + "-" + hi;
    DecimalHasNo(lo, ' '); DecimalHasNo(hi, ' '); DecimalHasNo(lo, '-'); DecimalHasNo(hi, '-');
    assert ' ' !in range;
    SplitFirst(range, ' ', [p.requiredChar]);
    SingleChar(p.requiredChar, ' ');
    assert FormatPolicy(p) == range + [' '] + [p.requiredChar];
    assert Split(FormatPolicy(p), ' ') == [range, [p.requiredChar]];
    SplitFirst(lo, '-', hi);
    SplitJoin([hi], '-');
    assert Split(range, '-') == [lo, hi];
    ParseFormat(p.requiredMin, 10, U32_BOUND);
    ParseFormat(p.requiredMax, 10, U32_BOUND);
  }

  /** The ways a policy is rejected: no ' ' (no character part), no '-' in the
      range, a character part that is not exactly one character, or a bound
      that is not a `u32`. */
  lemma {:induction false} PolicyErrors(lo: string, hi: string, field: string)
    requires ' ' !in lo && ' ' !in hi && ' ' !in field && '-' !in lo && '-' !in hi
    ensures PolicyFromString(lo + "-" + hi) == None
    ensures PolicyFromString(lo + " " + field) == None
    ensures |field| != 1 ==> PolicyFromString(lo + "-" + hi + " " + field) == None
    ensures ParseU32(lo).None? ==> PolicyFromString(lo + "-" + hi + " " + field) == None
    ensures ParseU32(hi).None? ==> PolicyFromString(lo + "-" + hi + " " + field) == None
  {
    var range := lo + "-" + hi;
    RangeSplits(lo, hi);
    SplitJoin([lo], '-');
    SpaceSplit(lo, field);
    SpaceSplit(range, field);
  }

  lemma RangeSplits(lo: string, hi: string)
    requires ' ' !in lo && ' ' !in hi && '-' !in lo && '-' !in hi
    ensures Split(lo + "-" + hi, ' ') == [lo + "-" + hi]
    ensures Split(lo + "-" + hi, '-') == [lo, hi]
  {
    var range := lo + "-" + hi;
    assert ' ' !in range;
    SplitJoin([range], ' ');
    SplitFirst(lo, '-', hi);
    SplitJoin([hi], '-');
    assert range == lo + ['-'] + hi;
  }

  lemma SpaceSplit(a: string, field: string)
    requires ' ' !in a && ' ' !in field
    ensures Split(a + " " + field, ' ') == [a, field]
  {
    SplitFirst(a, ' ', field);
    SplitJoin([field], ' ');
    assert a + " " + field == a + [' '] + field;
  }

  lemma PolicyHasNoSeparator(p: Policy)
    ensures SeparatorFree(FormatPolicy(p), ": ")
  {
    var s := FormatPolicy(p);
    var lo, hi := Format(p.requiredMin, 10), Format(p.requiredMax, 10);
    DecimalHasNo(lo, ':'); DecimalHasNo(hi, ':');
    var init := lo + "-" + hi + " ";
    assert s == init + [p.requiredChar];
    assert ':' !in init;
    var t := s + ": ";
    forall j: nat | j < |s| ensures !OccursAt(t, ": ", j) {
      assert t[j..j + 2] == [t[j], t[j + 1]];
      if j == |s| - 1 {
        assert t[j + 1] == ':';
      } else {
        assert t[j] == init[j];
      }
    }
  }

  /** An entry is read back from its notation, as long as the password does
      not itself contain ": ". */
  lemma {:induction false} EntryRoundTrip(e: PasswordWithPolicy)
    requires e.policy.requiredMin < U32_BOUND && e.policy.requiredMax < U32_BOUND
    requires e.policy.requiredChar != ' '
    requires SeparatorFree(e.password, ": ")
    ensures PasswordWithPolicyFromString(FormatEntry(e)) == Some(e)
  {
    PolicyHasNoSeparator(e.policy);
    SplitOnFirst(FormatPolicy(e.policy), ": ", e.password);
    SplitOnWhole(e.password, ": ");
    PolicyRoundTrip(e.policy);
  }

  /** Text after a second ": " is dropped: the password is only the segment
      between the first and the second separator. */
  lemma {:induction false} SecondSeparatorDropped(policy: string, password: string, rest: string)
    requires SeparatorFree(policy, ": ") && SeparatorFree(password, ": ")
    ensures PasswordWithPolicyFromString(policy + ": " + password + ": " + rest)
         == PasswordWithPolicyFromString(policy + ": " + password)
  {
    SplitOnFirst(policy, ": ", password + ": " + rest);
    Assoc(policy + ": ", password + ": ", rest);
    Assoc(policy + ": ", password, ": ");
    SplitOnFirst(password, ": ", rest);
    SplitOnFirst(policy, ": ", password);
    SplitOnWhole(password, ": ");
  }

  /** Without a ": " there is no password part and the source panics. */
  lemma MissingPassword(s: string)
    requires SeparatorFree(s, ": ")
    ensures PasswordWithPolicyFromString(s) == None
  {
    SplitOnWhole(s, ": ");
  }

  /** The examples: "1-3 a" and the three database lines. */
  lemma ExamplePolicy()
    ensures PolicyFromString("1-3 a") == Some(Policy('a', 1, 3))
  {
    assert Format(1, 10) == "1" && Format(3, 10) == "3";
    assert FormatPolicy(Policy('a', 1, 3)) == "1-3 a";
    PolicyRoundTrip(Policy('a', 1, 3));
  }

  lemma ExampleLine1()
    ensures PasswordWithPolicyFromString("1-3 a: abcde")
         == Some(PasswordWithPolicy(Policy('a', 1, 3), "abcde"))
  {
    var e := PasswordWithPolicy(Policy('a', 1, 3), "abcde");
    assert Format(1, 10) == "1" && Format(3, 10) == "3";
    assert FormatEntry(e) == "1-3 a: abcde";
    ExampleEntry(e);
  }

  lemma ExampleLine2()
    ensures PasswordWithPolicyFromString("1-3 b: cdefg")
         == Some(PasswordWithPolicy(Policy('b', 1, 3), "cdefg"))
  {
    var e := PasswordWithPolicy(Policy('b', 1, 3), "cdefg");
    assert Format(1, 10) == "1" && Format(3, 10) == "3";
    assert FormatEntry(e) == "1-3 b: cdefg";
    ExampleEntry(e);
  }

  lemma ExampleLine3()
    ensures PasswordWithPolicyFromString("2-9 c: ccccccccc")
         == Some(PasswordWithPolicy(Policy('c', 2, 9), "ccccccccc"))
  {
    var e := PasswordWithPolicy(Policy('c', 2, 9), "ccccccccc");
    assert Format(2, 10) == "2" && Format(9, 10) == "9";
    assert FormatEntry(e) == "2-9 c: ccccccccc";
    ExampleEntry(e);
  }

  lemma ExampleEntry(e: PasswordWithPolicy)
    requires e.policy.requiredMin < 10 && e.policy.requiredMax < 10
    requires e.policy.requiredChar != ' ' && ':' !in e.password
    ensures PasswordWithPolicyFromString(FormatEntry(e)) == Some(e)
  {
    forall j: nat | j < |e.password| ensures !OccursAt(e.password + ": ", ": ", j) {
      var t := e.password + ": ";
      assert t[j..j + 2][0] == t[j] == e.password[j];
    }
    EntryRoundTrip(e);
  }
}
