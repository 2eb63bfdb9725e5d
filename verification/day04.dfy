/** Day 4: passports given as whitespace-separated `key:value` fields,
    blank-line separated, checked first for the presence of the required
    fields and then against a validation rule per field. */
module Day04 {
  import opened Wrappers
  import opened Text
  import opened Numbers

  /** One passport: every field is optional. */
  datatype Passport = Passport(
    birthYear: Option<string>,
    issueYear: Option<string>,
    expirationYear: Option<string>,
    height: Option<string>,
    hairColor: Option<string>,
    eyeColor: Option<string>,
    passportId: Option<string>,
    countryId: Option<string>)

  const NO_FIELDS := Passport(None, None, None, None, None, None, None, None)

  /** The eight fields a token can name. */
  datatype Key = BirthYear | IssueYear | ExpirationYear | Height | HairColor | EyeColor | PassportId | CountryId

  /** The three-letter name of a key. */
  function Name(key: Key): string {
    match key
    case BirthYear => "byr"
    case IssueYear => "iyr"
    case ExpirationYear => "eyr"
    case Height => "hgt"
    case HairColor => "hcl"
    case EyeColor => "ecl"
    case PassportId => "pid"
    case CountryId => "cid"
  }

  /** The `match key` of `from_string`: the key a name stands for; None for
      any other name, where the source panics. */
  function KeyOf(name: string): Option<Key> {
    match name
    case "byr" => Some(BirthYear)
    case "iyr" => Some(IssueYear)
    case "eyr" => Some(ExpirationYear)
    case "hgt" => Some(Height)
    case "hcl" => Some(HairColor)
    case "ecl" => Some(EyeColor)
    case "pid" => Some(PassportId)
    case "cid" => Some(CountryId)
    case _ => None
  }

  /** Names and keys correspond one to one. */
  lemma KeyNames(key: Key, name: string)
    ensures KeyOf(Name(key)) == Some(key)
    ensures KeyOf(name) == Some(key) ==> name == Name(key)
  {
  }

  /** The field a key names. */
  function Field(p: Passport, key: Key): Option<string> {
    match key
    case BirthYear => p.birthYear
    case IssueYear => p.issueYear
    case ExpirationYear => p.expirationYear
    case Height => p.height
    case HairColor => p.hairColor
    case EyeColor => p.eyeColor
    case PassportId => p.passportId
    case CountryId => p.countryId
  }

  /** One arm of the `match key`: the field the key names is set to the
      value and every other field is kept. */
  function Assign(p: Passport, key: Key, value: string): (r: Passport)
    ensures Field(r, key) == Some(value)
    ensures forall other: Key :: other != key ==> Field(r, other) == Field(p, other)
  {
    match key
    case BirthYear => p.(birthYear := Some(value))
    case IssueYear => p.(issueYear := Some(value))
    case ExpirationYear => p.(expirationYear := Some(value))
    case Height => p.(height := Some(value))
    case HairColor => p.(hairColor := Some(value))
    case EyeColor => p.(eyeColor := Some(value))
    case PassportId => p.(passportId := Some(value))
    case CountryId => p.(countryId := Some(value))
  }

  /** A token split at ':' into exactly a name and a value; None where the
      source's length assertion fails. */
  function Pair(token: string): Option<(string, string)> {
    var parts := Split(token, ':');
    if |parts| == 2 then Some((parts[0], parts[1])) else None
  }

  /** The token `name:value` splits back into its name and value. */
  lemma PairOf(name: string, value: string)
    requires ':' !in name && ':' !in value
    ensures Pair(name + ":" + value) == Some((name, value))
  {
    assert name + ":" + value == Join([name, value], [':']);
    SplitJoin([name, value], ':');
  }

  /** The key and value a token sets; None where `from_string` panics. */
  function Entry(token: string): Option<(Key, string)> {
    match Pair(token)
    case None => None
    case Some(pair) =>
      match KeyOf(pair.0)
      case None => None
      case Some(key) => Some((key, pair.1))
  }

  /** `key:value` is the entry for that key and value. */
  lemma EntryOf(key: Key, value: string)
    requires ':' !in value
    ensures Entry(Name(key) + ":" + value) == Some((key, value))
  {
    PairOf(Name(key), value);
    KeyNames(key, Name(key));
  }

  /** The entry of every token, in order. */
  function Entries(tokens: seq<string>): (entries: seq<Option<(Key, string)>>)
    ensures |entries| == |tokens|
  {
    MapSeq(Entry, tokens)
  }

  /** Every token is a `name:value` pair with a known name. */
  predicate AllSome(entries: seq<Option<(Key, string)>>) {
    forall k :: 0 <= k < |entries| ==> entries[k].Some?
  }

  /** Whether an entry sets the given key. */
  predicate Sets(entry: Option<(Key, string)>, key: Key) {
    entry.Some? && entry.value.0 == key
  }

  /** The value the last entry setting this key carries, if any. */
  function LastValue(entries: seq<Option<(Key, string)>>, key: Key): Option<string> {
    if |entries| == 0 then None
    else if Sets(entries[|entries| - 1], key) then Some(entries[|entries| - 1].value.1)
    else LastValue(entries[..|entries| - 1], key)
  }

  /** Entry `i` sets `key` to `value` and no later entry sets `key` again. */
  predicate SetLastAt(entries: seq<Option<(Key, string)>>, key: Key, value: string, i: nat) {
    i < |entries| && entries[i] == Some((key, value)) &&
    forall j :: i < j < |entries| ==> !Sets(entries[j], key)
  }

  /** A repeated key overwrites the value an earlier token gave it: the
      field ends with the value of the key's last token. */
  lemma {:induction false} LastValueWins(entries: seq<Option<(Key, string)>>, key: Key, value: string, i: nat)
    requires SetLastAt(entries, key, value, i)
    ensures LastValue(entries, key) == Some(value)
  {
    var n := |entries| - 1;
    if i < n {
      var init := entries[..n];
      assert !Sets(entries[n], key);
      forall j | i < j < n ensures !Sets(init[j], key) {
        assert !Sets(entries[j], key);
      }
      assert SetLastAt(init, key, value, i);
      LastValueWins(init, key, value, i);
    }
  }

  /** A field that ends with a value got it from the key's last token, and
      a field stays None exactly when no token sets its key. */
  lemma {:induction false} LastValueFrom(entries: seq<Option<(Key, string)>>, key: Key)
    ensures LastValue(entries, key).Some? ==>
      exists i: nat :: SetLastAt(entries, key, LastValue(entries, key).value, i)
    ensures LastValue(entries, key).None? <==> forall j :: 0 <= j < |entries| ==> !Sets(entries[j], key)
  {
    if |entries| > 0 {
      var n := |entries| - 1;
      var init := entries[..n];
      LastValueFrom(init, key);
      if Sets(entries[n], key) {
        assert SetLastAt(entries, key, LastValue(entries, key).value, n);
      } else {
        if LastValue(init, key).Some? {
          var i: nat :| SetLastAt(init, key, LastValue(init, key).value, i);
          forall j | i < j < |entries| ensures !Sets(entries[j], key) {
            if j < n { assert !Sets(init[j], key); }
          }
          assert SetLastAt(entries, key, LastValue(init, key).value, i);
        } else {
          forall j | 0 <= j < |entries| ensures !Sets(entries[j], key) {
            if j < n { assert !Sets(init[j], key); }
          }
        }
      }
    }
  }

  /** The passport the entries describe. */
  function PassportOf(entries: seq<Option<(Key, string)>>): (p: Passport)
    ensures forall key :: Field(p, key) == LastValue(entries, key)
  {
    Passport(
      LastValue(entries, BirthYear), LastValue(entries, IssueYear), LastValue(entries, ExpirationYear),
      LastValue(entries, Height), LastValue(entries, HairColor), LastValue(entries, EyeColor),
      LastValue(entries, PassportId), LastValue(entries, CountryId))
  }

  /** `Passport::from_string` as a value: None where it panics. */
  function ParsePassport(text: string): Option<Passport> {
    var entries := Entries(SplitWhitespace(text));
    if AllSome(entries) then Some(PassportOf(entries)) else None
  }

  /** `Passport::from_string`: start with no fields and let every token set
      the field of its key. */
  method FromString(text: string) returns (r: Option<Passport>)
    ensures r == ParsePassport(text)
  {
    r := FromTokens(SplitWhitespace(text));
  }

  /** The loop of `from_string` over the whitespace-separated tokens. */
  method FromTokens(tokens: seq<string>) returns (r: Option<Passport>)
    ensures r.Some? <==> AllSome(Entries(tokens))
    ensures r.Some? ==> r.value == PassportOf(Entries(tokens))
  {
    ghost var entries := Entries(tokens);
    var p := NO_FIELDS;
    var i := 0;
    while i < |tokens|
      invariant 0 <= i <= |tokens|
      invariant AllSome(entries[..i])
      invariant p == PassportOf(entries[..i])
    {
      MapSeqAt(Entry, tokens, i);
      var parts := Split(tokens[i], ':');
      if |parts| != 2 {
        assert entries[i].None?;
        return None;
      }
      var key := KeyOf(parts[0]);
      if key.None? {
        assert entries[i].None?;
        return None;
      }
      assert entries[i] == Some((key.value, parts[1]));
      EntryStep(entries, i, p);
      p := Assign(p, key.value, parts[1]);
      i := i + 1;
    }
    assert entries[..i] == entries;
    r := Some(p);
  }

  /** One more entry assigns its field. */
  lemma EntryStep(entries: seq<Option<(Key, string)>>, i: nat, p: Passport)
    requires i < |entries| && AllSome(entries[..i]) && entries[i].Some?
    requires p == PassportOf(entries[..i])
    ensures AllSome(entries[..i + 1])
    ensures PassportOf(entries[..i + 1]) == Assign(p, entries[i].value.0, entries[i].value.1)
  {
    var next := entries[..i + 1];
    assert next[..i] == entries[..i];
    assert next[i] == entries[i];
    var q := Assign(p, entries[i].value.0, entries[i].value.1);
    forall key ensures Field(PassportOf(next), key) == Field(q, key) {
    }
    FieldsEqual(PassportOf(next), q);
  }

  /** Passports with the same fields are equal. */
  lemma FieldsEqual(p: Passport, q: Passport)
    requires forall key :: Field(p, key) == Field(q, key)
    ensures p == q
  {
    assert Field(p, BirthYear) == Field(q, BirthYear);
    assert Field(p, IssueYear) == Field(q, IssueYear);
    assert Field(p, ExpirationYear) == Field(q, ExpirationYear);
    assert Field(p, Height) == Field(q, Height);
    assert Field(p, HairColor) == Field(q, HairColor);
    assert Field(p, EyeColor) == Field(q, EyeColor);
    assert Field(p, PassportId) == Field(q, PassportId);
    assert Field(p, CountryId) == Field(q, CountryId);
  }

  /** The token that writes one field. */
  function Token(key: Key, value: string): string {
    Name(key) + ":" + value
  }

  /** The tokens that write out the present fields of `p`, in the order of
      `keys`. */
  function TokensFor(p: Passport, keys: seq<Key>): seq<string> {
    if |keys| == 0 then []
    else
      var key := keys[|keys| - 1];
      TokensFor(p, keys[..|keys| - 1]) + (if Field(p, key).Some? then [Token(key, Field(p, key).value)] else [])
  }

  /** The entries those tokens stand for. */
  function EntriesFor(p: Passport, keys: seq<Key>): seq<Option<(Key, string)>> {
    if |keys| == 0 then []
    else
      var key := keys[|keys| - 1];
      EntriesFor(p, keys[..|keys| - 1]) + (if Field(p, key).Some? then [Some((key, Field(p, key).value))] else [])
  }

  /** A value a token can carry and give back: no whitespace, no ':'. */
  predicate Writable(value: string) {
    ':' !in value && forall k :: 0 <= k < |value| ==> !IsWhitespace(value[k])
  }

  predicate AllWritable(p: Passport) {
    forall key :: Field(p, key).Some? ==> Writable(Field(p, key).value)
  }

  predicate Distinct(keys: seq<Key>) {
    forall i, j :: 0 <= i < j < |keys| ==> keys[i] != keys[j]
  }

  /** A passport written out as `key:value` tokens, one space apart, in the
      order of `keys`. */
  function Render(p: Passport, keys: seq<Key>): string {
    Join(TokensFor(p, keys), " ")
  }

  /** Writing a passport out and parsing it back gives the passport again,
      whatever the order of its fields, when no value holds whitespace or
      ':' and every present field is written once. */
  lemma RenderRoundTrip(p: Passport, keys: seq<Key>)
    requires AllWritable(p) && Distinct(keys)
    requires forall key :: Field(p, key).Some? ==> key in keys
    ensures ParsePassport(Render(p, keys)) == Some(p)
  {
    var tokens := TokensFor(p, keys);
    TokensAreWords(p, keys);
    SplitWords(tokens, ' ');
    TokensParse(p, keys);
    var entries := EntriesFor(p, keys);
    forall key ensures Field(PassportOf(entries), key) == Field(p, key) {
      LastValueFor(p, keys, key);
    }
    FieldsEqual(PassportOf(entries), p);
  }

  /** The tokens of `p` laid out over lines: line `i` writes the fields of
      `layout[i]`, in that order. */
  function TokenLines(p: Passport, layout: seq<seq<Key>>): (lines: seq<seq<string>>)
    ensures |lines| == |layout|
  {
    if |layout| == 0 then [] else [TokensFor(p, layout[0])] + TokenLines(p, layout[1..])
  }

  lemma {:induction false} TokensForAppend(p: Passport, a: seq<Key>, b: seq<Key>)
    ensures TokensFor(p, a + b) == TokensFor(p, a) + TokensFor(p, b)
    decreases |b|
  {
    if |b| == 0 {
      assert a + b == a;
    } else {
      var init := b[..|b| - 1];
      assert (a + b)[..|a + b| - 1] == a + init;
      assert (a + b)[|a + b| - 1] == b[|b| - 1];
      TokensForAppend(p, a, init);
    }
  }

  lemma {:induction false} FlattenTokenLines(p: Passport, layout: seq<seq<Key>>)
    ensures Flatten(TokenLines(p, layout)) == TokensFor(p, Flatten(layout))
  {
    if |layout| > 0 {
      FlattenTokenLines(p, layout[1..]);
      TokensForAppend(p, layout[0], Flatten(layout[1..]));
    }
  }

  /** A passport written out over lines, any number of tokens to a line, as
      the puzzle input does, reads back as the passport; the text holds no
      blank line, so it is one passport of the input. */
  lemma LayoutRoundTrip(p: Passport, layout: seq<seq<Key>>)
    requires AllWritable(p) && Distinct(Flatten(layout))
    requires forall key :: Field(p, key).Some? ==> key in Flatten(layout)
    requires |layout| > 0 && forall i :: 0 <= i < |layout| ==> TokensFor(p, layout[i]) != []
    ensures ParsePassport(LinesOfWords(TokenLines(p, layout))) == Some(p)
    ensures SeparatorFree(LinesOfWords(TokenLines(p, layout)), "\n\n")
  {
    var lines := TokenLines(p, layout);
    var keys := Flatten(layout);
    assert forall i :: 0 <= i < |layout| ==> lines[i] == TokensFor(p, layout[i]) by {
      forall i | 0 <= i < |layout| ensures lines[i] == TokensFor(p, layout[i]) {
        LineAt(p, layout, i);
      }
    }
    FlattenTokenLines(p, layout);
    TokensAreWords(p, keys);
    FlattenWords(lines);
    SplitLinesOfWords(lines);
    SplitWords(TokensFor(p, keys), ' ');
    RenderRoundTrip(p, keys);
    LinesOfWordsSeparated(lines);
  }

  lemma {:induction false} LineAt(p: Passport, layout: seq<seq<Key>>, i: nat)
    requires i < |layout|
    ensures TokenLines(p, layout)[i] == TokensFor(p, layout[i])
  {
    if i > 0 {
      LineAt(p, layout[1..], i - 1);
    }
  }

  lemma {:induction false} TokensAreWords(p: Passport, keys: seq<Key>)
    requires AllWritable(p)
    ensures forall k :: 0 <= k < |TokensFor(p, keys)| ==> IsWord(TokensFor(p, keys)[k])
  {
    if |keys| > 0 {
      var key := keys[|keys| - 1];
      TokensAreWords(p, keys[..|keys| - 1]);
      if Field(p, key).Some? {
        var t := Token(key, Field(p, key).value);
        assert Writable(Field(p, key).value);
        assert forall k :: 3 < k < |t| ==> t[k] == Field(p, key).value[k - 4];
        assert t[..3] == Name(key) && t[3] == ':';
      }
    }
  }

  /** The tokens parse into the entries, every one of them known. */
  lemma {:induction false} TokensParse(p: Passport, keys: seq<Key>)
    requires AllWritable(p)
    ensures Entries(TokensFor(p, keys)) == EntriesFor(p, keys)
    ensures AllSome(EntriesFor(p, keys))
  {
    if |keys| > 0 {
      var key := keys[|keys| - 1];
      var init := keys[..|keys| - 1];
      TokensParse(p, init);
      var tokens := TokensFor(p, init);
      if Field(p, key).Some? {
        EntryOf(key, Field(p, key).value);
        var all := tokens + [Token(key, Field(p, key).value)];
        assert all[..|tokens|] == tokens;
      } else {
        assert tokens + [] == tokens;
      }
    }
  }

  /** Entries written from distinct keys leave each listed field with its
      value and each other field empty. */
  lemma {:induction false} LastValueFor(p: Passport, keys: seq<Key>, key: Key)
    requires Distinct(keys)
    ensures LastValue(EntriesFor(p, keys), key) == if key in keys then Field(p, key) else None
  {
    if |keys| > 0 {
      var last := keys[|keys| - 1];
      var init := keys[..|keys| - 1];
      LastValueFor(p, init, key);
      assert keys == init + [last];
      var before := EntriesFor(p, init);
      if Field(p, last).Some? {
        var all := before + [Some((last, Field(p, last).value))];
        assert all[..|before|] == before;
      } else {
        assert before + [] == before;
      }
      if key == last {
        assert key !in init;
      }
    }
  }

  /** Part 1: the seven required fields are present; `cid` is optional. */
  predicate IsValidPart1(p: Passport) {
    p.birthYear.Some? && p.issueYear.Some? && p.expirationYear.Some? && p.height.Some?
    && p.hairColor.Some? && p.eyeColor.Some? && p.passportId.Some?
  }

  /** Part 1 asks for every key but the country id, which never matters. */
  lemma Part1Keys(p: Passport, cid: Option<string>)
    ensures IsValidPart1(p) <==> forall key :: key != CountryId ==> Field(p, key).Some?
    ensures IsValidPart1(p.(countryId := cid)) == IsValidPart1(p)
  {
    if !IsValidPart1(p) {
      if p.birthYear.None? { assert Field(p, BirthYear).None?; }
      else if p.issueYear.None? { assert Field(p, IssueYear).None?; }
      else if p.expirationYear.None? { assert Field(p, ExpirationYear).None?; }
      else if p.height.None? { assert Field(p, Height).None?; }
      else if p.hairColor.None? { assert Field(p, HairColor).None?; }
      else if p.eyeColor.None? { assert Field(p, EyeColor).None?; }
      else { assert Field(p, PassportId).None?; }
    }
  }

  /** A year field: present, a `u32`, and within the inclusive range. No
      digit count is checked. */
  predicate YearIn(field: Option<string>, lo: nat, hi: nat) {
    match field
    case None => false
    case Some(s) =>
      match ParseU32(s)
      case None => false
      case Some(n) => lo <= n <= hi
  }

  predicate ValidBirthYear(p: Passport) {
    YearIn(p.birthYear, 1920, 2002)
  }

  predicate ValidIssueYear(p: Passport) {
    YearIn(p.issueYear, 2010, 2020)
  }

  predicate ValidExpirationYear(p: Passport) {
    YearIn(p.expirationYear, 2020, 2030)
  }

  /** A year written in decimal is accepted exactly when it lies in the
      range; with a leading zero or '+' it is accepted all the same. */
  lemma YearFormat(n: nat, lo: nat, hi: nat)
    requires n < U32_BOUND
    ensures YearIn(Some(Format(n, 10)), lo, hi) <==> lo <= n <= hi
    ensures YearIn(Some("0" + Format(n, 10)), lo, hi) <==> lo <= n <= hi
    ensures YearIn(Some("+" + Format(n, 10)), lo, hi) <==> lo <= n <= hi
  {
    var s := Format(n, 10);
    ParseFormat(n, 10, U32_BOUND);
    FormatValue(n, 10);
    var z := "0" + s;
    assert Magnitude(z) == z;
    assert z[..|z| - 1] == "0" + s[..|s| - 1] by {
      assert |s| > 0;
    }
    LeadingZero(s);
    assert Magnitude("+" + s) == s;
  }

  /** A leading zero does not change the value of a digit string. */
  lemma {:induction false} LeadingZero(s: string)
    requires AllDigits(s, 10)
    ensures AllDigits("0" + s, 10) && ValueOf("0" + s, 10) == ValueOf(s, 10)
  {
    var z := "0" + s;
    if |s| > 0 {
      LeadingZero(s[..|s| - 1]);
      assert z[..|z| - 1] == "0" + s[..|s| - 1];
      assert z[|z| - 1] == s[|s| - 1];
    } else {
      assert z[..0] == "";
    }
  }

  /** `is_valid_height`: the last two bytes are the unit and the rest the
      number, which counts as 0 when it does not parse. A field shorter than
      two bytes makes the slice panic (None). */
  function ValidHeight(field: Option<string>): Option<bool> {
    match field
    case None => Some(false)
    case Some(s) =>
      if |s| < 2 then None
      else
        var unit := s[|s| - 2..];
        var value := match ParseU32(s[..|s| - 2]) case Some(n) => n case None => 0;
        if unit == "cm" then Some(150 <= value <= 193)
        else if unit == "in" then Some(59 <= value <= 76)
        else Some(false)
  }

  /** A decimal number followed by its unit is a valid height exactly when
      it lies in the unit's range. */
  lemma HeightFormat(n: nat)
    requires n < U32_BOUND
    ensures ValidHeight(Some(Format(n, 10) + "cm")) == Some(150 <= n <= 193)
    ensures ValidHeight(Some(Format(n, 10) + "in")) == Some(59 <= n <= 76)
  {
    ParseFormat(n, 10, U32_BOUND);
    var s := Format(n, 10);
    var cm, inch := s + "cm", s + "in";
    assert cm[..|cm| - 2] == s && cm[|cm| - 2..] == "cm";
    assert inch[..|inch| - 2] == s && inch[|inch| - 2..] == "in";
  }

  /** A valid height always has a number that parses, since 0 lies in
      neither range; every field of at least two bytes gets an answer. */
  lemma HeightShape(s: string)
    ensures ValidHeight(Some(s)).None? <==> |s| < 2
    ensures ValidHeight(Some(s)) == Some(true) ==>
      ParseU32(s[..|s| - 2]).Some? && (s[|s| - 2..] == "cm" || s[|s| - 2..] == "in")
  {
  }

  /** `is_valid_hair_color`: the text after the first '#' has six bytes and
      parses in base 16. */
  predicate ValidHairColor(field: Option<string>) {
    match field
    case None => false
    case Some(s) =>
      match Find(s, "#")
      case None => false
      case Some(i) =>
        var digits := s[i + 1..];
        |digits| == 6 && ParseUnsigned(digits, 16, U32_BOUND).Some?
  }

  /** Six bytes after the first '#' are accepted exactly when they are hex
      digits, possibly behind one '+': six hex digits always fit a `u32`. */
  lemma HairColorDigits(s: string)
    ensures ValidHairColor(Some(s)) <==>
      Find(s, "#").Some? && |s[Find(s, "#").value + 1..]| == 6 &&
      var digits := s[Find(s, "#").value + 1..];
      AllDigits(Magnitude(digits), 16) && |Magnitude(digits)| > 0
  {
    var i := Find(s, "#");
    if i.Some? && |s[i.value + 1..]| == 6 {
      var m := Magnitude(s[i.value + 1..]);
      if AllDigits(m, 16) {
        ValueBound(m, 16);
        PowMonotone(16, |m|, 6);
        assert Pow(16, 6) == 16777216;
      }
    }
  }

  lemma {:induction false} PowMonotone(b: nat, m: nat, n: nat)
    requires b >= 1 && m <= n
    ensures Pow(b, m) <= Pow(b, n)
    decreases n
  {
    if m < n {
      PowMonotone(b, m, n - 1);
      MulMonotone(1, b, Pow(b, n - 1));
    }
  }

  /** A '#' followed by six hex digits is a valid hair colour. */
  lemma HairColorFormat(digits: string)
    requires |digits| == 6 && AllDigits(digits, 16)
    ensures ValidHairColor(Some("#" + digits))
  {
    var s := "#" + digits;
    assert OccursAt(s, "#", 0);
    FindFirst(s, "#", 0);
    assert s[1..] == digits;
    assert IsDigit(digits[0], 16);
    HairColorDigits(s);
  }

  /** The seven accepted eye colours. */
  const EYE_COLORS: seq<string> := ["amb", "blu", "brn", "gry", "grn", "hzl", "oth"]

  predicate ValidEyeColor(field: Option<string>) {
    field.Some? && field.value in EYE_COLORS
  }

  /** `is_valid_passport_id`: nine characters that parse as a `u32`. */
  predicate ValidPassportId(field: Option<string>) {
    field.Some? && |field.value| == 9 && ParseU32(field.value).Some?
  }

  /** Nine characters are a valid passport id exactly when they are decimal
      digits, possibly behind one '+': nine digits always fit a `u32`. */
  lemma PassportIdDigits(s: string)
    ensures ValidPassportId(Some(s)) <==>
      |s| == 9 && |Magnitude(s)| > 0 && AllDigits(Magnitude(s), 10)
  {
    var m := Magnitude(s);
    if |s| == 9 && AllDigits(m, 10) {
      ValueBound(m, 10);
      PowMonotone(10, |m|, 9);
      assert Pow(10, 9) == 1000000000;
    }
  }

  /** `is_valid_part2`: the validators in the order byr, iyr, eyr, hgt,
      hcl, ecl, pid, stopping at the first that fails. None where the height
      check panics. */
  function IsValidPart2(p: Passport): Option<bool> {
    if !ValidBirthYear(p) then Some(false)
    else if !ValidIssueYear(p) then Some(false)
    else if !ValidExpirationYear(p) then Some(false)
    else
      match ValidHeight(p.height)
      case None => None
      case Some(false) => Some(false)
      case Some(true) =>
        if !ValidHairColor(p.hairColor) then Some(false)
        else if !ValidEyeColor(p.eyeColor) then Some(false)
        else Some(ValidPassportId(p.passportId))
  }

  /** Part 2 holds exactly when all seven validators do, and then part 1
      holds too; it panics only on a short height behind three valid years. */
  lemma Part2Conjunction(p: Passport)
    ensures IsValidPart2(p) == Some(true) <==>
      ValidBirthYear(p) && ValidIssueYear(p) && ValidExpirationYear(p) &&
      ValidHeight(p.height) == Some(true) && ValidHairColor(p.hairColor) &&
      ValidEyeColor(p.eyeColor) && ValidPassportId(p.passportId)
    ensures IsValidPart2(p) == Some(true) ==> IsValidPart1(p)
    ensures IsValidPart2(p).None? <==>
      ValidBirthYear(p) && ValidIssueYear(p) && ValidExpirationYear(p) &&
      p.height.Some? && |p.height.value| < 2
  {
  }

  /** What one passport contributes to the two counts; None where the
      source panics. */
  function Verdict(text: string): Option<(bool, bool)> {
    match ParsePassport(text)
    case None => None
    case Some(p) =>
      match IsValidPart2(p)
      case None => None
      case Some(v) => Some((IsValidPart1(p), v))
  }

  /** A verdict that counts for part 2 counts for part 1 too. */
  predicate Consistent(verdict: Option<(bool, bool)>) {
    verdict.Some? ==> (verdict.value.1 ==> verdict.value.0)
  }

  lemma VerdictConsistent(text: string)
    ensures Consistent(Verdict(text))
  {
    match ParsePassport(text)
    case None =>
    case Some(p) => Part2Conjunction(p);
  }

  /** The verdict of every passport, in order. */
  function Verdicts(texts: seq<string>): (verdicts: seq<Option<(bool, bool)>>)
    ensures |verdicts| == |texts|
  {
    MapSeq(Verdict, texts)
  }

  /** The counts after one more verdict. */
  function TallyNext(counts: Option<(nat, nat)>, verdict: Option<(bool, bool)>): Option<(nat, nat)> {
    if counts.None? || verdict.None? then None
    else Some((counts.value.0 + (if verdict.value.0 then 1 else 0), counts.value.1 + (if verdict.value.1 then 1 else 0)))
  }

  /** The two counts over the verdicts in order; None from the first
      passport that panics on. */
  function Tally(verdicts: seq<Option<(bool, bool)>>): Option<(nat, nat)> {
    if |verdicts| == 0 then Some((0, 0))
    else
      match Tally(verdicts[..|verdicts| - 1])
      case None => None
      case Some(counts) =>
        match verdicts[|verdicts| - 1]
        case None => None
        case Some(v) => Some((counts.0 + (if v.0 then 1 else 0), counts.1 + (if v.1 then 1 else 0)))
  }

  /** The counts exist exactly when no passport panics. */
  lemma {:induction false} TallyDefined(verdicts: seq<Option<(bool, bool)>>)
    ensures Tally(verdicts).Some? <==> forall k :: 0 <= k < |verdicts| ==> verdicts[k].Some?
  {
    if |verdicts| > 0 {
      var init := verdicts[..|verdicts| - 1];
      TallyDefined(init);
      assert forall k :: 0 <= k < |init| ==> init[k] == verdicts[k];
    }
  }

  /** Neither count exceeds the number of passports, and the part 2 count
      never exceeds the part 1 count. */
  lemma {:induction false} TallyBounds(verdicts: seq<Option<(bool, bool)>>)
    requires forall k :: 0 <= k < |verdicts| ==> Consistent(verdicts[k])
    ensures Tally(verdicts).Some? ==> Tally(verdicts).value.1 <= Tally(verdicts).value.0 <= |verdicts|
  {
    if |verdicts| > 0 {
      var init := verdicts[..|verdicts| - 1];
      assert forall k :: 0 <= k < |init| ==> init[k] == verdicts[k];
      TallyBounds(init);
      assert Consistent(verdicts[|verdicts| - 1]);
    }
  }

  /** `main`: count the passports valid for part 1 and for part 2. */
  method CountValid(input: string) returns (r: Option<(nat, nat)>)
    ensures r == Tally(Verdicts(SplitOn(input, "\n\n")))
    ensures r.Some? ==> r.value.1 <= r.value.0 <= |SplitOn(input, "\n\n")|
  {
    var texts := SplitOn(input, "\n\n");
    r := CountPassports(texts);
    forall k | 0 <= k < |texts| ensures Consistent(Verdicts(texts)[k]) {
      MapSeqAt(Verdict, texts, k);
      VerdictConsistent(texts[k]);
    }
    TallyBounds(Verdicts(texts));
  }

  /** The loop of `main` over the blank-line separated passports. */
  method CountPassports(texts: seq<string>) returns (r: Option<(nat, nat)>)
    ensures r == Tally(Verdicts(texts))
  {
    var part1: nat := 0;
    var part2: nat := 0;
    var i := 0;
    while i < |texts|
      invariant 0 <= i <= |texts|
      invariant Tally(Verdicts(texts[..i])) == Some((part1, part2))
    {
      var verdict := Judge(texts[i]);
      CountStep(texts, i, verdict);
      NextCounts(part1, part2, verdict);
      if verdict.None? {
        TallyStops(texts, i + 1);
        return None;
      }
      part1 := part1 + (if verdict.value.0 then 1 else 0);
      part2 := part2 + (if verdict.value.1 then 1 else 0);
      i := i + 1;
    }
    assert texts[..i] == texts;
    r := Some((part1, part2));
  }

  lemma CountStep(texts: seq<string>, i: nat, verdict: Option<(bool, bool)>)
    requires i < |texts| && verdict == Verdict(texts[i])
    ensures Tally(Verdicts(texts[..i + 1])) == TallyNext(Tally(Verdicts(texts[..i])), verdict)
  {
    MapSeqStep(Verdict, texts, i);
    TallyAppend(Verdicts(texts[..i]), verdict);
  }

  lemma NextCounts(part1: nat, part2: nat, verdict: Option<(bool, bool)>)
    ensures verdict.None? ==> TallyNext(Some((part1, part2)), verdict).None?
    ensures verdict.Some? ==> (TallyNext(Some((part1, part2)), verdict) ==
      Some((part1 + (if verdict.value.0 then 1 else 0), part2 + (if verdict.value.1 then 1 else 0))))
  {
  }

  /** One more passport adds its verdict to the counts. */
  lemma TallyAppend(verdicts: seq<Option<(bool, bool)>>, verdict: Option<(bool, bool)>)
    ensures Tally(verdicts + [verdict]) == TallyNext(Tally(verdicts), verdict)
  {
    assert (verdicts + [verdict])[..|verdicts|] == verdicts;
  }

  /** A tally that stops on the first passports stops on them all. */
  lemma TallyStops(texts: seq<string>, n: nat)
    requires n <= |texts| && Tally(Verdicts(texts[..n])).None?
    ensures Tally(Verdicts(texts)).None?
  {
    MapSeqPrefix(Verdict, texts, n);
    TallyPrefix(Verdicts(texts), n);
  }

  /** A tally that stops on a prefix stops on the whole sequence. */
  lemma {:induction false} TallyPrefix(verdicts: seq<Option<(bool, bool)>>, n: nat)
    requires n <= |verdicts| && Tally(verdicts[..n]).None?
    ensures Tally(verdicts).None?
    decreases |verdicts|
  {
    if n < |verdicts| {
      var m := |verdicts| - 1;
      assert verdicts[..m][..n] == verdicts[..n];
      TallyPrefix(verdicts[..m], n);
    } else {
      assert verdicts[..n] == verdicts;
    }
  }

  /** The body of the loop of `main`: parse one passport and check it. */
  method Judge(text: string) returns (verdict: Option<(bool, bool)>)
    ensures verdict == Verdict(text)
  {
    var passport := FromString(text);
    if passport.None? {
      return None;
    }
    var valid := IsValidPart2(passport.value);
    if valid.None? {
      return None;
    }
    verdict := Some((IsValidPart1(passport.value), valid.value));
  }
}

/** The examples of the puzzle statement. */
module Day04Examples {
  import opened Wrappers
  import opened Text
  import opened Numbers
  import opened Day04

  /** The value of a decimal digit. */
  function D(c: char): nat {
    match DigitValue(c) case Some(d) => d case None => 0
  }

  lemma TwoDigits(s: string)
    requires |s| == 2 && AllDigits(s, 10)
    ensures ParseU32(s) == Some(10 * D(s[0]) + D(s[1]))
  {
    assert s[..1][..0] == "" && s[..2] == s;
    assert ValueOf(s[..1], 10) == D(s[0]);
  }

  lemma ThreeDigits(s: string)
    requires |s| == 3 && AllDigits(s, 10)
    ensures ParseU32(s) == Some(100 * D(s[0]) + 10 * D(s[1]) + D(s[2]))
  {
    assert s[..2][..1] == s[..1] && s[..1][..0] == "" && s[..3] == s;
    assert ValueOf(s[..1], 10) == D(s[0]);
    assert ValueOf(s[..2], 10) == 10 * D(s[0]) + D(s[1]);
  }

  lemma FourDigits(s: string)
    requires |s| == 4 && AllDigits(s, 10)
    ensures ParseU32(s) == Some(1000 * D(s[0]) + 100 * D(s[1]) + 10 * D(s[2]) + D(s[3]))
  {
    assert s[..3][..2] == s[..2] && s[..2][..1] == s[..1] && s[..1][..0] == "" && s[..4] == s;
    assert ValueOf(s[..1], 10) == D(s[0]);
    assert ValueOf(s[..2], 10) == 10 * D(s[0]) + D(s[1]);
    assert ValueOf(s[..3], 10) == 100 * D(s[0]) + 10 * D(s[1]) + D(s[2]);
  }

  /** Three digits and "cm". */
  lemma Centimetres(a: char, b: char, c: char)
    requires IsDigit(a, 10) && IsDigit(b, 10) && IsDigit(c, 10)
    ensures ValidHeight(Some([a, b, c, 'c', 'm'])) == Some(150 <= 100 * D(a) + 10 * D(b) + D(c) <= 193)
  {
    var s := [a, b, c, 'c', 'm'];
    assert s[..3] == [a, b, c] && s[3..] == "cm";
    ThreeDigits(s[..3]);
  }

  /** Two digits and "in". */
  lemma Inches(a: char, b: char)
    requires IsDigit(a, 10) && IsDigit(b, 10)
    ensures ValidHeight(Some([a, b, 'i', 'n'])) == Some(59 <= 10 * D(a) + D(b) <= 76)
  {
    var s := [a, b, 'i', 'n'];
    assert s[..2] == [a, b] && s[2..] == "in";
    TwoDigits(s[..2]);
  }

  /** A four-digit year within the given bounds. */
  lemma Year(a: char, b: char, c: char, d: char, lo: nat, hi: nat)
    requires IsDigit(a, 10) && IsDigit(b, 10) && IsDigit(c, 10) && IsDigit(d, 10)
    ensures YearIn(Some([a, b, c, d]), lo, hi) <==> lo <= 1000 * D(a) + 100 * D(b) + 10 * D(c) + D(d) <= hi
  {
    FourDigits([a, b, c, d]);
  }

  /** '#' and six hex digits. */
  lemma HexColor(a: char, b: char, c: char, d: char, e: char, f: char)
    requires IsDigit(a, 16) && IsDigit(b, 16) && IsDigit(c, 16)
    requires IsDigit(d, 16) && IsDigit(e, 16) && IsDigit(f, 16)
    ensures ValidHairColor(Some(['#', a, b, c, d, e, f]))
  {
    var s := ['#', a, b, c, d, e, f];
    assert s == "#" + [a, b, c, d, e, f];
    HairColorFormat([a, b, c, d, e, f]);
  }

  /** Nine decimal digits. */
  lemma NineDigits(a: char, b: char, c: char, d: char, e: char, f: char, g: char, h: char, i: char)
    requires IsDigit(a, 10) && IsDigit(b, 10) && IsDigit(c, 10)
    requires IsDigit(d, 10) && IsDigit(e, 10) && IsDigit(f, 10)
    requires IsDigit(g, 10) && IsDigit(h, 10) && IsDigit(i, 10)
    ensures ValidPassportId(Some([a, b, c, d, e, f, g, h, i]))
  {
    var s := [a, b, c, d, e, f, g, h, i];
    assert s[0] == a;
    PassportIdDigits(s);
  }

  /** A year written with four decimal digits, within the given bounds. */
  predicate YearText(field: Option<string>, lo: nat, hi: nat) {
    field.Some? && |field.value| == 4 && AllDigits(field.value, 10) &&
    var s := field.value;
    lo <= 1000 * D(s[0]) + 100 * D(s[1]) + 10 * D(s[2]) + D(s[3]) <= hi
  }

  /** Three digits and "cm" within 150..193, or two digits and "in" within 59..76. */
  predicate HeightText(field: Option<string>) {
    field.Some? &&
    var s := field.value;
    (|s| == 5 && IsDigit(s[0], 10) && IsDigit(s[1], 10) && IsDigit(s[2], 10) && s[3..] == "cm" &&
      150 <= 100 * D(s[0]) + 10 * D(s[1]) + D(s[2]) <= 193) ||
    (|s| == 4 && IsDigit(s[0], 10) && IsDigit(s[1], 10) && s[2..] == "in" &&
      59 <= 10 * D(s[0]) + D(s[1]) <= 76)
  }

  /** '#' and six hex digits. */
  predicate ColorText(field: Option<string>) {
    field.Some? && |field.value| == 7 && field.value[0] == '#' && AllDigits(field.value[1..], 16)
  }

  /** Nine decimal digits. */
  predicate IdText(field: Option<string>) {
    field.Some? && |field.value| == 9 && AllDigits(field.value, 10)
  }

  lemma YearOk(field: Option<string>, lo: nat, hi: nat)
    requires YearText(field, lo, hi)
    ensures YearIn(field, lo, hi)
  {
    FourDigits(field.value);
  }

  lemma HeightOk(field: Option<string>)
    requires HeightText(field)
    ensures ValidHeight(field) == Some(true)
  {
    var h := field.value;
    if |h| == 5 && h[3..] == "cm" {
      Centimetres(h[0], h[1], h[2]);
      assert h == [h[0], h[1], h[2], 'c', 'm'];
    } else {
      Inches(h[0], h[1]);
      assert h == [h[0], h[1], 'i', 'n'];
    }
  }

  lemma ColorOk(field: Option<string>)
    requires ColorText(field)
    ensures ValidHairColor(field)
  {
    var c := field.value;
    HairColorFormat(c[1..]);
    assert c == "#" + c[1..];
  }

  lemma IdOk(field: Option<string>)
    requires IdText(field)
    ensures ValidPassportId(field)
  {
    PassportIdDigits(field.value);
    assert IsDigit(field.value[0], 10);
  }

  /** A passport whose fields are written the way the valid examples write
      them passes part 2. */
  lemma ValidPassport(p: Passport)
    requires YearText(p.birthYear, 1920, 2002) && YearText(p.issueYear, 2010, 2020)
    requires YearText(p.expirationYear, 2020, 2030) && HeightText(p.height)
    requires ColorText(p.hairColor) && ValidEyeColor(p.eyeColor) && IdText(p.passportId)
    ensures IsValidPart2(p) == Some(true)
  {
    YearOk(p.birthYear, 1920, 2002);
    YearOk(p.issueYear, 2010, 2020);
    YearOk(p.expirationYear, 2020, 2030);
    HeightOk(p.height);
    ColorOk(p.hairColor);
    IdOk(p.passportId);
    Part2Conjunction(p);
  }

  /** The records the texts of `test_part2_valid_examples` denote, and how
      those texts lay their fields out: the first passport reads
      "pid:087499704 hgt:74in ecl:grn iyr:2012 eyr:2030 byr:1980" and then "hcl:#623a2f". */
  const V1 := Passport(Some("1980"), Some("2012"), Some("2030"), Some("74in"),
    Some("#623a2f"), Some("grn"), Some("087499704"), None)
  const LAYOUT_V1: seq<seq<Key>> := [[PassportId, Height, EyeColor, IssueYear, ExpirationYear, BirthYear], [HairColor]]
  const V2 := Passport(Some("1989"), Some("2014"), Some("2029"), Some("165cm"),
    Some("#a97842"), Some("blu"), Some("896056539"), Some("129"))
  const LAYOUT_V2: seq<seq<Key>> := [[ExpirationYear, EyeColor, CountryId, BirthYear], [IssueYear, PassportId, HairColor, Height]]
  const V3 := Passport(Some("2001"), Some("2015"), Some("2022"), Some("164cm"),
    Some("#888785"), Some("hzl"), Some("545766238"), Some("88"))
  const LAYOUT_V3: seq<seq<Key>> := [[HairColor], [Height, BirthYear, IssueYear, CountryId], [PassportId, EyeColor], [ExpirationYear]]
  const V4 := Passport(Some("1944"), Some("2010"), Some("2021"), Some("158cm"),
    Some("#b6652a"), Some("blu"), Some("093154719"), None)
  const LAYOUT_V4: seq<seq<Key>> := [[IssueYear, Height, HairColor, EyeColor, BirthYear, ExpirationYear, PassportId]]

  lemma ExampleValid1()
    ensures IsValidPart2(V1) == Some(true)
  {
    assert YearText(V1.birthYear, 1920, 2002);
    assert YearText(V1.issueYear, 2010, 2020);
    assert YearText(V1.expirationYear, 2020, 2030);
    assert HeightText(V1.height);
    assert ColorText(V1.hairColor);
    assert IdText(V1.passportId);
    ValidPassport(V1);
  }

  lemma ExampleValid2()
    ensures IsValidPart2(V2) == Some(true)
  {
    assert YearText(V2.birthYear, 1920, 2002);
    assert YearText(V2.issueYear, 2010, 2020);
    assert YearText(V2.expirationYear, 2020, 2030);
    assert HeightText(V2.height);
    assert ColorText(V2.hairColor);
    assert IdText(V2.passportId);
    ValidPassport(V2);
  }

  lemma ExampleValid3()
    ensures IsValidPart2(V3) == Some(true)
  {
    assert YearText(V3.birthYear, 1920, 2002);
    assert YearText(V3.issueYear, 2010, 2020);
    assert YearText(V3.expirationYear, 2020, 2030);
    assert HeightText(V3.height);
    assert ColorText(V3.hairColor);
    assert IdText(V3.passportId);
    ValidPassport(V3);
  }

  lemma ExampleValid4()
    ensures IsValidPart2(V4) == Some(true)
  {
    assert YearText(V4.birthYear, 1920, 2002);
    assert YearText(V4.issueYear, 2010, 2020);
    assert YearText(V4.expirationYear, 2020, 2030);
    assert HeightText(V4.height);
    assert ColorText(V4.hairColor);
    assert IdText(V4.passportId);
    ValidPassport(V4);
  }

  /** The records the texts of `test_part2_invalid_examples` denote: an
      expiration year too early (twice), a hair colour without '#', a birth
      year too late. The first text reads "eyr:1972 cid:100" and then "hcl:#18171d ecl:amb hgt:170 pid:186cm iyr:2018 byr:1926". */
  const I1 := Passport(Some("1926"), Some("2018"), Some("1972"), Some("170"),
    Some("#18171d"), Some("amb"), Some("186cm"), Some("100"))
  const LAYOUT_I1: seq<seq<Key>> := [[ExpirationYear, CountryId], [HairColor, EyeColor, Height, PassportId, IssueYear, BirthYear]]
  const I2 := Passport(Some("1946"), Some("2019"), Some("1967"), Some("170cm"),
    Some("#602927"), Some("grn"), Some("012533040"), None)
  const LAYOUT_I2: seq<seq<Key>> := [[IssueYear], [HairColor, ExpirationYear, Height], [EyeColor, PassportId, BirthYear]]
  const I3 := Passport(Some("1992"), Some("2012"), Some("2020"), Some("182cm"),
    Some("dab227"), Some("brn"), Some("021572410"), Some("277"))
  const LAYOUT_I3: seq<seq<Key>> := [[HairColor, IssueYear], [EyeColor, Height, PassportId, ExpirationYear, BirthYear, CountryId]]
  const I4 := Passport(Some("2007"), Some("2023"), Some("2038"), Some("59cm"),
    Some("74454a"), Some("zzz"), Some("3556412378"), None)
  const LAYOUT_I4: seq<seq<Key>> := [[Height, EyeColor], [ExpirationYear, HairColor, IssueYear], [PassportId, BirthYear]]

  lemma ExampleInvalid1()
    ensures IsValidPart2(I1) == Some(false)
  {
    Year('1', '9', '2', '6', 1920, 2002);
    Year('2', '0', '1', '8', 2010, 2020);
    Year('1', '9', '7', '2', 2020, 2030);
  }

  lemma ExampleInvalid2()
    ensures IsValidPart2(I2) == Some(false)
  {
    Year('1', '9', '4', '6', 1920, 2002);
    Year('2', '0', '1', '9', 2010, 2020);
    Year('1', '9', '6', '7', 2020, 2030);
  }

  lemma ExampleInvalid3()
    ensures IsValidPart2(I3) == Some(false)
  {
    Year('1', '9', '9', '2', 1920, 2002);
    Year('2', '0', '1', '2', 2010, 2020);
    Year('2', '0', '2', '0', 2020, 2030);
    Centimetres('1', '8', '2');
    var s := I3.hairColor.value;
    if Find(s, "#").Some? {
      var i := Find(s, "#").value;
      assert s[i..i + 1][0] == '#';
    }
  }

  lemma ExampleInvalid4()
    ensures IsValidPart2(I4) == Some(false)
  {
    Year('2', '0', '0', '7', 1920, 2002);
  }

  /** The records the text of `test_example` denotes, and how that text
      lays their fields out: the first passport reads
      "ecl:gry pid:860033327 eyr:2020 hcl:#fffffd" and then "byr:1937 iyr:2017 cid:147 hgt:183cm". */
  const P1 := Passport(Some("1937"), Some("2017"), Some("2020"), Some("183cm"),
    Some("#fffffd"), Some("gry"), Some("860033327"), Some("147"))
  const LAYOUT_P1: seq<seq<Key>> := [[EyeColor, PassportId, ExpirationYear, HairColor], [BirthYear, IssueYear, CountryId, Height]]
  const P2 := Passport(Some("1929"), Some("2013"), Some("2023"), None,
    Some("#cfa07d"), Some("amb"), Some("028048884"), Some("350"))
  const LAYOUT_P2: seq<seq<Key>> := [[IssueYear, EyeColor, CountryId, ExpirationYear, PassportId], [HairColor, BirthYear]]
  const P3 := Passport(Some("1931"), Some("2013"), Some("2024"), Some("179cm"),
    Some("#ae17e1"), Some("brn"), Some("760753108"), None)
  const LAYOUT_P3: seq<seq<Key>> := [[HairColor, IssueYear], [ExpirationYear], [EyeColor, PassportId, BirthYear], [Height]]
  const P4 := Passport(None, Some("2011"), Some("2025"), Some("59in"),
    Some("#cfa07d"), Some("brn"), Some("166559648"), None)
  const LAYOUT_P4: seq<seq<Key>> := [[HairColor, ExpirationYear, PassportId], [IssueYear, EyeColor, Height]]

  /** The text of `test_example`: the passports one blank line apart. */
  const EXAMPLE_TEXT := Join([LinesOfWords(TokenLines(P1, LAYOUT_P1)),
    LinesOfWords(TokenLines(P2, LAYOUT_P2)),
    LinesOfWords(TokenLines(P3, LAYOUT_P3)),
    LinesOfWords(TokenLines(P4, LAYOUT_P4))], "\n\n")

  /** `test_from_string_example`: the first passport's text sets all eight
      fields. */
  lemma ExampleFromString()
    ensures ParsePassport(LinesOfWords(TokenLines(P1, LAYOUT_P1))) == Some(Passport(Some("1937"), Some("2017"),
      Some("2020"), Some("183cm"), Some("#fffffd"), Some("gry"), Some("860033327"), Some("147")))
  {
    WritableP1();
    LayoutP1();
    LayoutRoundTrip(P1, LAYOUT_P1);
  }

  /** The verdicts on the four passports: the first and third are valid for
      both parts, the second lacks a height and the fourth a birth year. */
  lemma Verdict1()
    ensures IsValidPart1(P1) && IsValidPart2(P1) == Some(true)
  {
    assert YearText(P1.birthYear, 1920, 2002);
    assert YearText(P1.issueYear, 2010, 2020);
    assert YearText(P1.expirationYear, 2020, 2030);
    assert HeightText(P1.height);
    assert ColorText(P1.hairColor);
    assert IdText(P1.passportId);
    ValidPassport(P1);
  }

  lemma Verdict2()
    ensures !IsValidPart1(P2) && IsValidPart2(P2) == Some(false)
  {
    assert YearText(P2.birthYear, 1920, 2002);
    assert YearText(P2.issueYear, 2010, 2020);
    assert YearText(P2.expirationYear, 2020, 2030);
    YearOk(P2.birthYear, 1920, 2002);
    YearOk(P2.issueYear, 2010, 2020);
    YearOk(P2.expirationYear, 2020, 2030);
  }

  lemma Verdict3()
    ensures IsValidPart1(P3) && IsValidPart2(P3) == Some(true)
  {
    assert YearText(P3.birthYear, 1920, 2002);
    assert YearText(P3.issueYear, 2010, 2020);
    assert YearText(P3.expirationYear, 2020, 2030);
    assert HeightText(P3.height);
    assert ColorText(P3.hairColor);
    assert IdText(P3.passportId);
    ValidPassport(P3);
  }

  lemma Verdict4()
    ensures !IsValidPart1(P4) && IsValidPart2(P4) == Some(false)
  {
  }

  /** A parsed passport's verdict. */
  lemma VerdictOf(text: string, p: Passport, v1: bool, v2: bool)
    requires ParsePassport(text) == Some(p)
    requires IsValidPart1(p) == v1 && IsValidPart2(p) == Some(v2)
    ensures Verdict(text) == Some((v1, v2))
  {
  }

  /** The counts over the four verdicts, one passport at a time. */
  lemma ExampleTally(vs: seq<Option<(bool, bool)>>)
    requires |vs| == 4 && vs[0] == vs[2] == Some((true, true)) && vs[1] == vs[3] == Some((false, false))
    ensures Tally(vs) == Some((2, 2))
  {
    var a, b, c := vs[..1], vs[..2], vs[..3];
    assert a[..0] == [] && b[..1] == a && c[..2] == b && vs[..3] == c;
    assert Tally(a) == Some((1, 1));
    assert Tally(b) == Some((1, 1));
    assert Tally(c) == Some((2, 2));
  }

  /** Four passport texts one blank line apart split back into the four. */
  lemma SplitFour(t1: string, t2: string, t3: string, t4: string)
    requires SeparatorFree(t1, "\n\n") && SeparatorFree(t2, "\n\n")
    requires SeparatorFree(t3, "\n\n") && SeparatorFree(t4, "\n\n")
    ensures SplitOn(Join([t1, t2, t3, t4], "\n\n"), "\n\n") == [t1, t2, t3, t4]
  {
    var texts := [t1, t2, t3, t4];
    forall k | 0 <= k < 4 ensures SeparatorFree(texts[k], "\n\n") {
      if k == 0 { assert texts[k] == t1; }
      else if k == 1 { assert texts[k] == t2; }
      else if k == 2 { assert texts[k] == t3; }
      else { assert texts[k] == t4; }
    }
    SplitOnJoin(texts, "\n\n");
  }

  /** The four passports are counted by their verdicts. */
  lemma Counted(t1: string, t2: string, t3: string, t4: string)
    requires Verdict(t1) == Some((true, true)) && Verdict(t2) == Some((false, false))
    requires Verdict(t3) == Some((true, true)) && Verdict(t4) == Some((false, false))
    ensures Tally(Verdicts([t1, t2, t3, t4])) == Some((2, 2))
  {
    var texts := [t1, t2, t3, t4];
    var vs := Verdicts(texts);
    forall k | 0 <= k < 4 ensures vs[k] == Verdict(texts[k]) {
      MapSeqAt(Verdict, texts, k);
    }
    ExampleTally(vs);
  }

  /** `test_example`: the text holds four passports, two of them valid for
      part 1 (and the same two for part 2). */
  lemma ExampleCount()
    ensures |SplitOn(EXAMPLE_TEXT, "\n\n")| == 4
    ensures Tally(Verdicts(SplitOn(EXAMPLE_TEXT, "\n\n"))) == Some((2, 2))
  {
    var t1, t2 := LinesOfWords(TokenLines(P1, LAYOUT_P1)), LinesOfWords(TokenLines(P2, LAYOUT_P2));
    var t3, t4 := LinesOfWords(TokenLines(P3, LAYOUT_P3)), LinesOfWords(TokenLines(P4, LAYOUT_P4));
    WritableP1(); LayoutP1(); LayoutRoundTrip(P1, LAYOUT_P1); Verdict1(); VerdictOf(t1, P1, true, true);
    WritableP2(); LayoutP2(); LayoutRoundTrip(P2, LAYOUT_P2); Verdict2(); VerdictOf(t2, P2, false, false);
    WritableP3(); LayoutP3(); LayoutRoundTrip(P3, LAYOUT_P3); Verdict3(); VerdictOf(t3, P3, true, true);
    WritableP4(); LayoutP4(); LayoutRoundTrip(P4, LAYOUT_P4); Verdict4(); VerdictOf(t4, P4, false, false);
    SplitFour(t1, t2, t3, t4);
    Counted(t1, t2, t3, t4);
  }

  /** Every key, in the order of the record's fields. */
  const ALL_KEYS: seq<Key> := [BirthYear, IssueYear, ExpirationYear, Height, HairColor, EyeColor, PassportId, CountryId]

  /** A key list that holds every key the passport sets, checked over `ALL_KEYS`. */
  lemma Covered(p: Passport, keys: seq<Key>)
    requires forall i :: 0 <= i < |ALL_KEYS| ==> Field(p, ALL_KEYS[i]).Some? ==> ALL_KEYS[i] in keys
    ensures forall key :: Field(p, key).Some? ==> key in keys
  {
    forall key | Field(p, key).Some? ensures key in keys {
      match key
      case BirthYear => assert ALL_KEYS[0] == key;
      case IssueYear => assert ALL_KEYS[1] == key;
      case ExpirationYear => assert ALL_KEYS[2] == key;
      case Height => assert ALL_KEYS[3] == key;
      case HairColor => assert ALL_KEYS[4] == key;
      case EyeColor => assert ALL_KEYS[5] == key;
      case PassportId => assert ALL_KEYS[6] == key;
      case CountryId => assert ALL_KEYS[7] == key;
    }
  }

  /** Every example passport can be written out in its text's layout. */
  lemma WritableV1() ensures AllWritable(V1) { }

  lemma LayoutV1()
    ensures Distinct(Flatten(LAYOUT_V1)) && forall key :: Field(V1, key).Some? ==> key in Flatten(LAYOUT_V1)
    ensures forall i :: 0 <= i < |LAYOUT_V1| ==> TokensFor(V1, LAYOUT_V1[i]) != []
  {
    assert Flatten(LAYOUT_V1) == [PassportId, Height, EyeColor, IssueYear, ExpirationYear, BirthYear, HairColor];
    Covered(V1, Flatten(LAYOUT_V1));
  }

  lemma WritableV2() ensures AllWritable(V2) { }

  lemma LayoutV2()
    ensures Distinct(Flatten(LAYOUT_V2)) && forall key :: Field(V2, key).Some? ==> key in Flatten(LAYOUT_V2)
    ensures forall i :: 0 <= i < |LAYOUT_V2| ==> TokensFor(V2, LAYOUT_V2[i]) != []
  {
    assert Flatten(LAYOUT_V2) == [ExpirationYear, EyeColor, CountryId, BirthYear, IssueYear, PassportId, HairColor, Height];
    Covered(V2, Flatten(LAYOUT_V2));
  }

  lemma WritableV3() ensures AllWritable(V3) { }

  lemma LayoutV3()
    ensures Distinct(Flatten(LAYOUT_V3)) && forall key :: Field(V3, key).Some? ==> key in Flatten(LAYOUT_V3)
    ensures forall i :: 0 <= i < |LAYOUT_V3| ==> TokensFor(V3, LAYOUT_V3[i]) != []
  {
    assert Flatten(LAYOUT_V3) == [HairColor, Height, BirthYear, IssueYear, CountryId, PassportId, EyeColor, ExpirationYear];
    Covered(V3, Flatten(LAYOUT_V3));
  }

  lemma WritableV4() ensures AllWritable(V4) { }

  lemma LayoutV4()
    ensures Distinct(Flatten(LAYOUT_V4)) && forall key :: Field(V4, key).Some? ==> key in Flatten(LAYOUT_V4)
    ensures forall i :: 0 <= i < |LAYOUT_V4| ==> TokensFor(V4, LAYOUT_V4[i]) != []
  {
    assert Flatten(LAYOUT_V4) == [IssueYear, Height, HairColor, EyeColor, BirthYear, ExpirationYear, PassportId];
    Covered(V4, Flatten(LAYOUT_V4));
  }

  lemma WritableI1() ensures AllWritable(I1) { }

  lemma LayoutI1()
    ensures Distinct(Flatten(LAYOUT_I1)) && forall key :: Field(I1, key).Some? ==> key in Flatten(LAYOUT_I1)
    ensures forall i :: 0 <= i < |LAYOUT_I1| ==> TokensFor(I1, LAYOUT_I1[i]) != []
  {
    assert Flatten(LAYOUT_I1) == [ExpirationYear, CountryId, HairColor, EyeColor, Height, PassportId, IssueYear, BirthYear];
    Covered(I1, Flatten(LAYOUT_I1));
  }

  lemma WritableI2() ensures AllWritable(I2) { }

  lemma LayoutI2()
    ensures Distinct(Flatten(LAYOUT_I2)) && forall key :: Field(I2, key).Some? ==> key in Flatten(LAYOUT_I2)
    ensures forall i :: 0 <= i < |LAYOUT_I2| ==> TokensFor(I2, LAYOUT_I2[i]) != []
  {
    assert Flatten(LAYOUT_I2) == [IssueYear, HairColor, ExpirationYear, Height, EyeColor, PassportId, BirthYear];
    Covered(I2, Flatten(LAYOUT_I2));
  }

  lemma WritableI3() ensures AllWritable(I3) { }

  lemma LayoutI3()
    ensures Distinct(Flatten(LAYOUT_I3)) && forall key :: Field(I3, key).Some? ==> key in Flatten(LAYOUT_I3)
    ensures forall i :: 0 <= i < |LAYOUT_I3| ==> TokensFor(I3, LAYOUT_I3[i]) != []
  {
    assert Flatten(LAYOUT_I3) == [HairColor, IssueYear, EyeColor, Height, PassportId, ExpirationYear, BirthYear, CountryId];
    Covered(I3, Flatten(LAYOUT_I3));
  }

  lemma WritableI4() ensures AllWritable(I4) { }

  lemma LayoutI4()
    ensures Distinct(Flatten(LAYOUT_I4)) && forall key :: Field(I4, key).Some? ==> key in Flatten(LAYOUT_I4)
    ensures forall i :: 0 <= i < |LAYOUT_I4| ==> TokensFor(I4, LAYOUT_I4[i]) != []
  {
    assert Flatten(LAYOUT_I4) == [Height, EyeColor, ExpirationYear, HairColor, IssueYear, PassportId, BirthYear];
    Covered(I4, Flatten(LAYOUT_I4));
  }

  lemma WritableP1() ensures AllWritable(P1) { }

  lemma LayoutP1()
    ensures Distinct(Flatten(LAYOUT_P1)) && forall key :: Field(P1, key).Some? ==> key in Flatten(LAYOUT_P1)
    ensures forall i :: 0 <= i < |LAYOUT_P1| ==> TokensFor(P1, LAYOUT_P1[i]) != []
  {
    assert Flatten(LAYOUT_P1) == [EyeColor, PassportId, ExpirationYear, HairColor, BirthYear, IssueYear, CountryId, Height];
    Covered(P1, Flatten(LAYOUT_P1));
  }

  lemma WritableP2() ensures AllWritable(P2) { }

  lemma LayoutP2()
    ensures Distinct(Flatten(LAYOUT_P2)) && forall key :: Field(P2, key).Some? ==> key in Flatten(LAYOUT_P2)
    ensures forall i :: 0 <= i < |LAYOUT_P2| ==> TokensFor(P2, LAYOUT_P2[i]) != []
  {
    assert Flatten(LAYOUT_P2) == [IssueYear, EyeColor, CountryId, ExpirationYear, PassportId, HairColor, BirthYear];
    Covered(P2, Flatten(LAYOUT_P2));
  }

  lemma WritableP3() ensures AllWritable(P3) { }

  lemma LayoutP3()
    ensures Distinct(Flatten(LAYOUT_P3)) && forall key :: Field(P3, key).Some? ==> key in Flatten(LAYOUT_P3)
    ensures forall i :: 0 <= i < |LAYOUT_P3| ==> TokensFor(P3, LAYOUT_P3[i]) != []
  {
    assert Flatten(LAYOUT_P3) == [HairColor, IssueYear, ExpirationYear, EyeColor, PassportId, BirthYear, Height];
    Covered(P3, Flatten(LAYOUT_P3));
  }

  lemma WritableP4() ensures AllWritable(P4) { }

  lemma LayoutP4()
    ensures Distinct(Flatten(LAYOUT_P4)) && forall key :: Field(P4, key).Some? ==> key in Flatten(LAYOUT_P4)
    ensures forall i :: 0 <= i < |LAYOUT_P4| ==> TokensFor(P4, LAYOUT_P4[i]) != []
  {
    assert Flatten(LAYOUT_P4) == [HairColor, ExpirationYear, PassportId, IssueYear, EyeColor, Height];
    Covered(P4, Flatten(LAYOUT_P4));
  }

  /** The texts of the two part-2 tests. */
  const VALID_TEXT := Join([LinesOfWords(TokenLines(V1, LAYOUT_V1)),
    LinesOfWords(TokenLines(V2, LAYOUT_V2)),
    LinesOfWords(TokenLines(V3, LAYOUT_V3)),
    LinesOfWords(TokenLines(V4, LAYOUT_V4))], "\n\n")
  const INVALID_TEXT := Join([LinesOfWords(TokenLines(I1, LAYOUT_I1)),
    LinesOfWords(TokenLines(I2, LAYOUT_I2)),
    LinesOfWords(TokenLines(I3, LAYOUT_I3)),
    LinesOfWords(TokenLines(I4, LAYOUT_I4))], "\n\n")

  /** Four passport texts one blank line apart, each parsing to a record with
      the same part-2 verdict: every piece the split yields has that verdict. */
  lemma Part2Texts(t1: string, t2: string, t3: string, t4: string,
                   p1: Passport, p2: Passport, p3: Passport, p4: Passport, v: bool)
    requires SeparatorFree(t1, "\n\n") && SeparatorFree(t2, "\n\n")
    requires SeparatorFree(t3, "\n\n") && SeparatorFree(t4, "\n\n")
    requires ParsePassport(t1) == Some(p1) && IsValidPart2(p1) == Some(v)
    requires ParsePassport(t2) == Some(p2) && IsValidPart2(p2) == Some(v)
    requires ParsePassport(t3) == Some(p3) && IsValidPart2(p3) == Some(v)
    requires ParsePassport(t4) == Some(p4) && IsValidPart2(p4) == Some(v)
    ensures |SplitOn(Join([t1, t2, t3, t4], "\n\n"), "\n\n")| == 4
    ensures forall t :: t in SplitOn(Join([t1, t2, t3, t4], "\n\n"), "\n\n") ==>
      ParsePassport(t).Some? && IsValidPart2(ParsePassport(t).value) == Some(v)
  {
    SplitFour(t1, t2, t3, t4);
  }

  /** `test_part2_valid_examples`: the text holds four passports and every
      one passes part 2. */
  lemma ExampleValidTexts()
    ensures |SplitOn(VALID_TEXT, "\n\n")| == 4
    ensures forall t :: t in SplitOn(VALID_TEXT, "\n\n") ==>
      ParsePassport(t).Some? && IsValidPart2(ParsePassport(t).value) == Some(true)
  {
    WritableV1(); LayoutV1(); LayoutRoundTrip(V1, LAYOUT_V1); ExampleValid1();
    WritableV2(); LayoutV2(); LayoutRoundTrip(V2, LAYOUT_V2); ExampleValid2();
    WritableV3(); LayoutV3(); LayoutRoundTrip(V3, LAYOUT_V3); ExampleValid3();
    WritableV4(); LayoutV4(); LayoutRoundTrip(V4, LAYOUT_V4); ExampleValid4();
    Part2Texts(LinesOfWords(TokenLines(V1, LAYOUT_V1)),
      LinesOfWords(TokenLines(V2, LAYOUT_V2)),
      LinesOfWords(TokenLines(V3, LAYOUT_V3)),
      LinesOfWords(TokenLines(V4, LAYOUT_V4)), V1, V2, V3, V4, true);
  }

  /** `test_part2_invalid_examples`: the text holds four passports and every
      one fails part 2. */
  lemma ExampleInvalidTexts()
    ensures |SplitOn(INVALID_TEXT, "\n\n")| == 4
    ensures forall t :: t in SplitOn(INVALID_TEXT, "\n\n") ==>
      ParsePassport(t).Some? && IsValidPart2(ParsePassport(t).value) == Some(false)
  {
    WritableI1(); LayoutI1(); LayoutRoundTrip(I1, LAYOUT_I1); ExampleInvalid1();
    WritableI2(); LayoutI2(); LayoutRoundTrip(I2, LAYOUT_I2); ExampleInvalid2();
    WritableI3(); LayoutI3(); LayoutRoundTrip(I3, LAYOUT_I3); ExampleInvalid3();
    WritableI4(); LayoutI4(); LayoutRoundTrip(I4, LAYOUT_I4); ExampleInvalid4();
    Part2Texts(LinesOfWords(TokenLines(I1, LAYOUT_I1)),
      LinesOfWords(TokenLines(I2, LAYOUT_I2)),
      LinesOfWords(TokenLines(I3, LAYOUT_I3)),
      LinesOfWords(TokenLines(I4, LAYOUT_I4)), I1, I2, I3, I4, false);
  }
}
