/** Day 7: luggage rules "<name> bags contain <n> <name> bag(s), ...". A
    ruleset maps a bag name to the bags it must directly contain, with their
    amounts; a recursive expansion counts the bags inside a bag and collects
    the names it transitively contains. */
module Day07 {
  import opened Wrappers
  import opened Text
  import opened Numbers

  /** The directly contained bags of one rule, in textual order. */
  type BagContent = seq<(nat, string)>

  type Ruleset = map<string, BagContent>

  const CONTAIN: string := " bags contain "
  const NO_OTHER: string := "no other bags."

  // ---------------------------------------------------------------------
  // Parsing

  /** One ", "-separated item: the amount before the first ' ' (a `usize`)
      and the text from after that space up to the first " bag". `None`
      where the source panics: no space, an amount that is not a `usize`,
      no " bag", or a " bag" that starts at the space itself (a slice whose
      start lies past its end). */
  function ItemFromString(item: string): (r: Option<(nat, string)>)
    ensures r.Some? ==> r.value.0 < USIZE_BOUND
  {
    match Find(item, " ")
    case None => None
    case Some(space) =>
      match (ParseUsize(item[..space]), Find(item, " bag"))
      case (Some(amount), Some(end)) =>
        if space + 1 <= end then Some((amount, item[space + 1..end])) else None
      case _ => None
  }

  /** `bag_content_from_string` as a function: the name is the text before
      the first " bags contain "; a rule mentioning "no other bags." anywhere
      is empty, otherwise the text after " bags contain " is split at ", "
      and every piece is an item. */
  function RuleOf(rule: string): Option<(string, BagContent)> {
    match Find(rule, CONTAIN)
    case None => None
    case Some(pos) =>
      if Contains(rule, NO_OTHER) then Some((rule[..pos], []))
      else
        match MapAll(ItemFromString, SplitOn(rule[pos + |CONTAIN|..], ", "))
        case None => None
        case Some(content) => Some((rule[..pos], content))
  }

  /** `ruleset_from_string` as a function over the '\n'-separated lines,
      for any rule parser: empty lines are skipped, and each rule is
      inserted, replacing an earlier rule with the same key. */
  function Collect<K, V>(parse: string -> Option<(K, V)>, lines: seq<string>): Option<map<K, V>> {
    if |lines| == 0 then Some(map[])
    else Insert(parse, Collect(parse, lines[..|lines| - 1]), lines[|lines| - 1])
  }

  /** One step of `Collect`. */
  function Insert<K, V>(parse: string -> Option<(K, V)>, rules: Option<map<K, V>>, line: string): Option<map<K, V>> {
    match rules
    case None => None
    case Some(rules) =>
      if line == "" then Some(rules)
      else
        match parse(line)
        case None => None
        case Some((key, value)) => Some(rules[key := value])
  }

  /** `bag_content_from_string`. */
  method BagContentFromString(rule: string) returns (r: Option<(string, BagContent)>)
    ensures r == RuleOf(rule)
  {
    var pos := Find(rule, CONTAIN);
    if pos.None? {
      return None;
    }
    var name := rule[..pos.value];
    if Contains(rule, NO_OTHER) {
      return Some((name, []));
    }
    var content := ParseItems(SplitOn(rule[pos.value + |CONTAIN|..], ", "));
    if content.None? {
      return None;
    }
    return Some((name, content.value));
  }

  /** The loop of `bag_content_from_string`: each item is parsed and pushed
      in order. */
  method ParseItems(items: seq<string>) returns (r: Option<BagContent>)
    ensures r == MapAll(ItemFromString, items)
  {
    var content: BagContent := [];
    var i := 0;
    while i < |items|
      invariant 0 <= i <= |items|
      invariant MapAll(ItemFromString, items[..i]) == Some(content)
    {
      MapAllStep(ItemFromString, items, i);
      var item := ItemFromString(items[i]);
      if item.None? {
        MapAllStops(ItemFromString, items, i + 1);
        return None;
      }
      content := content + [item.value];
      i := i + 1;
    }
    assert items[..i] == items;
    return Some(content);
  }

  lemma CollectStop<K, V>(parse: string -> Option<(K, V)>, lines: seq<string>, i: nat)
    requires i <= |lines| && Collect(parse, lines[..i]).None?
    ensures Collect(parse, lines).None?
    decreases |lines|
  {
    if i < |lines| {
      var init := lines[..|lines| - 1];
      assert init[..i] == lines[..i];
      CollectStop(parse, init, i);
    } else {
      assert lines[..i] == lines;
    }
  }

  lemma CollectStep<K, V>(parse: string -> Option<(K, V)>, lines: seq<string>, i: nat)
    requires i < |lines|
    ensures Collect(parse, lines[..i + 1]) == Insert(parse, Collect(parse, lines[..i]), lines[i])
  {
    assert lines[..i + 1][..i] == lines[..i];
  }

  /** `ruleset_from_string`: the lines are read in a loop into a map. */
  method RulesetFromString(text: string) returns (r: Option<Ruleset>)
    ensures r == Collect(RuleOf, Split(text, '\n'))
  {
    var lines := Split(text, '\n');
    var rules: Ruleset := map[];
    var i := 0;
    while i < |lines|
      invariant 0 <= i <= |lines|
      invariant Collect(RuleOf, lines[..i]) == Some(rules)
    {
      CollectStep(RuleOf, lines, i);
      if lines[i] != "" {
        var rule := BagContentFromString(lines[i]);
        if rule.None? {
          CollectStop(RuleOf, lines, i + 1);
          return None;
        }
        rules := rules[rule.value.0 := rule.value.1];
      }
      i := i + 1;
    }
    assert lines[..i] == lines;
    return Some(rules);
  }

  // ---------------------------------------------------------------------
  // Expansion

  /** The recursion of the source only ends when no bag contains itself,
      directly or not. `rank` witnesses that: every contained bag that has
      a rule ranks strictly below the bag containing it. */
  predicate Ranked(rules: Ruleset, rank: map<string, nat>) {
    (forall b :: b in rules ==> b in rank) &&
    forall b, k :: b in rules && 0 <= k < |rules[b]| && rules[b][k].1 in rules ==>
      rank[rules[b][k].1] < rank[b]
  }

  /** The termination measure of the recursion: a bag without a rule ends
      it at once (the source panics there). */
  function Height(rules: Ruleset, rank: map<string, nat>, bag: string): nat {
    if bag in rules && bag in rank then rank[bag] + 1 else 0
  }

  /** The expansion of `bag` does not panic: the bag and every bag it
      transitively contains have a rule. */
  predicate Defined(rules: Ruleset, rank: map<string, nat>, bag: string)
    requires Ranked(rules, rank)
    decreases Height(rules, rank, bag)
  {
    bag in rules &&
    forall k :: 0 <= k < |rules[bag]| ==> Defined(rules, rank, rules[bag][k].1)
  }

  /** The first `i` contained bags of `bag` do not panic. */
  predicate DefinedUpTo(rules: Ruleset, rank: map<string, nat>, bag: string, i: nat)
    requires Ranked(rules, rank) && bag in rules && i <= |rules[bag]|
  {
    forall k :: 0 <= k < i ==> Defined(rules, rank, rules[bag][k].1)
  }

  /** The number of bags a bag amounts to, itself included:
      `1 + Σ amount·count(child)`. */
  function BagCount(rules: Ruleset, rank: map<string, nat>, bag: string): nat
    requires Ranked(rules, rank) && Defined(rules, rank, bag)
    decreases Height(rules, rank, bag), |rules[bag]| + 1
  {
    1 + InnerCount(rules, rank, bag, |rules[bag]|)
  }

  /** `Σ amount·count(child)` over the first `i` contained bags. */
  function InnerCount(rules: Ruleset, rank: map<string, nat>, bag: string, i: nat): nat
    requires Ranked(rules, rank) && bag in rules && i <= |rules[bag]|
    requires DefinedUpTo(rules, rank, bag, i)
    decreases Height(rules, rank, bag), i
  {
    if i == 0 then 0
    else
      var (amount, child) := rules[bag][i - 1];
      assert rules[bag][i - 1].1 in rules ==> rank[rules[bag][i - 1].1] < rank[bag];
      InnerCount(rules, rank, bag, i - 1) + amount * BagCount(rules, rank, child)
  }

  /** The names of the bags `bag` transitively contains. */
  function Contained(rules: Ruleset, rank: map<string, nat>, bag: string): set<string>
    requires Ranked(rules, rank) && Defined(rules, rank, bag)
    decreases Height(rules, rank, bag), |rules[bag]| + 1
  {
    ContainedUpTo(rules, rank, bag, |rules[bag]|)
  }

  /** The names reached through the first `i` contained bags. */
  function ContainedUpTo(rules: Ruleset, rank: map<string, nat>, bag: string, i: nat): set<string>
    requires Ranked(rules, rank) && bag in rules && i <= |rules[bag]|
    requires DefinedUpTo(rules, rank, bag, i)
    decreases Height(rules, rank, bag), i
  {
    if i == 0 then {}
    else
      var child := rules[bag][i - 1].1;
      assert child in rules ==> rank[child] < rank[bag];
      ContainedUpTo(rules, rank, bag, i - 1) + {child} + Contained(rules, rank, child)
  }

  /** `recursive_bag_expansion`: every contained bag's name is added to the
      set before the bag is expanded in turn; the count is one for the bag
      plus each amount times the child's count. `None` where the source
      panics on a bag without a rule. */
  method RecursiveBagExpansion(bag: string, rules: Ruleset, checked: set<string>,
                               ghost rank: map<string, nat>)
    returns (r: Option<(nat, set<string>)>)
    requires Ranked(rules, rank)
    ensures r.Some? <==> Defined(rules, rank, bag)
    ensures r.Some? ==> r.value.0 == BagCount(rules, rank, bag)
    ensures r.Some? ==> r.value.1 == checked + Contained(rules, rank, bag)
    decreases Height(rules, rank, bag)
  {
    if bag !in rules {
      return None;
    }
    var content := rules[bag];
    var count := 0;
    var seen := checked;
    var i := 0;
    while i < |content|
      invariant 0 <= i <= |content|
      invariant DefinedUpTo(rules, rank, bag, i)
      invariant count == InnerCount(rules, rank, bag, i)
      invariant seen == checked + ContainedUpTo(rules, rank, bag, i)
    {
      var (amount, child) := content[i];
      assert child in rules ==> rank[child] < rank[bag];
      seen := seen + {child};
      var sub := RecursiveBagExpansion(child, rules, seen, rank);
      if sub.None? {
        assert !Defined(rules, rank, bag);
        return None;
      }
      count := count + amount * sub.value.0;
      seen := sub.value.1;
      i := i + 1;
    }
    return Some((1 + count, seen));
  }

  /** `get_bags_contained_recursively_part1`: the contained set, starting
      from an empty one. */
  method BagsContainedPart1(bag: string, rules: Ruleset, ghost rank: map<string, nat>)
    returns (r: Option<set<string>>)
    requires Ranked(rules, rank)
    ensures r.Some? <==> Defined(rules, rank, bag)
    ensures r.Some? ==> r.value == Contained(rules, rank, bag)
  {
    var expansion := RecursiveBagExpansion(bag, rules, {}, rank);
    if expansion.None? {
      return None;
    }
    return Some(expansion.value.1);
  }

  /** `get_bags_contained_recursively_part2`: the count minus the bag itself,
      i.e. the number of bags strictly inside it. */
  method BagsContainedPart2(bag: string, rules: Ruleset, ghost rank: map<string, nat>)
    returns (r: Option<nat>)
    requires Ranked(rules, rank)
    ensures r.Some? <==> Defined(rules, rank, bag)
    ensures r.Some? ==> r.value == InnerCount(rules, rank, bag, |rules[bag]|)
  {
    var expansion := RecursiveBagExpansion(bag, rules, {}, rank);
    if expansion.None? {
      return None;
    }
    return Some(expansion.value.0 - 1);
  }

  // ---------------------------------------------------------------------
  // Properties of the expansion

  /** Every bag a defined bag transitively contains has a rule and ranks
      below it. */
  lemma {:induction false} ContainedBelow(rules: Ruleset, rank: map<string, nat>, bag: string)
    requires Ranked(rules, rank) && Defined(rules, rank, bag)
    ensures forall x :: x in Contained(rules, rank, bag) ==> x in rules && rank[x] < rank[bag]
    decreases Height(rules, rank, bag), |rules[bag]| + 1
  {
    ContainedUpToBelow(rules, rank, bag, |rules[bag]|);
  }

  lemma {:induction false} ContainedUpToBelow(rules: Ruleset, rank: map<string, nat>, bag: string, i: nat)
    requires Ranked(rules, rank) && Defined(rules, rank, bag) && i <= |rules[bag]|
    ensures forall x :: x in ContainedUpTo(rules, rank, bag, i) ==> x in rules && rank[x] < rank[bag]
    decreases Height(rules, rank, bag), i
  {
    if i > 0 {
      var child := rules[bag][i - 1].1;
      assert Defined(rules, rank, child);
      assert rank[child] < rank[bag];
      ContainedUpToBelow(rules, rank, bag, i - 1);
      ContainedBelow(rules, rank, child);
    }
  }

  /** No bag contains itself. */
  lemma NotContainedInItself(rules: Ruleset, rank: map<string, nat>, bag: string)
    requires Ranked(rules, rank) && Defined(rules, rank, bag)
    ensures bag !in Contained(rules, rank, bag)
  {
    ContainedBelow(rules, rank, bag);
  }

  /** `b` is one of the bags a rule for `a` lists directly. */
  predicate ChildOf(rules: Ruleset, a: string, b: string) {
    a in rules && exists k :: 0 <= k < |rules[a]| && rules[a][k].1 == b
  }

  /** A chain of at least one containment step. */
  predicate Chain(rules: Ruleset, p: seq<string>) {
    |p| >= 2 && forall i :: 0 <= i < |p| - 1 ==> ChildOf(rules, p[i], p[i + 1])
  }

  /** The contained set is exactly the set of bags reachable from the bag by
      one or more containment steps, whatever rank witnesses termination. */
  lemma ContainedReachable(rules: Ruleset, rank: map<string, nat>, a: string, b: string)
    requires Ranked(rules, rank) && Defined(rules, rank, a)
    ensures b in Contained(rules, rank, a) <==>
      exists p :: Chain(rules, p) && p[0] == a && p[|p| - 1] == b
  {
    if b in Contained(rules, rank, a) {
      ContainedChain(rules, rank, a, |rules[a]|, b);
    }
    if p :| Chain(rules, p) && p[0] == a && p[|p| - 1] == b {
      ChainContained(rules, rank, p);
    }
  }

  lemma {:induction false} ContainedChain(rules: Ruleset, rank: map<string, nat>, a: string, i: nat, b: string)
    requires Ranked(rules, rank) && Defined(rules, rank, a) && i <= |rules[a]|
    requires b in ContainedUpTo(rules, rank, a, i)
    ensures exists p :: Chain(rules, p) && p[0] == a && p[|p| - 1] == b
    decreases Height(rules, rank, a), i
  {
    var child := rules[a][i - 1].1;
    assert Defined(rules, rank, child);
    assert rank[child] < rank[a];
    if b in ContainedUpTo(rules, rank, a, i - 1) {
      ContainedChain(rules, rank, a, i - 1, b);
    } else if b == child {
      var p := [a, b];
      assert ChildOf(rules, p[0], p[1]);
      assert Chain(rules, p);
    } else {
      ContainedChain(rules, rank, child, |rules[child]|, b);
      var q :| Chain(rules, q) && q[0] == child && q[|q| - 1] == b;
      var p := [a] + q;
      assert ChildOf(rules, a, child);
      forall j | 0 <= j < |p| - 1 ensures ChildOf(rules, p[j], p[j + 1]) {
        if j > 0 {
          assert p[j] == q[j - 1] && p[j + 1] == q[j];
        }
      }
      assert Chain(rules, p);
    }
  }

  lemma {:induction false} ChainContained(rules: Ruleset, rank: map<string, nat>, p: seq<string>)
    requires Ranked(rules, rank) && Chain(rules, p) && Defined(rules, rank, p[0])
    ensures p[|p| - 1] in Contained(rules, rank, p[0])
    decreases |p|
  {
    var a := p[0];
    assert ChildOf(rules, p[0], p[1]);
    var k :| 0 <= k < |rules[a]| && rules[a][k].1 == p[1];
    ChildContained(rules, rank, a, |rules[a]|, k);
    if |p| > 2 {
      var q := p[1..];
      assert Defined(rules, rank, q[0]);
      forall j | 0 <= j < |q| - 1 ensures ChildOf(rules, q[j], q[j + 1]) {
        assert q[j] == p[j + 1] && q[j + 1] == p[j + 2];
      }
      ChainContained(rules, rank, q);
    }
  }

  /** A listed bag, and everything it contains, is in the contained set. */
  lemma {:induction false} ChildContained(rules: Ruleset, rank: map<string, nat>, a: string, i: nat, k: nat)
    requires Ranked(rules, rank) && Defined(rules, rank, a) && k < i <= |rules[a]|
    ensures rules[a][k].1 in ContainedUpTo(rules, rank, a, i)
    ensures Contained(rules, rank, rules[a][k].1) <= ContainedUpTo(rules, rank, a, i)
    decreases i
  {
    if k < i - 1 {
      ChildContained(rules, rank, a, i - 1, k);
    }
  }

  // ---------------------------------------------------------------------
  // Rule texts and the parser

  /** The text of one contained bag: "1 <name> bag" or "<n> <name> bags". */
  function ItemText(item: (nat, string)): string {
    Format(item.0, 10) + " " + item.1 + (if item.0 == 1 then " bag" else " bags")
  }

  /** The items joined by ", ". */
  function ItemList(content: BagContent): string
    requires |content| > 0
  {
    if |content| == 1 then ItemText(content[0])
    else ItemText(content[0]) + ", " + ItemList(content[1..])
  }

  /** The text of a rule: "<name> bags contain no other bags." for an empty
      content, otherwise the items followed by '.'. */
  function RuleText(name: string, content: BagContent): string {
    name + CONTAIN + if |content| == 0 then NO_OTHER else ItemList(content) + "."
  }

  /** A name the rule notation can carry: no ',', '.' or line break, no
      " bag" inside it (nor "bag" at its start), and not ending in
      "no other". */
  predicate BagName(name: string) {
    ',' !in name && '.' !in name && '\n' !in name && SeparatorFree(" " + name, " bag") &&
    !(|name| >= 8 && name[|name| - 8..] == "no other")
  }

  /** Every item has a `usize` amount and a name the notation can carry. */
  predicate Writable(content: BagContent) {
    forall k :: 0 <= k < |content| ==> content[k].0 < USIZE_BOUND && BagName(content[k].1)
  }

  /** An item is read back from its text, whatever follows the " bag". */
  lemma {:induction false} ItemRoundTrip(amount: nat, name: string, tail: string)
    requires amount < USIZE_BOUND && SeparatorFree(" " + name, " bag")
    ensures ItemFromString(Format(amount, 10) + " " + name + " bag" + tail) == Some((amount, name))
  {
    var f := Format(amount, 10);
    ParseFormat(amount, 10, USIZE_BOUND);
    ItemFields(f + " " + name + " bag" + tail, f, amount, name, tail);
  }

  /** The three steps of `ItemFromString` on an item text: the amount ends
      at the first ' ', the name ends at the first " bag". */
  lemma {:induction false} ItemFields(item: string, f: string, amount: nat, name: string, tail: string)
    requires item == f + " " + name + " bag" + tail
    requires AllDigits(f, 10) && ParseUsize(f) == Some(amount)
    requires SeparatorFree(" " + name, " bag")
    ensures ItemFromString(item) == Some((amount, name))
  {
    ItemSpace(item, f, amount, name, tail);
    ItemBag(item, f, name, tail);
    ItemParts(item, f, amount, name);
  }

  lemma {:induction false} ItemParts(item: string, f: string, amount: nat, name: string)
    requires Find(item, " ") == Some(|f|) && ParseUsize(item[..|f|]) == Some(amount)
    requires Find(item, " bag") == Some(|f| + 1 + |name|) && item[|f| + 1..|f| + 1 + |name|] == name
    ensures ItemFromString(item) == Some((amount, name))
  {
  }

  lemma {:induction false} ItemSpace(item: string, f: string, amount: nat, name: string, tail: string)
    requires item == f + " " + name + " bag" + tail
    requires AllDigits(f, 10) && ParseUsize(f) == Some(amount)
    ensures Find(item, " ") == Some(|f|) && ParseUsize(item[..|f|]) == Some(amount)
  {
    var rest := name + " bag" + tail;
    assert item == f + " " + rest;
    assert item[..|f|] == f;
    DecimalHasNo(f, ' ');
    FirstCharFree(f, " ");
    FindAfter(f, " ", rest);
  }

  lemma {:induction false} ItemBag(item: string, f: string, name: string, tail: string)
    requires item == f + " " + name + " bag" + tail
    requires AllDigits(f, 10) && SeparatorFree(" " + name, " bag")
    ensures Find(item, " bag") == Some(|f| + 1 + |name|)
    ensures item[|f| + 1..|f| + 1 + |name|] == name
  {
    DecimalHasNo(f, ' ');
    SeparatorFreeConcat(f, " " + name, " bag");
    assert f + (" " + name) == f + " " + name;
    FindAfter(f + " " + name, " bag", tail);
  }

  lemma {:induction false} ItemTextParses(item: (nat, string), tail: string)
    requires item.0 < USIZE_BOUND && SeparatorFree(" " + item.1, " bag")
    ensures ItemFromString(ItemText(item) + tail) == Some(item)
  {
    var (amount, name) := item;
    var f := Format(amount, 10);
    if amount == 1 {
      assert ItemText(item) + tail == f + " " + name + " bag" + tail;
      ItemRoundTrip(amount, name, tail);
    } else {
      assert ItemText(item) + tail == f + " " + name + " bag" + ("s" + tail);
      ItemRoundTrip(amount, name, "s" + tail);
    }
  }

  lemma {:induction false} ItemTextChars(item: (nat, string), c: char)
    requires c !in item.1 && c in ",.\n"
    ensures c !in ItemText(item)
  {
    DecimalHasNo(Format(item.0, 10), c);
  }

  lemma {:induction false} ItemListChars(content: BagContent, c: char)
    requires |content| > 0 && c in ".\n"
    requires forall k :: 0 <= k < |content| ==> c !in content[k].1
    ensures c !in ItemList(content)
  {
    ItemTextChars(content[0], c);
    if |content| > 1 {
      ItemListChars(content[1..], c);
    }
  }

  /** Splitting the item list (with `tail` after its last item) at ", "
      gives one piece per item, and the pieces parse back to the items. */
  lemma {:induction false} ItemsSplit(content: BagContent, tail: string)
    requires |content| > 0 && Writable(content) && ',' !in tail
    ensures MapAll(ItemFromString, SplitOn(ItemList(content) + tail, ", ")) == Some(content)
  {
    Uncons(content);
    if |content| == 1 {
      ItemsSplitLast(content[0], tail);
      assert content[1..] == [];
    } else {
      var rest := content[1..];
      assert Writable(rest);
      ItemsSplit(rest, tail);
      assert ItemList(content) + tail == ItemText(content[0]) + ", " + (ItemList(rest) + tail);
      ItemsSplitCons(content[0], ItemList(rest) + tail, rest);
    }
  }

  /** The last item with whatever follows it is one piece that parses. */
  lemma ItemsSplitLast(item: (nat, string), tail: string)
    requires item.0 < USIZE_BOUND && BagName(item.1) && ',' !in tail
    ensures MapAll(ItemFromString, SplitOn(ItemText(item) + tail, ", ")) == Some([item] + [])
  {
    var piece := ItemText(item) + tail;
    ItemTextChars(item, ',');
    assert ',' !in piece;
    FirstCharFree(piece, ", ");
    SplitOnWhole(piece, ", ");
    ItemTextParses(item, tail);
    MapAllCons(ItemFromString, piece, []);
    assert [piece] + [] == [piece];
  }

  /** An item followed by ", " adds one piece in front, which parses. */
  lemma ItemsSplitCons(item: (nat, string), after: string, items: BagContent)
    requires item.0 < USIZE_BOUND && BagName(item.1)
    requires MapAll(ItemFromString, SplitOn(after, ", ")) == Some(items)
    ensures MapAll(ItemFromString, SplitOn(ItemText(item) + ", " + after, ", ")) == Some([item] + items)
  {
    var first := ItemText(item);
    ItemTextChars(item, ',');
    FirstCharFree(first, ", ");
    SplitOnFirst(first, ", ", after);
    ItemTextParses(item, "");
    assert first + "" == first;
    MapAllCons(ItemFromString, first, SplitOn(after, ", "));
  }

  /** A name free of " bag" is free of " bags contain ". */
  lemma NameBeforeContain(name: string)
    requires SeparatorFree(" " + name, " bag")
    ensures SeparatorFree(name, CONTAIN)
  {
    var s := name + CONTAIN;
    var t := " " + name + " bag";
    forall j: nat | j < |name| ensures !OccursAt(s, CONTAIN, j) {
      assert !OccursAt(t, " bag", j + 1);
      assert t[j + 1..j + 5] == s[j..j + 4];
      assert s[j..j + |CONTAIN|][..4] == s[j..j + 4];
    }
  }

  /** The item list ends with the text of the last item. */
  lemma {:induction false} ItemListLast(content: BagContent) returns (init: string)
    requires |content| > 0
    ensures ItemList(content) == init + ItemText(content[|content| - 1])
  {
    if |content| == 1 {
      init := "";
    } else {
      var rest := content[1..];
      var i := ItemListLast(rest);
      assert rest[|rest| - 1] == content[|content| - 1];
      init := ItemText(content[0]) + ", " + i;
      Assoc(ItemText(content[0]) + ", ", i, ItemText(content[|content| - 1]));
    }
  }

  /** Text ending in a digit, a space and a name not ending in "no other"
      does not end in "no other" either. */
  lemma NoOtherTail(p: string, name: string)
    requires |p| > 0 && '0' <= p[|p| - 1] <= '9'
    requires !(|name| >= 8 && name[|name| - 8..] == "no other")
    ensures var s := p + " " + name; !(|s| >= 8 && s[|s| - 8..] == "no other")
  {
    var s := p + " " + name;
    var m := |name|;
    if |s| >= 8 {
      if m >= 8 {
        assert s[|s| - 8..] == name[m - 8..];
      } else {
        assert s[|s| - 8..][7 - m] == ' ';
        if m == 5 {
          assert s[|s| - 8..][1] == p[|p| - 1];
        }
      }
    }
  }

  /** Where '.' only ends the text, "no other bags." can only occur as its
      last fourteen characters. */
  lemma DotOnlyAtEnd(body: string, j: nat)
    requires '.' !in body && j + 13 < |body|
    ensures !OccursAt(body + ".", NO_OTHER, j)
  {
    var rule := body + ".";
    assert rule[j..j + 14][13] == body[j + 13];
  }

  /** A rule text ending in an item does not end in "no other bags.". */
  lemma {:induction false} LastItemNotNoOther(prefix: string, last: (nat, string), rule: string)
    requires !(|last.1| >= 8 && last.1[|last.1| - 8..] == "no other")
    requires rule == prefix + ItemText(last) + "." && |rule| >= 14
    ensures !OccursAt(rule, NO_OTHER, |rule| - 14)
  {
    var f := Format(last.0, 10);
    if last.0 == 1 {
      SingularNotNoOther(prefix, f + " " + last.1, rule);
    } else {
      assert IsDigit(f[|f| - 1], 10);
      PluralNotNoOther(prefix, f, last.1, rule);
    }
  }

  lemma SingularNotNoOther(prefix: string, s: string, rule: string)
    requires rule == prefix + (s + " bag") + "." && |rule| >= 14
    ensures !OccursAt(rule, NO_OTHER, |rule| - 14)
  {
    assert rule[|rule| - 14..|rule|][12] == rule[|rule| - 2] == 'g';
  }

  lemma PluralNotNoOther(prefix: string, f: string, name: string, rule: string)
    requires rule == prefix + (f + " " + name + " bags") + "." && |rule| >= 14
    requires |f| > 0 && '0' <= f[|f| - 1] <= '9'
    requires !(|name| >= 8 && name[|name| - 8..] == "no other")
    ensures !OccursAt(rule, NO_OTHER, |rule| - 14)
  {
    var p := prefix + f;
    var s := p + " " + name;
    assert rule == s + " bags" + ".";
    NoOtherTail(p, name);
    assert rule[..|s|] == s;
    assert rule[|rule| - 14..|rule|][..8] == rule[..|s|][|s| - 8..];
  }

  /** A rule with contents never mentions "no other bags.", so its items are
      read. */
  lemma {:induction false} NoOtherAbsent(name: string, content: BagContent)
    requires |content| > 0 && BagName(name) && Writable(content)
    ensures !Contains(RuleText(name, content), NO_OTHER)
  {
    var init := ItemListLast(content);
    ItemListChars(content, '.');
    NoOtherAfterName(name, ItemList(content), init, content[|content| - 1], RuleText(name, content));
  }

  lemma NoOtherAfterName(name: string, items: string, init: string, last: (nat, string), rule: string)
    requires rule == name + CONTAIN + (items + ".") && items == init + ItemText(last)
    requires '.' !in name && '.' !in items
    requires !(|last.1| >= 8 && last.1[|last.1| - 8..] == "no other")
    ensures !Contains(rule, NO_OTHER)
  {
    var prefix := name + CONTAIN + init;
    assert rule == prefix + ItemText(last) + ".";
    assert '.' !in prefix + ItemText(last);
    NoOtherBeforeDot(prefix, last);
  }

  lemma NoOtherBeforeDot(prefix: string, last: (nat, string))
    requires '.' !in prefix + ItemText(last)
    requires !(|last.1| >= 8 && last.1[|last.1| - 8..] == "no other")
    ensures !Contains(prefix + ItemText(last) + ".", NO_OTHER)
  {
    var body := prefix + ItemText(last);
    forall j: nat ensures !OccursAt(body + ".", NO_OTHER, j) {
      if j + 13 < |body| {
        DotOnlyAtEnd(body, j);
      } else if j + 13 == |body| {
        LastItemNotNoOther(prefix, last, body + ".");
      }
    }
  }

  /** A rule is read back from its text. */
  lemma {:induction false} RuleRoundTrip(name: string, content: BagContent)
    requires BagName(name) && Writable(content)
    ensures RuleOf(RuleText(name, content)) == Some((name, content))
  {
    var rule := RuleText(name, content);
    var body := if |content| == 0 then NO_OTHER else ItemList(content) + ".";
    NameBeforeContain(name);
    FindAfter(name, CONTAIN, body);
    assert rule[..|name|] == name;
    assert rule[|name| + |CONTAIN|..] == body;
    if |content| == 0 {
      assert OccursAt(rule, NO_OTHER, |name| + |CONTAIN|);
    } else {
      NoOtherAbsent(name, content);
      ItemsSplit(content, ".");
    }
  }

  // ---------------------------------------------------------------------
  // Properties of the ruleset parser

  /** The line at `k` is a rule whose key is `key`. */
  predicate RuleFor<K(==), V>(parse: string -> Option<(K, V)>, lines: seq<string>, k: int, key: K)
    requires 0 <= k < |lines|
  {
    lines[k] != "" && parse(lines[k]).Some? && parse(lines[k]).value.0 == key
  }

  /** The ruleset is read exactly when every non-empty line is a rule. */
  lemma {:induction false} CollectDefined<K, V>(parse: string -> Option<(K, V)>, lines: seq<string>)
    ensures Collect(parse, lines).Some? <==>
      forall k :: 0 <= k < |lines| && lines[k] != "" ==> parse(lines[k]).Some?
  {
    if |lines| > 0 {
      var n := |lines| - 1;
      CollectDefined(parse, lines[..n]);
      assert forall k :: 0 <= k < n ==> lines[..n][k] == lines[k];
    }
  }

  /** The keys are those named by some non-empty line. */
  lemma {:induction false} CollectKeys<K, V>(parse: string -> Option<(K, V)>, lines: seq<string>, key: K)
    requires Collect(parse, lines).Some?
    ensures key in Collect(parse, lines).value <==> exists k :: 0 <= k < |lines| && RuleFor(parse, lines, k, key)
  {
    if |lines| > 0 {
      var n := |lines| - 1;
      assert Collect(parse, lines[..n]).Some?;
      CollectKeys(parse, lines[..n], key);
      assert forall k :: 0 <= k < n ==> lines[..n][k] == lines[k];
      assert forall k :: 0 <= k < n ==> (RuleFor(parse, lines[..n], k, key) <==> RuleFor(parse, lines, k, key));
      if exists k :: 0 <= k < |lines| && RuleFor(parse, lines, k, key) {
        var k :| 0 <= k < |lines| && RuleFor(parse, lines, k, key);
        if k < n {
          assert RuleFor(parse, lines[..n], k, key);
        }
      }
      if key in Collect(parse, lines).value && !RuleFor(parse, lines, n, key) {
        assert key in Collect(parse, lines[..n]).value;
      }
    }
  }

  /** A later rule for the same key replaces an earlier one: the value kept
      is the one on the last line naming the key. */
  lemma {:induction false} CollectLast<K, V>(parse: string -> Option<(K, V)>, lines: seq<string>, k: nat, key: K)
    requires Collect(parse, lines).Some? && k < |lines| && RuleFor(parse, lines, k, key)
    requires forall k' :: k < k' < |lines| ==> !RuleFor(parse, lines, k', key)
    ensures key in Collect(parse, lines).value
    ensures Collect(parse, lines).value[key] == parse(lines[k]).value.1
  {
    var n := |lines| - 1;
    assert Collect(parse, lines[..n]).Some?;
    if k < n {
      assert forall k' :: 0 <= k' < n ==> lines[..n][k'] == lines[k'];
      assert forall k' :: 0 <= k' < n ==> (RuleFor(parse, lines[..n], k', key) <==> RuleFor(parse, lines, k', key));
      CollectLast(parse, lines[..n], k, key);
      assert !RuleFor(parse, lines, n, key);
    }
  }

  /** The lines of a ruleset text, one rule per entry. */
  function RuleLines(entries: seq<(string, BagContent)>): seq<string> {
    seq(|entries|, i requires 0 <= i < |entries| => RuleText(entries[i].0, entries[i].1))
  }

  /** The text of a ruleset: its rules on separate lines. */
  function RulesetText(entries: seq<(string, BagContent)>): string {
    Join(RuleLines(entries), "\n")
  }

  lemma RuleTextOneLine(name: string, content: BagContent)
    requires BagName(name) && Writable(content)
    ensures '\n' !in RuleText(name, content) && RuleText(name, content) != ""
  {
    if |content| > 0 {
      ItemListChars(content, '\n');
    }
  }

  /** Each line of a ruleset text is one rule, and it parses back. */
  lemma RuleLinesParse(entries: seq<(string, BagContent)>)
    requires forall i :: 0 <= i < |entries| ==> BagName(entries[i].0) && Writable(entries[i].1)
    ensures Split(RulesetText(entries), '\n') == if |entries| == 0 then [""] else RuleLines(entries)
    ensures forall k :: 0 <= k < |entries| ==>
      RuleLines(entries)[k] != "" && RuleOf(RuleLines(entries)[k]) == Some(entries[k])
  {
    var lines := if |entries| == 0 then [""] else RuleLines(entries);
    assert Join(lines, "\n") == RulesetText(entries);
    forall k | 0 <= k < |lines| ensures '\n' !in lines[k] {
      if |entries| > 0 {
        RuleTextOneLine(entries[k].0, entries[k].1);
      }
    }
    SplitJoin(lines, '\n');
    forall k | 0 <= k < |entries|
      ensures RuleLines(entries)[k] != "" && RuleOf(RuleLines(entries)[k]) == Some(entries[k])
    {
      RuleTextOneLine(entries[k].0, entries[k].1);
      RuleRoundTrip(entries[k].0, entries[k].1);
    }
  }

  /** A ruleset with distinct, writable names is read back from its text:
      every name maps to its content, and there are no other keys. */
  lemma {:induction false} RulesetRoundTrip(entries: seq<(string, BagContent)>)
    requires forall i :: 0 <= i < |entries| ==> BagName(entries[i].0) && Writable(entries[i].1)
    requires forall i, j :: 0 <= i < j < |entries| ==> entries[i].0 != entries[j].0
    ensures Collect(RuleOf, Split(RulesetText(entries), '\n')).Some?
    ensures var rules := Collect(RuleOf, Split(RulesetText(entries), '\n')).value;
      (forall i :: 0 <= i < |entries| ==> entries[i].0 in rules && rules[entries[i].0] == entries[i].1) &&
      (forall key :: key in rules ==> exists i :: 0 <= i < |entries| && entries[i].0 == key)
  {
    RuleLinesParse(entries);
    if |entries| == 0 {
      assert Collect(RuleOf, [""]) == Insert(RuleOf, Collect(RuleOf, []), "");
    } else {
      var lines := RuleLines(entries);
      CollectDefined(RuleOf, lines);
      RulesetEntries(entries, lines);
    }
  }

  lemma RulesetEntries(entries: seq<(string, BagContent)>, lines: seq<string>)
    requires |lines| == |entries| && Collect(RuleOf, lines).Some?
    requires forall k :: 0 <= k < |entries| ==> lines[k] != "" && RuleOf(lines[k]) == Some(entries[k])
    requires forall i, j :: 0 <= i < j < |entries| ==> entries[i].0 != entries[j].0
    ensures var rules := Collect(RuleOf, lines).value;
      (forall i :: 0 <= i < |entries| ==> entries[i].0 in rules && rules[entries[i].0] == entries[i].1) &&
      (forall key :: key in rules ==> exists i :: 0 <= i < |entries| && entries[i].0 == key)
  {
    var rules := Collect(RuleOf, lines).value;
    forall i | 0 <= i < |entries|
      ensures entries[i].0 in rules && rules[entries[i].0] == entries[i].1
    {
      CollectLast(RuleOf, lines, i, entries[i].0);
    }
    forall key | key in rules
      ensures exists i :: 0 <= i < |entries| && entries[i].0 == key
    {
      CollectKeys(RuleOf, lines, key);
      var k :| 0 <= k < |lines| && RuleFor(RuleOf, lines, k, key);
      assert entries[k].0 == key;
    }
  }
}

/** The example rules of the puzzle statement. The nine colours are kept
    abstract, distinct from each other, until the last lemma. */
module Day07Examples {
  import opened Wrappers
  import opened Text
  import opened Numbers
  import opened Day07

  datatype Colours = Colours(lightRed: string, darkOrange: string, brightWhite: string,
                             mutedYellow: string, shinyGold: string, darkOlive: string,
                             vibrantPlum: string, fadedBlue: string, dottedBlack: string)

  /** The nine colours are pairwise different. */
  predicate Distinct(c: Colours) {
    c.lightRed != c.darkOrange && c.lightRed != c.brightWhite && c.lightRed != c.mutedYellow && c.lightRed != c.shinyGold && c.lightRed != c.darkOlive && c.lightRed != c.vibrantPlum && c.lightRed != c.fadedBlue && c.lightRed != c.dottedBlack &&
    c.darkOrange != c.brightWhite && c.darkOrange != c.mutedYellow && c.darkOrange != c.shinyGold && c.darkOrange != c.darkOlive && c.darkOrange != c.vibrantPlum && c.darkOrange != c.fadedBlue && c.darkOrange != c.dottedBlack &&
    c.brightWhite != c.mutedYellow && c.brightWhite != c.shinyGold && c.brightWhite != c.darkOlive && c.brightWhite != c.vibrantPlum && c.brightWhite != c.fadedBlue && c.brightWhite != c.dottedBlack &&
    c.mutedYellow != c.shinyGold && c.mutedYellow != c.darkOlive && c.mutedYellow != c.vibrantPlum && c.mutedYellow != c.fadedBlue && c.mutedYellow != c.dottedBlack &&
    c.shinyGold != c.darkOlive && c.shinyGold != c.vibrantPlum && c.shinyGold != c.fadedBlue && c.shinyGold != c.dottedBlack &&
    c.darkOlive != c.vibrantPlum && c.darkOlive != c.fadedBlue && c.darkOlive != c.dottedBlack &&
    c.vibrantPlum != c.fadedBlue && c.vibrantPlum != c.dottedBlack &&
    c.fadedBlue != c.dottedBlack
  }

  function Example(c: Colours): Ruleset {
    map[
      c.lightRed := [(1, c.brightWhite), (2, c.mutedYellow)],
      c.darkOrange := [(3, c.brightWhite), (4, c.mutedYellow)],
      c.brightWhite := [(1, c.shinyGold)],
      c.mutedYellow := [(2, c.shinyGold), (9, c.fadedBlue)],
      c.shinyGold := [(1, c.darkOlive), (2, c.vibrantPlum)],
      c.darkOlive := [(3, c.fadedBlue), (4, c.dottedBlack)],
      c.vibrantPlum := [(5, c.fadedBlue), (6, c.dottedBlack)],
      c.fadedBlue := [],
      c.dottedBlack := []]
  }

  /** How deep each bag nests. */
  function Depth(c: Colours): map<string, nat> {
    map[
      c.lightRed := 4, c.darkOrange := 4, c.brightWhite := 3, c.mutedYellow := 3,
      c.shinyGold := 2, c.darkOlive := 1, c.vibrantPlum := 1,
      c.fadedBlue := 0, c.dottedBlack := 0]
  }

  lemma ExampleRanked(c: Colours)
    requires Distinct(c)
    ensures Ranked(Example(c), Depth(c))
  {
  }

  lemma ExampleLeaves(c: Colours)
    requires Distinct(c)
    ensures Ranked(Example(c), Depth(c))
    ensures Defined(Example(c), Depth(c), c.fadedBlue) && Defined(Example(c), Depth(c), c.dottedBlack)
    ensures BagCount(Example(c), Depth(c), c.fadedBlue) == 1
    ensures BagCount(Example(c), Depth(c), c.dottedBlack) == 1
    ensures Contained(Example(c), Depth(c), c.fadedBlue) == {}
    ensures Contained(Example(c), Depth(c), c.dottedBlack) == {}
  {
    ExampleRanked(c);
  }

  lemma ExampleDarkOlive(c: Colours)
    requires Distinct(c)
    ensures Ranked(Example(c), Depth(c)) && Defined(Example(c), Depth(c), c.darkOlive)
    ensures BagCount(Example(c), Depth(c), c.darkOlive) == 8
    ensures Contained(Example(c), Depth(c), c.darkOlive) == {c.fadedBlue, c.dottedBlack}
  {
    ExampleLeaves(c);
    var rules, rank := Example(c), Depth(c);
    assert rules[c.darkOlive] == [(3, c.fadedBlue), (4, c.dottedBlack)];
    assert DefinedUpTo(rules, rank, c.darkOlive, 1);
    assert InnerCount(rules, rank, c.darkOlive, 0) == 0;
    assert InnerCount(rules, rank, c.darkOlive, 1) == 3 * BagCount(rules, rank, c.fadedBlue);
    assert ContainedUpTo(rules, rank, c.darkOlive, 1) == {c.fadedBlue};
  }

  lemma ExampleVibrantPlum(c: Colours)
    requires Distinct(c)
    ensures Ranked(Example(c), Depth(c)) && Defined(Example(c), Depth(c), c.vibrantPlum)
    ensures BagCount(Example(c), Depth(c), c.vibrantPlum) == 12
    ensures Contained(Example(c), Depth(c), c.vibrantPlum) == {c.fadedBlue, c.dottedBlack}
  {
    ExampleLeaves(c);
    var rules, rank := Example(c), Depth(c);
    assert rules[c.vibrantPlum] == [(5, c.fadedBlue), (6, c.dottedBlack)];
    assert DefinedUpTo(rules, rank, c.vibrantPlum, 1);
    assert InnerCount(rules, rank, c.vibrantPlum, 0) == 0;
    assert InnerCount(rules, rank, c.vibrantPlum, 1) == 5 * BagCount(rules, rank, c.fadedBlue);
    assert ContainedUpTo(rules, rank, c.vibrantPlum, 1) == {c.fadedBlue};
  }

  lemma ExampleShinyGold(c: Colours)
    requires Distinct(c)
    ensures Ranked(Example(c), Depth(c)) && Defined(Example(c), Depth(c), c.shinyGold)
    ensures BagCount(Example(c), Depth(c), c.shinyGold) == 33
    ensures Contained(Example(c), Depth(c), c.shinyGold)
         == {c.darkOlive, c.vibrantPlum, c.fadedBlue, c.dottedBlack}
  {
    ExampleDarkOlive(c);
    ExampleVibrantPlum(c);
    var rules, rank := Example(c), Depth(c);
    assert rules[c.shinyGold] == [(1, c.darkOlive), (2, c.vibrantPlum)];
    assert DefinedUpTo(rules, rank, c.shinyGold, 1);
    assert InnerCount(rules, rank, c.shinyGold, 0) == 0;
    assert InnerCount(rules, rank, c.shinyGold, 1) == BagCount(rules, rank, c.darkOlive);
    assert ContainedUpTo(rules, rank, c.shinyGold, 1) == {c.darkOlive} + Contained(rules, rank, c.darkOlive);
  }

  lemma ExampleBrightWhite(c: Colours)
    requires Distinct(c)
    ensures Ranked(Example(c), Depth(c)) && Defined(Example(c), Depth(c), c.brightWhite)
    ensures c.shinyGold in Contained(Example(c), Depth(c), c.brightWhite)
  {
    ExampleShinyGold(c);
    var rules, rank := Example(c), Depth(c);
    assert rules[c.brightWhite] == [(1, c.shinyGold)];
    assert c.shinyGold in ContainedUpTo(rules, rank, c.brightWhite, 1);
  }

  lemma ExampleMutedYellow(c: Colours)
    requires Distinct(c)
    ensures Ranked(Example(c), Depth(c)) && Defined(Example(c), Depth(c), c.mutedYellow)
    ensures c.shinyGold in Contained(Example(c), Depth(c), c.mutedYellow)
  {
    ExampleShinyGold(c);
    ExampleLeaves(c);
    var rules, rank := Example(c), Depth(c);
    assert rules[c.mutedYellow] == [(2, c.shinyGold), (9, c.fadedBlue)];
    assert c.shinyGold in ContainedUpTo(rules, rank, c.mutedYellow, 1);
  }

  lemma ExampleLightRed(c: Colours)
    requires Distinct(c)
    ensures Ranked(Example(c), Depth(c)) && Defined(Example(c), Depth(c), c.lightRed)
    ensures c.shinyGold in Contained(Example(c), Depth(c), c.lightRed)
  {
    ExampleBrightWhite(c);
    ExampleMutedYellow(c);
    var rules, rank := Example(c), Depth(c);
    assert rules[c.lightRed] == [(1, c.brightWhite), (2, c.mutedYellow)];
    assert c.shinyGold in ContainedUpTo(rules, rank, c.lightRed, 1);
  }

  lemma ExampleDarkOrange(c: Colours)
    requires Distinct(c)
    ensures Ranked(Example(c), Depth(c)) && Defined(Example(c), Depth(c), c.darkOrange)
    ensures c.shinyGold in Contained(Example(c), Depth(c), c.darkOrange)
  {
    ExampleBrightWhite(c);
    ExampleMutedYellow(c);
    var rules, rank := Example(c), Depth(c);
    assert rules[c.darkOrange] == [(3, c.brightWhite), (4, c.mutedYellow)];
    assert c.shinyGold in ContainedUpTo(rules, rank, c.darkOrange, 1);
  }

  lemma ExampleDefined(c: Colours)
    requires Distinct(c)
    ensures Ranked(Example(c), Depth(c))
    ensures forall b :: b in Example(c) ==> Defined(Example(c), Depth(c), b)
  {
    ExampleRanked(c);
    forall b | b in Example(c) ensures Defined(Example(c), Depth(c), b) {
      if b == c.lightRed { ExampleLightRed(c); }
      else if b == c.darkOrange { ExampleDarkOrange(c); }
      else if b == c.brightWhite { ExampleBrightWhite(c); }
      else if b == c.mutedYellow { ExampleMutedYellow(c); }
      else if b == c.shinyGold { ExampleShinyGold(c); }
      else if b == c.darkOlive { ExampleDarkOlive(c); }
      else if b == c.vibrantPlum { ExampleVibrantPlum(c); }
      else { ExampleLeaves(c); }
    }
  }


  /** Part 1 of the example: exactly four colours can eventually hold a
      shiny gold bag. */
  lemma ExamplePart1(c: Colours)
    requires Distinct(c)
    ensures Ranked(Example(c), Depth(c))
    ensures forall b :: b in Example(c) ==> Defined(Example(c), Depth(c), b)
    ensures forall b :: b in Example(c) ==>
      (c.shinyGold in Contained(Example(c), Depth(c), b) <==>
       b in {c.brightWhite, c.mutedYellow, c.darkOrange, c.lightRed})
  {
    ExampleDefined(c);
    var rules, rank := Example(c), Depth(c);
    var containers := {c.brightWhite, c.mutedYellow, c.darkOrange, c.lightRed};
    forall b | b in rules
      ensures c.shinyGold in Contained(rules, rank, b) <==> b in containers
    {
      if b == c.lightRed { ExampleLightRed(c); }
      else if b == c.darkOrange { ExampleDarkOrange(c); }
      else if b == c.brightWhite { ExampleBrightWhite(c); }
      else if b == c.mutedYellow { ExampleMutedYellow(c); }
      else if b == c.shinyGold { NotContainedInItself(rules, rank, b); }
      else if b == c.darkOlive { ExampleDarkOlive(c); }
      else if b == c.vibrantPlum { ExampleVibrantPlum(c); }
      else { ExampleLeaves(c); }
    }
  }

  /** The colours as the puzzle names them. */
  const PUZZLE := Colours("light red", "dark orange", "bright white", "muted yellow", "shiny gold",
                          "dark olive", "vibrant plum", "faded blue", "dotted black")

  /** The two answers of the example: 4 colours hold a shiny gold bag, which
      holds 32 other bags. */
  lemma PuzzleExample()
    ensures Ranked(Example(PUZZLE), Depth(PUZZLE))
    ensures forall b :: b in Example(PUZZLE) ==> Defined(Example(PUZZLE), Depth(PUZZLE), b)
    ensures forall b :: b in Example(PUZZLE) ==>
      (PUZZLE.shinyGold in Contained(Example(PUZZLE), Depth(PUZZLE), b) <==>
       b in {"bright white", "muted yellow", "dark orange", "light red"})
    ensures InnerCount(Example(PUZZLE), Depth(PUZZLE), "shiny gold", |Example(PUZZLE)["shiny gold"]|) == 32
  {
    assert Distinct(PUZZLE);
    ExamplePart1(PUZZLE);
    ExampleShinyGold(PUZZLE);
  }

  /** A separator cannot start inside text lacking one of its characters,
      provided that character does not occur earlier in the separator. */
  lemma MissingChar(a: string, sep: string, m: nat)
    requires m < |sep| && sep[m] !in a && sep[m] !in sep[..m]
    ensures SeparatorFree(a, sep)
  {
    forall j: nat | j < |a| ensures !OccursAt(a + sep, sep, j) {
      var s := a + sep;
      if j + |sep| <= |s| {
        assert s[j..j + |sep|][m] == s[j + m];
        if j + m < |a| {
          assert s[j + m] == a[j + m];
        } else {
          assert s[j + m] == sep[j + m - |a|] == sep[..m][j + m - |a|];
        }
      }
    }
  }

  /** A name without ',', '.' or line break, missing one of the characters
      of " bag", and not ending in "no other", can be written. */
  lemma LongName(name: string, m: nat)
    requires ',' !in name && '.' !in name && '\n' !in name && |name| >= 8 && name[|name| - 8] != 'n'
    requires 0 < m < 4 && " bag"[m] !in name
    ensures BagName(name)
  {
    assert " bag"[m] !in " bag"[..m];
    MissingChar(" " + name, " bag", m);
    assert name[|name| - 8..][0] == name[|name| - 8];
  }

  /** The colours of the puzzle can be written as rule names. */
  lemma LightRedName() ensures BagName("light red") { LongName("light red", 1); }
  lemma BrightWhiteName() ensures BagName("bright white") { LongName("bright white", 2); }
  lemma MutedYellowName() ensures BagName("muted yellow") { LongName("muted yellow", 1); }
  lemma ShinyGoldName() ensures BagName("shiny gold") { LongName("shiny gold", 1); }
  lemma FadedBlueName() ensures BagName("faded blue") { LongName("faded blue", 3); }

  /** The three lines of the parser example. */
  function ParseLines(c: Colours): seq<string> {
    [c.lightRed + " bags contain 1 " + c.brightWhite + " bag, 2 " + c.mutedYellow + " bags.",
     c.brightWhite + " bags contain 1 " + c.shinyGold + " bag.",
     c.fadedBlue + " bags contain no other bags."]
  }

  /** The rules the parser example lists. */
  function ParseEntries(c: Colours): seq<(string, BagContent)> {
    [(c.lightRed, [(1, c.brightWhite), (2, c.mutedYellow)]),
     (c.brightWhite, [(1, c.shinyGold)]),
     (c.fadedBlue, [])]
  }

  lemma ParseLine1(c: Colours)
    ensures RuleText(c.lightRed, [(1, c.brightWhite), (2, c.mutedYellow)]) == ParseLines(c)[0]
  {
    assert Format(1, 10) == "1" && Format(2, 10) == "2";
    var items: BagContent := [(1, c.brightWhite), (2, c.mutedYellow)];
    assert items[1..] == [(2, c.mutedYellow)];
    var first, second := "1 " + c.brightWhite + " bag", "2 " + c.mutedYellow + " bags";
    assert ItemText(items[0]) == first;
    assert ItemText(items[1]) == second;
    assert ItemList(items) == first + ", " + second;
  }

  lemma ParseLine2(c: Colours)
    ensures RuleText(c.brightWhite, [(1, c.shinyGold)]) == ParseLines(c)[1]
  {
    assert Format(1, 10) == "1";
  }

  lemma ParseLine3(c: Colours)
    ensures RuleText(c.fadedBlue, []) == ParseLines(c)[2]
  {
  }

  /** The lines of the parser example are the texts of its rules. */
  lemma ParseText(c: Colours)
    ensures RulesetText(ParseEntries(c)) == Join(ParseLines(c), "\n")
  {
    var entries, lines := ParseEntries(c), ParseLines(c);
    ParseLine1(c); ParseLine2(c); ParseLine3(c);
    assert RuleLines(entries)[0] == lines[0];
    assert RuleLines(entries)[1] == lines[1];
    assert RuleLines(entries)[2] == lines[2];
    assert RuleLines(entries) == lines;
  }

  /** A map holding exactly the rules of the parser example is the one the
      test lists. */
  lemma ParseMap(c: Colours, rules: Ruleset)
    requires var entries := ParseEntries(c);
      (forall i :: 0 <= i < |entries| ==> entries[i].0 in rules && rules[entries[i].0] == entries[i].1) &&
      (forall key :: key in rules ==> exists i :: 0 <= i < |entries| && entries[i].0 == key)
    ensures rules == map[
      c.lightRed := [(1, c.brightWhite), (2, c.mutedYellow)],
      c.brightWhite := [(1, c.shinyGold)],
      c.fadedBlue := []]
  {
    var entries := ParseEntries(c);
    assert entries[0].0 in rules && entries[1].0 in rules && entries[2].0 in rules;
    assert rules.Keys == {c.lightRed, c.brightWhite, c.fadedBlue};
  }

  /** The parser example: three lines give three entries, the contents in
      textual order and the last rule without contents. */
  lemma ExampleParse(c: Colours)
    requires Distinct(c)
    requires BagName(c.lightRed) && BagName(c.brightWhite) && BagName(c.mutedYellow)
    requires BagName(c.shinyGold) && BagName(c.fadedBlue)
    ensures Collect(RuleOf, Split(Join(ParseLines(c), "\n"), '\n')) == Some(map[
      c.lightRed := [(1, c.brightWhite), (2, c.mutedYellow)],
      c.brightWhite := [(1, c.shinyGold)],
      c.fadedBlue := []])
  {
    ParseText(c);
    RulesetRoundTrip(ParseEntries(c));
    ParseMap(c, Collect(RuleOf, Split(Join(ParseLines(c), "\n"), '\n')).value);
  }

  /** The parser example with the colours as the puzzle names them. */
  lemma ExampleParseRules()
    ensures Collect(RuleOf, Split(Join(ParseLines(PUZZLE), "\n"), '\n')) == Some(map[
      PUZZLE.lightRed := [(1, PUZZLE.brightWhite), (2, PUZZLE.mutedYellow)],
      PUZZLE.brightWhite := [(1, PUZZLE.shinyGold)],
      PUZZLE.fadedBlue := []])
  {
    assert Distinct(PUZZLE);
    LightRedName(); BrightWhiteName(); MutedYellowName(); ShinyGoldName(); FadedBlueName();
    ExampleParse(PUZZLE);
  }
}
