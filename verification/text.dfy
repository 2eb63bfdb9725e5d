/** The string operations of Rust's `str` that the solvers rely on:
    `find`, `split` (by a character or a string), `lines` and
    `split_whitespace`. Strings are ASCII sequences of `char`. */
module Text {
  import opened Wrappers

  /** `pat` occurs in `s` starting at index `i`. */
  predicate OccursAt(s: string, pat: string, i: nat) {
    i + |pat| <= |s| && s[i..i + |pat|] == pat
  }

  lemma OccursAtTail(s: string, pat: string, j: nat)
    requires |s| > 0
    ensures OccursAt(s, pat, j + 1) <==> OccursAt(s[1..], pat, j)
  {
    if j + 1 + |pat| <= |s| {
      assert s[j + 1..j + 1 + |pat|] == s[1..][j..j + |pat|];
    }
  }

  /** `str::find`: the index of the first occurrence of `pat` in `s`. */
  function Find(s: string, pat: string): (r: Option<nat>)
    ensures r.Some? ==> OccursAt(s, pat, r.value)
    ensures r.Some? ==> forall j: nat :: j < r.value ==> !OccursAt(s, pat, j)
    ensures r.None? ==> forall j: nat :: !OccursAt(s, pat, j)
    decreases |s|
  {
    if |s| < |pat| then None
    else if s[..|pat|] == pat then Some(0)
    else
      var rest := Find(s[1..], pat);
      assert !OccursAt(s, pat, 0) by { assert s[0..|pat|] == s[..|pat|]; }
      assert forall j: nat :: OccursAt(s, pat, j + 1) <==> OccursAt(s[1..], pat, j) by {
        forall j: nat { OccursAtTail(s, pat, j); }
      }
      assert forall j: nat :: j > 0 ==> (OccursAt(s, pat, j) <==> OccursAt(s[1..], pat, j - 1));
      match rest
      case None => None
      case Some(i) => Some(i + 1)
  }

  /** `s` contains `pat` somewhere (`str::contains`, or `find(..).is_some()`). */
  predicate Contains(s: string, pat: string) {
    Find(s, pat).Some?
  }

  /** The pieces joined back together, with `sep` between neighbours. */
  function Join(pieces: seq<string>, sep: string): string {
    if |pieces| == 0 then ""
    else if |pieces| == 1 then pieces[0]
    else pieces[0] + sep + Join(pieces[1..], sep)
  }

  /** `str::split` with a non-empty string pattern: the text between the
      successive leftmost non-overlapping occurrences of `sep`. */
  function SplitOn(s: string, sep: string): (r: seq<string>)
    requires |sep| > 0
    ensures |r| >= 1
    ensures Join(r, sep) == s
    ensures forall k :: 0 <= k < |r| ==> !Contains(r[k], sep)
    decreases |s|
  {
    var found := Find(s, sep);
    match found
    case None => [s]
    case Some(i) =>
      assert OccursAt(s, sep, i);
      assert forall j: nat :: j < i ==> !OccursAt(s, sep, j);
      var head := s[..i];
      assert |head| == i;
      assert !Contains(head, sep) by {
        forall j: nat | j + |sep| <= i ensures !OccursAt(head, sep, j) {
          assert j < i;
          assert !OccursAt(s, sep, j);
          assert head[j..j + |sep|] == s[j..j + |sep|] by {
            assert forall k :: j <= k < j + |sep| ==> head[k] == s[k];
          }
        }
      }
      var tail := SplitOn(s[i + |sep|..], sep);
      assert s == head + sep + s[i + |sep|..];
      [head] + tail
  }

  /** A first occurrence found in `a` stays the first one when text is
      appended. */
  lemma FindPrefix(a: string, b: string, pat: string)
    requires Find(a, pat).Some?
    ensures Find(a + b, pat) == Find(a, pat)
  {
    var i := Find(a, pat).value;
    OccursAtPrefix(a, b, pat, i);
    forall j: nat | j < i ensures !OccursAt(a + b, pat, j) {
      OccursAtPrefix(a, b, pat, j);
    }
    FindFirst(a + b, pat, i);
  }

  /** An occurrence with none before it is the one `Find` returns. */
  lemma FindFirst(s: string, pat: string, i: nat)
    requires OccursAt(s, pat, i)
    requires forall j: nat :: j < i ==> !OccursAt(s, pat, j)
    ensures Find(s, pat) == Some(i)
  {
  }

  /** Appending text does not change an occurrence that fits before it. */
  lemma OccursAtPrefix(a: string, b: string, pat: string, j: nat)
    requires j + |pat| <= |a|
    ensures OccursAt(a + b, pat, j) == OccursAt(a, pat, j)
  {
    assert (a + b)[j..j + |pat|] == a[j..j + |pat|];
  }

  /** When `sep` does not start anywhere inside `a`, the first occurrence of
      `sep` in `a + sep + b` is the one right after `a`. */
  lemma FindAfter(a: string, sep: string, b: string)
    requires SeparatorFree(a, sep)
    ensures Find(a + sep + b, sep) == Some(|a|)
  {
    var s := a + sep;
    assert OccursAt(s, sep, |a|) by { assert s[|a|..|a| + |sep|] == sep; }
    assert Find(s, sep) == Some(|a|);
    FindPrefix(s, b, sep);
  }

  /** Splitting `a + sep + b` when `sep` does not start inside `a`: the first
      piece is `a`, the rest are the pieces of `b`. */
  lemma SplitOnFirst(a: string, sep: string, b: string)
    requires |sep| > 0
    requires SeparatorFree(a, sep)
    ensures SplitOn(a + sep + b, sep) == [a] + SplitOn(b, sep)
  {
    var s := a + sep + b;
    FindAfter(a, sep, b);
    assert s[..|a|] == a;
    assert s[|a| + |sep|..] == b;
  }

  /** The single-character case of `SplitOnFirst`. */
  lemma SplitFirst(a: string, c: char, b: string)
    requires c !in a
    ensures Split(a + [c] + b, c) == [a] + Split(b, c)
  {
    forall j: nat | j < |a| ensures !OccursAt(a + [c], [c], j) {
      assert (a + [c])[j..j + 1] == [a[j]];
    }
    SplitOnFirst(a, [c], b);
  }

  /** No occurrence of `sep` starts inside `a`, even one that would run on
      into a separator appended to it. */
  predicate SeparatorFree(a: string, sep: string) {
    forall j: nat :: j < |a| ==> !OccursAt(a + sep, sep, j)
  }

  /** A two-character separator cannot start inside `a` when every `x` in
      `a` is followed, inside `a`, by something other than `y`. */
  lemma SeparatorFreePair(a: string, x: char, y: char)
    requires forall j :: 0 <= j < |a| && a[j] == x ==> j + 1 < |a| && a[j + 1] != y
    ensures SeparatorFree(a, [x, y])
  {
    forall j: nat | j < |a| ensures !OccursAt(a + [x, y], [x, y], j) {
      var s := a + [x, y];
      assert s[j] == a[j];
      if a[j] == x {
        assert s[j + 1] == a[j + 1];
        assert s[j..j + 2][1] == s[j + 1];
      } else {
        assert s[j..j + 2][0] == s[j];
      }
    }
  }

  /** A separator cannot start inside text lacking its first character. */
  lemma FirstCharFree(a: string, sep: string)
    requires |sep| > 0 && sep[0] !in a
    ensures SeparatorFree(a, sep)
  {
    forall j: nat | j < |a| ensures !OccursAt(a + sep, sep, j) {
      if j + |sep| <= |a + sep| {
        assert (a + sep)[j..j + |sep|][0] == a[j];
      }
    }
  }

  /** Text without the separator's first character can be put in front of
      separator-free text. */
  lemma SeparatorFreeConcat(a: string, b: string, sep: string)
    requires |sep| > 0 && sep[0] !in a && SeparatorFree(b, sep)
    ensures SeparatorFree(a + b, sep)
  {
    var s := a + b + sep;
    forall j: nat | j < |a + b| ensures !OccursAt(s, sep, j) {
      if j < |a| {
        if j + |sep| <= |s| {
          assert s[j..j + |sep|][0] == a[j];
        }
      } else {
        assert !OccursAt(b + sep, sep, j - |a|);
        if j + |sep| <= |s| {
          assert s[j..j + |sep|] == (b + sep)[j - |a|..j - |a| + |sep|];
        }
      }
    }
  }

  /** Text that contains no separator is a single piece. */
  lemma SplitOnWhole(a: string, sep: string)
    requires |sep| > 0 && SeparatorFree(a, sep)
    ensures !Contains(a, sep)
    ensures SplitOn(a, sep) == [a]
  {
    forall j: nat | j + |sep| <= |a| ensures !OccursAt(a, sep, j) {
      assert !OccursAt(a + sep, sep, j);
      assert (a + sep)[j..j + |sep|] == a[j..j + |sep|];
    }
  }

  /** A text can only contain `pat` if it contains the first character of `pat`. */
  lemma ContainsFirst(s: string, pat: string)
    requires |pat| > 0 && Contains(s, pat)
    ensures pat[0] in s
  {
    var j := Find(s, pat).value;
    assert s[j..j + |pat|][0] == s[j];
  }

  /** `str::split` with a character pattern. */
  function Split(s: string, c: char): (r: seq<string>)
    ensures |r| >= 1
    ensures Join(r, [c]) == s
    ensures forall k :: 0 <= k < |r| ==> c !in r[k]
  {
    var r := SplitOn(s, [c]);
    assert forall k :: 0 <= k < |r| ==> c !in r[k] by {
      forall k | 0 <= k < |r| ensures c !in r[k] {
        if c in r[k] {
          var j :| 0 <= j < |r[k]| && r[k][j] == c;
          assert OccursAt(r[k], [c], j);
        }
      }
    }
    r
  }

  /** With a separator character that no piece contains, splitting the
      joined text gives the pieces back. */
  lemma {:induction false} SplitJoin(pieces: seq<string>, c: char)
    requires |pieces| >= 1
    requires forall k :: 0 <= k < |pieces| ==> c !in pieces[k]
    ensures Split(Join(pieces, [c]), c) == pieces
  {
    if |pieces| > 1 {
      var p := pieces[0];
      var rest := Join(pieces[1..], [c]);
      var s := p + [c] + rest;
      assert Join(pieces, [c]) == s;
      assert OccursAt(s, [c], |p|) by { assert s[|p|..|p| + 1] == [c]; }
      forall j: nat | j < |p| ensures !OccursAt(s, [c], j) {
        assert s[j] == p[j] && s[j..j + 1] == [s[j]];
      }
      assert Find(s, [c]) == Some(|p|);
      assert s[..|p|] == p;
      assert s[|p| + 1..] == rest;
      SplitJoin(pieces[1..], c);
      assert pieces == [p] + pieces[1..];
    } else {
      var s := pieces[0];
      forall j: nat ensures !OccursAt(s, [c], j) {
        if j < |s| { assert s[j..j + 1] == [s[j]]; }
      }
      assert Find(s, [c]) == None;
    }
  }

  /** With a separator that starts inside no piece, splitting the joined
      text gives the pieces back. */
  lemma {:induction false} SplitOnJoin(pieces: seq<string>, sep: string)
    requires |sep| > 0 && |pieces| >= 1
    requires forall k :: 0 <= k < |pieces| ==> SeparatorFree(pieces[k], sep)
    ensures SplitOn(Join(pieces, sep), sep) == pieces
  {
    if |pieces| > 1 {
      SplitOnFirst(pieces[0], sep, Join(pieces[1..], sep));
      SplitOnJoin(pieces[1..], sep);
      assert pieces == [pieces[0]] + pieces[1..];
    } else {
      SplitOnWhole(pieces[0], sep);
    }
  }

  /** The non-empty pieces, in order. */
  function NonEmpty(pieces: seq<string>): (r: seq<string>)
    ensures forall k :: 0 <= k < |r| ==> r[k] != ""
    ensures |r| <= |pieces|
  {
    if |pieces| == 0 then []
    else if pieces[0] == "" then NonEmpty(pieces[1..])
    else [pieces[0]] + NonEmpty(pieces[1..])
  }

  /** `str::lines`: split at '\n', drop one trailing '\r' from each line, and
      produce no final empty line after a terminating '\n'. */
  function Lines(s: string): (r: seq<string>)
    ensures s == "" ==> r == []
  {
    if s == "" then [] else LinesOf(Split(s, '\n'))
  }

  /** The lines made of the pieces of a non-empty text between its '\n's. */
  function LinesOf(pieces: seq<string>): seq<string>
    requires |pieces| > 0
  {
    var kept := if pieces[|pieces| - 1] == "" then pieces[..|pieces| - 1] else pieces;
    seq(|kept|, k requires 0 <= k < |kept| => StripCarriageReturn(kept[k]))
  }

  /** A line that `lines` returns unchanged: no '\n' inside and no '\r' at its end. */
  predicate PlainLine(line: string) {
    '\n' !in line && (|line| == 0 || line[|line| - 1] != '\r')
  }

  /** Lines joined with '\n', with or without a final '\n', come back from
      `lines` unchanged. */
  lemma LinesJoin(ls: seq<string>, terminated: bool)
    requires |ls| > 0 && ls[|ls| - 1] != ""
    requires forall k :: 0 <= k < |ls| ==> PlainLine(ls[k])
    ensures Lines(Join(if terminated then ls + [""] else ls, "\n")) == ls
  {
    var pieces := if terminated then ls + [""] else ls;
    forall k | 0 <= k < |pieces| ensures '\n' !in pieces[k] {
      if k < |ls| {
        assert pieces[k] == ls[k];
      }
    }
    SplitJoin(pieces, '\n');
    JoinNonEmpty(pieces, "\n");
    LinesOfPieces(Join(pieces, "\n"), ls, terminated);
  }

  lemma LinesOfPieces(s: string, ls: seq<string>, terminated: bool)
    requires s != "" && |ls| > 0 && ls[|ls| - 1] != ""
    requires forall k :: 0 <= k < |ls| ==> PlainLine(ls[k])
    requires Split(s, '\n') == if terminated then ls + [""] else ls
    ensures Lines(s) == ls
  {
    PlainPieces(if terminated then ls + [""] else ls, ls, terminated);
  }

  lemma PlainPieces(pieces: seq<string>, ls: seq<string>, terminated: bool)
    requires |ls| > 0 && ls[|ls| - 1] != ""
    requires forall k :: 0 <= k < |ls| ==> PlainLine(ls[k])
    requires pieces == if terminated then ls + [""] else ls
    ensures LinesOf(pieces) == ls
  {
    KeptPieces(pieces, ls, terminated);
    StripPlain(ls);
  }

  /** Dropping the empty piece after a final newline leaves the lines. */
  lemma KeptPieces(pieces: seq<string>, ls: seq<string>, terminated: bool)
    requires |ls| > 0 && ls[|ls| - 1] != ""
    requires pieces == if terminated then ls + [""] else ls
    ensures (if pieces[|pieces| - 1] == "" then pieces[..|pieces| - 1] else pieces) == ls
  {
    if terminated {
      assert pieces[..|pieces| - 1] == ls;
    }
  }

  /** Plain lines have no carriage return to strip. */
  lemma StripPlain(ls: seq<string>)
    requires forall k :: 0 <= k < |ls| ==> PlainLine(ls[k])
    ensures seq(|ls|, k requires 0 <= k < |ls| => StripCarriageReturn(ls[k])) == ls
  {
    var stripped := seq(|ls|, k requires 0 <= k < |ls| => StripCarriageReturn(ls[k]));
    forall k | 0 <= k < |ls| ensures stripped[k] == ls[k] {
      assert PlainLine(ls[k]);
    }
  }

  lemma {:induction false} JoinNonEmpty(pieces: seq<string>, sep: string)
    requires |pieces| > 0 && (pieces[0] != "" || (|pieces| > 1 && sep != ""))
    ensures Join(pieces, sep) != ""
  {
  }

  function StripCarriageReturn(line: string): string {
    if |line| > 0 && line[|line| - 1] == '\r' then line[..|line| - 1] else line
  }

  /** The ASCII characters that `char::is_whitespace` accepts. */
  predicate IsWhitespace(c: char) {
    c == ' ' || c == '\t' || c == '\n' || c == '\r' || c == '\U{B}' || c == '\U{C}'
  }

  /** The longest prefix of `s` made of non-whitespace characters. */
  function WordLength(s: string): (n: nat)
    ensures n <= |s|
    ensures forall k :: 0 <= k < n ==> !IsWhitespace(s[k])
    ensures n < |s| ==> IsWhitespace(s[n])
  {
    if |s| == 0 || IsWhitespace(s[0]) then 0 else 1 + WordLength(s[1..])
  }

  /** `str::split_whitespace`: the maximal runs of non-whitespace characters. */
  function SplitWhitespace(s: string): (r: seq<string>)
    ensures forall k :: 0 <= k < |r| ==> r[k] != ""
    ensures forall k, j :: 0 <= k < |r| && 0 <= j < |r[k]| ==> !IsWhitespace(r[k][j])
    decreases |s|
  {
    if |s| == 0 then []
    else if IsWhitespace(s[0]) then SplitWhitespace(s[1..])
    else
      var n := WordLength(s);
      [s[..n]] + SplitWhitespace(s[n..])
  }

  /** Every character of `s` outside whitespace, in order. */
  function WithoutWhitespace(s: string): (r: string)
    ensures forall k :: 0 <= k < |r| ==> !IsWhitespace(r[k])
  {
    if |s| == 0 then ""
    else if IsWhitespace(s[0]) then WithoutWhitespace(s[1..])
    else [s[0]] + WithoutWhitespace(s[1..])
  }

  function Concat(pieces: seq<string>): string {
    if |pieces| == 0 then "" else pieces[0] + Concat(pieces[1..])
  }

  lemma {:induction false} WithoutWhitespaceAppend(a: string, b: string)
    ensures WithoutWhitespace(a + b) == WithoutWhitespace(a) + WithoutWhitespace(b)
    decreases |a|
  {
    if |a| > 0 {
      assert (a + b)[1..] == a[1..] + b;
      WithoutWhitespaceAppend(a[1..], b);
    } else {
      assert a + b == b;
    }
  }

  /** Gluing the whitespace-separated words back together
      (`split_whitespace().collect::<String>()`) removes exactly the
      whitespace. */
  lemma {:induction false} ConcatWords(s: string)
    ensures Concat(SplitWhitespace(s)) == WithoutWhitespace(s)
    decreases |s|
  {
    if |s| > 0 {
      if IsWhitespace(s[0]) {
        ConcatWords(s[1..]);
      } else {
        var n := WordLength(s);
        ConcatWords(s[n..]);
        WordHasNoWhitespace(s[..n]);
        assert s == s[..n] + s[n..];
        WithoutWhitespaceAppend(s[..n], s[n..]);
        var r := SplitWhitespace(s);
        assert r == [s[..n]] + SplitWhitespace(s[n..]);
        assert r[1..] == SplitWhitespace(s[n..]);
      }
    }
  }

  lemma {:induction false} WordHasNoWhitespace(w: string)
    requires forall k :: 0 <= k < |w| ==> !IsWhitespace(w[k])
    ensures WithoutWhitespace(w) == w
  {
    if |w| > 0 {
      WordHasNoWhitespace(w[1..]);
      assert w == [w[0]] + w[1..];
    }
  }

  /** A word of non-whitespace characters. */
  predicate IsWord(w: string) {
    w != "" && forall k :: 0 <= k < |w| ==> !IsWhitespace(w[k])
  }

  /** A word followed by a whitespace character is the first piece of
      `split_whitespace`. */
  lemma SplitWhitespaceWord(w: string, c: char, rest: string)
    requires IsWord(w) && IsWhitespace(c)
    ensures SplitWhitespace(w + [c] + rest) == [w] + SplitWhitespace(rest)
  {
    var s := w + [c] + rest;
    var n := WordLength(s);
    assert forall k :: 0 <= k < |w| ==> s[k] == w[k];
    assert s[|w|] == c;
    assert s[..n] == w;
    assert s[n..] == [c] + rest;
    assert ([c] + rest)[1..] == rest;
  }

  /** A lone word is one piece. */
  lemma SplitWhitespaceLast(w: string)
    requires IsWord(w)
    ensures SplitWhitespace(w) == [w]
  {
    WordLengthOfWord(w);
    assert !IsWhitespace(w[0]);
    assert w[..|w|] == w && w[|w|..] == "";
  }

  lemma {:induction false} WordLengthOfWord(w: string)
    requires forall k :: 0 <= k < |w| ==> !IsWhitespace(w[k])
    ensures WordLength(w) == |w|
  {
    if |w| > 0 {
      WordLengthOfWord(w[1..]);
    }
  }

  /** Words joined by one whitespace character split back into the words. */
  lemma SplitWords(words: seq<string>, c: char)
    requires IsWhitespace(c)
    requires forall k :: 0 <= k < |words| ==> IsWord(words[k])
    ensures SplitWhitespace(Join(words, [c])) == words
  {
    if |words| > 0 {
      SplitWordsBefore(words, c, "");
      assert Join(words, [c]) + "" == Join(words, [c]);
    }
  }

  /** The same, followed by text that starts at a whitespace character. */
  lemma {:induction false} SplitWordsBefore(words: seq<string>, c: char, rest: string)
    requires IsWhitespace(c) && |words| > 0
    requires forall k :: 0 <= k < |words| ==> IsWord(words[k])
    requires rest == "" || IsWhitespace(rest[0])
    ensures SplitWhitespace(Join(words, [c]) + rest) == words + SplitWhitespace(rest)
  {
    if |words| == 1 {
      SplitWordBefore(words[0], rest);
    } else {
      var tail := Join(words[1..], [c]) + rest;
      JoinFirst(words, [c], rest);
      SplitWhitespaceWord(words[0], c, tail);
      SplitWordsBefore(words[1..], c, rest);
      ConsAssoc(words, SplitWhitespace(rest));
    }
  }

  lemma Uncons<T>(xs: seq<T>)
    requires |xs| > 0
    ensures [xs[0]] + xs[1..] == xs
  {
  }

  lemma Assoc<T>(xs: seq<T>, ys: seq<T>, zs: seq<T>)
    ensures xs + (ys + zs) == xs + ys + zs
  {
  }

  lemma ConsAssoc<T>(xs: seq<T>, ys: seq<T>)
    requires |xs| > 0
    ensures [xs[0]] + (xs[1..] + ys) == xs + ys
  {
    assert xs == [xs[0]] + xs[1..];
  }

  lemma JoinFirst(pieces: seq<string>, sep: string, rest: string)
    requires |pieces| > 1
    ensures Join(pieces, sep) + rest == pieces[0] + sep + (Join(pieces[1..], sep) + rest)
  {
  }

  lemma SplitWordBefore(w: string, rest: string)
    requires IsWord(w) && (rest == "" || IsWhitespace(rest[0]))
    ensures SplitWhitespace(w + rest) == [w] + SplitWhitespace(rest)
  {
    if rest == "" {
      assert w + rest == w;
      SplitWhitespaceLast(w);
    } else {
      var c, tail := rest[0], rest[1..];
      assert w + rest == w + [c] + tail;
      SplitWhitespaceWord(w, c, tail);
      assert SplitWhitespace(rest) == SplitWhitespace(tail);
    }
  }

  /** The lines of a text, each a sequence of words. */
  predicate WordLines(lines: seq<seq<string>>) {
    forall i :: 0 <= i < |lines| ==> |lines[i]| > 0 && forall k :: 0 <= k < |lines[i]| ==> IsWord(lines[i][k])
  }

  /** The words of a line one space apart, and the lines one '\n' apart. */
  function LinesOfWords(lines: seq<seq<string>>): string {
    if |lines| == 0 then ""
    else if |lines| == 1 then Join(lines[0], " ")
    else Join(lines[0], " ") + "\n" + LinesOfWords(lines[1..])
  }

  /** All elements of all lines, in order. */
  function Flatten<T>(lines: seq<seq<T>>): seq<T> {
    if |lines| == 0 then [] else lines[0] + Flatten(lines[1..])
  }

  /** Non-empty lines whose words, all together, are words. */
  lemma {:induction false} FlattenWords(lines: seq<seq<string>>)
    requires forall i :: 0 <= i < |lines| ==> |lines[i]| > 0
    requires forall k :: 0 <= k < |Flatten(lines)| ==> IsWord(Flatten(lines)[k])
    ensures WordLines(lines)
  {
    if |lines| > 0 {
      var rest := Flatten(lines[1..]);
      assert Flatten(lines) == lines[0] + rest;
      assert forall k :: 0 <= k < |lines[0]| ==> Flatten(lines)[k] == lines[0][k];
      assert forall k :: 0 <= k < |rest| ==> Flatten(lines)[|lines[0]| + k] == rest[k];
      FlattenWords(lines[1..]);
      assert forall i :: 1 <= i < |lines| ==> lines[i] == lines[1..][i - 1];
    }
  }

  /** `split_whitespace` on words laid out over lines gives all the words,
      whichever whitespace separates them. */
  lemma {:induction false} SplitLinesOfWords(lines: seq<seq<string>>)
    requires WordLines(lines)
    ensures SplitWhitespace(LinesOfWords(lines)) == Flatten(lines)
  {
    if |lines| == 1 {
      SplitWords(lines[0], ' ');
      assert Flatten(lines) == lines[0] + [];
    } else if |lines| > 1 {
      var line := Join(lines[0], " ");
      var rest := "\n" + LinesOfWords(lines[1..]);
      Assoc(line, "\n", LinesOfWords(lines[1..]));
      SplitWordsBefore(lines[0], ' ', rest);
      assert rest[1..] == LinesOfWords(lines[1..]);
      SplitLinesOfWords(lines[1..]);
    }
  }

  /** A line of words holds no '\n' and starts with a word character. */
  lemma {:induction false} WordsLine(words: seq<string>)
    requires |words| > 0 && forall k :: 0 <= k < |words| ==> IsWord(words[k])
    ensures |Join(words, " ")| > 0 && !IsWhitespace(Join(words, " ")[0])
    ensures '\n' !in Join(words, " ")
  {
    var w := words[0];
    assert w[0] !in " \n" && '\n' !in w;
    if |words| > 1 {
      WordsLine(words[1..]);
      assert Join(words, " ") == w + (" " + Join(words[1..], " "));
    }
  }

  /** Lines of words hold no blank line: every '\n' is followed by a word
      character, and the text starts with one. */
  lemma {:induction false} SingleNewlines(lines: seq<seq<string>>)
    requires WordLines(lines) && |lines| > 0
    ensures var s := LinesOfWords(lines);
      |s| > 0 && !IsWhitespace(s[0]) &&
      forall j :: 0 <= j < |s| && s[j] == '\n' ==> j + 1 < |s| && s[j + 1] != '\n'
  {
    var line := Join(lines[0], " ");
    WordsLine(lines[0]);
    if |lines| > 1 {
      var rest := LinesOfWords(lines[1..]);
      SingleNewlines(lines[1..]);
      var s := LinesOfWords(lines);
      assert s == line + "\n" + rest;
      assert forall j :: 0 <= j < |line| ==> s[j] == line[j];
      assert forall j :: |line| < j < |s| ==> s[j] == rest[j - |line| - 1];
      forall j | 0 <= j < |s| && s[j] == '\n' ensures j + 1 < |s| && s[j + 1] != '\n' {
        if j == |line| {
          assert s[j + 1] == rest[0];
        }
      }
    }
  }

  /** So a blank-line separator never starts inside lines of words. */
  lemma LinesOfWordsSeparated(lines: seq<seq<string>>)
    requires WordLines(lines) && |lines| > 0
    ensures SeparatorFree(LinesOfWords(lines), "\n\n")
  {
    SingleNewlines(lines);
    SeparatorFreePair(LinesOfWords(lines), '\n', '\n');
  }

  /** `f` applied to every element, in order. */
  function MapSeq<A, B>(f: A -> B, xs: seq<A>): (ys: seq<B>)
    ensures |ys| == |xs|
  {
    if |xs| == 0 then [] else MapSeq(f, xs[..|xs| - 1]) + [f(xs[|xs| - 1])]
  }

  lemma {:induction false} MapSeqAt<A, B>(f: A -> B, xs: seq<A>, k: nat)
    requires k < |xs|
    ensures MapSeq(f, xs)[k] == f(xs[k])
  {
    var n := |xs| - 1;
    if k < n {
      MapSeqAt(f, xs[..n], k);
    }
  }

  /** Mapping a prefix gives a prefix. */
  lemma {:induction false} MapSeqPrefix<A, B>(f: A -> B, xs: seq<A>, n: nat)
    requires n <= |xs|
    ensures MapSeq(f, xs[..n]) == MapSeq(f, xs)[..n]
    decreases |xs|
  {
    if n < |xs| {
      var m := |xs| - 1;
      assert xs[..m][..n] == xs[..n];
      MapSeqPrefix(f, xs[..m], n);
    } else {
      assert xs[..n] == xs;
    }
  }

  /** Mapping one more element appends its image. */
  lemma MapSeqStep<A, B>(f: A -> B, xs: seq<A>, i: nat)
    requires i < |xs|
    ensures MapSeq(f, xs[..i + 1]) == MapSeq(f, xs[..i]) + [f(xs[i])]
  {
    assert xs[..i + 1][..i] == xs[..i];
  }

  /** `f` applied to every element, collected with `?`: `None` as soon as
      one application fails. */
  function MapAll<A, B>(f: A -> Option<B>, xs: seq<A>): (r: Option<seq<B>>)
    ensures r.Some? ==> |r.value| == |xs|
  {
    if |xs| == 0 then Some([])
    else
      match (MapAll(f, xs[..|xs| - 1]), f(xs[|xs| - 1]))
      case (Some(ys), Some(y)) => Some(ys + [y])
      case _ => None
  }

  /** `MapAll` succeeds exactly when every application does, and then holds
      their values in order. */
  lemma {:induction false} MapAllSome<A, B>(f: A -> Option<B>, xs: seq<A>)
    ensures MapAll(f, xs).Some? <==> forall k :: 0 <= k < |xs| ==> f(xs[k]).Some?
    ensures MapAll(f, xs).Some? ==> forall k :: 0 <= k < |xs| ==> MapAll(f, xs).value[k] == f(xs[k]).value
  {
    if |xs| > 0 {
      var n := |xs| - 1;
      MapAllSome(f, xs[..n]);
      assert forall k :: 0 <= k < n ==> xs[..n][k] == xs[k];
    }
  }

  /** Once a prefix fails, the whole sequence fails. */
  lemma {:induction false} MapAllStops<A, B>(f: A -> Option<B>, xs: seq<A>, i: nat)
    requires i <= |xs| && MapAll(f, xs[..i]).None?
    ensures MapAll(f, xs).None?
  {
    MapAllSome(f, xs[..i]);
    MapAllSome(f, xs);
    var k :| 0 <= k < i && f(xs[..i][k]).None?;
    assert xs[..i][k] == xs[k];
  }

  /** Mapping one more element. */
  lemma MapAllStep<A, B>(f: A -> Option<B>, xs: seq<A>, i: nat)
    requires i < |xs|
    ensures MapAll(f, xs[..i + 1]) ==
      match (MapAll(f, xs[..i]), f(xs[i]))
      case (Some(ys), Some(y)) => Some(ys + [y])
      case _ => None
  {
    assert xs[..i + 1][..i] == xs[..i];
  }

  /** Mapping an element in front of a sequence. */
  lemma {:induction false} MapAllCons<A, B>(f: A -> Option<B>, x: A, xs: seq<A>)
    ensures MapAll(f, [x] + xs) ==
      match (f(x), MapAll(f, xs))
      case (Some(y), Some(ys)) => Some([y] + ys)
      case _ => None
  {
    if |xs| == 0 {
      assert [x] + xs == [x] && [x][..0] == [];
      assert MapAll(f, [x]) == match (MapAll(f, []), f(x))
        case (Some(zs), Some(z)) => Some(zs + [z])
        case _ => None;
      if f(x).Some? {
        assert [] + [f(x).value] == [f(x).value] + [];
      }
    } else {
      var n := |xs| - 1;
      var ys := [x] + xs;
      assert ys[..|ys| - 1] == [x] + xs[..n];
      assert ys[|ys| - 1] == xs[n];
      MapAllCons(f, x, xs[..n]);
      assert MapAll(f, ys) ==
        match (MapAll(f, [x] + xs[..n]), f(xs[n]))
        case (Some(zs), Some(z)) => Some(zs + [z])
        case _ => None;
      if f(x).Some? && MapAll(f, xs[..n]).Some? && f(xs[n]).Some? {
        var y, zs, z := f(x).value, MapAll(f, xs[..n]).value, f(xs[n]).value;
        assert [y] + zs + [z] == [y] + (zs + [z]);
      }
    }
  }

  /** Dropping the empty pieces of two sequences one after the other. */
  lemma {:induction false} NonEmptyAppend(a: seq<string>, b: seq<string>)
    ensures NonEmpty(a + b) == NonEmpty(a) + NonEmpty(b)
    decreases |a|
  {
    if |a| == 0 {
      assert a + b == b;
    } else {
      assert (a + b)[1..] == a[1..] + b;
      NonEmptyAppend(a[1..], b);
    }
  }

  /** Pieces none of which is empty are all kept. */
  lemma {:induction false} NonEmptyKeeps(pieces: seq<string>)
    requires forall k :: 0 <= k < |pieces| ==> pieces[k] != ""
    ensures NonEmpty(pieces) == pieces
    decreases |pieces|
  {
    if |pieces| > 0 {
      NonEmptyKeeps(pieces[1..]);
    }
  }

  lemma {:induction false} ConcatAppend(a: seq<string>, b: seq<string>)
    ensures Concat(a + b) == Concat(a) + Concat(b)
    decreases |a|
  {
    if |a| == 0 {
      assert a + b == b;
    } else {
      assert (a + b)[1..] == a[1..] + b;
      ConcatAppend(a[1..], b);
      Assoc(a[0], Concat(a[1..]), Concat(b));
    }
  }

  /** Joining one more piece at the end. */
  lemma {:induction false} JoinSnoc(pieces: seq<string>, last: string, sep: string)
    requires |pieces| >= 1
    ensures Join(pieces + [last], sep) == Join(pieces, sep) + sep + last
    decreases |pieces|
  {
    if |pieces| == 1 {
      assert (pieces + [last])[1..] == [last];
    } else {
      assert (pieces + [last])[1..] == pieces[1..] + [last];
      JoinSnoc(pieces[1..], last, sep);
    }
  }

  /** Mapping one more element at the end. */
  lemma MapAllSnoc<A, B>(f: A -> Option<B>, xs: seq<A>, x: A)
    ensures MapAll(f, xs + [x]) ==
      match (MapAll(f, xs), f(x))
      case (Some(ys), Some(y)) => Some(ys + [y])
      case _ => None
  {
    assert (xs + [x])[..|xs|] == xs;
  }
}
