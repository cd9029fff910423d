/** The part of Python's `re` module that the description normaliser relies on:
    `re.sub(pattern, " ", text)` for four fixed patterns, none of which can match
    the empty string, over ASCII text. */
module Regex {

  // ---------------------------------------------------------------------------
  // Character classes (ASCII)
  // ---------------------------------------------------------------------------

  predicate IsUpper(c: char) { 'A' <= c <= 'Z' }

  predicate IsLower(c: char) { 'a' <= c <= 'z' }

  /** `\d` restricted to ASCII. */
  predicate IsDigit(c: char) { '0' <= c <= '9' }

  /** `\s` (and `str.isspace`) restricted to ASCII: space, tab, line feed,
      vertical tab, form feed, carriage return and the separators 0x1C-0x1F. */
  predicate IsSpace(c: char) {
    var n := c as int;
    n == 32 || 9 <= n <= 13 || 28 <= n <= 31
  }

  datatype CharClass = Digit | Space

  predicate InClass(cls: CharClass, c: char) {
    match cls
    case Digit => IsDigit(c)
    case Space => IsSpace(c)
  }

  /** Length of the longest prefix of `s` whose characters all belong to `cls`
      (the greedy match of `[cls]*` at the start of `s`). */
  function Run(cls: CharClass, s: string): (n: nat)
    ensures n <= |s|
    ensures forall i | 0 <= i < n :: InClass(cls, s[i])
    ensures n == |s| || !InClass(cls, s[n])
    decreases |s|
  {
    if s != [] && InClass(cls, s[0]) then 1 + Run(cls, s[1..]) else 0
  }

  // ---------------------------------------------------------------------------
  // The four patterns
  // ---------------------------------------------------------------------------

  /** The noise words of `txn|transaction|debited|credited|rs\.?|inr`
      (`rs.` is covered by `rs`). */
  const NoiseWords: set<string> := {"txn", "transaction", "debited", "credited", "rs", "inr"}

  predicate StartsWithNoise(s: string) {
    exists w | w in NoiseWords :: w <= s
  }

  /** `w` is a prefix of `s`, compared character by character. It is the
      built-in `w <= s` (StartsWithIsPrefix), written so that testing an
      alternative of the noise pattern unfolds one character at a time. */
  predicate StartsWith(s: string, w: string)
    ensures StartsWith(s, w) ==> |w| <= |s|
    decreases |w|
  {
    w == [] || (s != [] && s[0] == w[0] && StartsWith(s[1..], w[1..]))
  }

  lemma {:induction false} StartsWithIsPrefix(s: string, w: string)
    ensures StartsWith(s, w) <==> w <= s
    decreases |w|
  {
    if w != [] && s != [] {
      StartsWithIsPrefix(s[1..], w[1..]);
      assert w == [w[0]] + w[1..];
      assert s == [s[0]] + s[1..];
    }
  }

  /** The alternation `txn|transaction|debited|credited|rs\.?|inr` tried at the
      start of `s`: alternatives in the order written, `\.?` greedy. Returns the
      length of the match, 0 when none of the alternatives matches. */
  function NoiseMatch(s: string): (k: nat)
    ensures k <= |s|
  {
    if StartsWith(s, "txn") then 3
    else if StartsWith(s, "transaction") then 11
    else if StartsWith(s, "debited") then 7
    else if StartsWith(s, "credited") then 8
    else if StartsWith(s, "rs.") then 3
    else if StartsWith(s, "rs") then 2
    else if StartsWith(s, "inr") then 3
    else 0
  }

  /** What the alternation matches, with the dot of `rs\.?` included. */
  const NoiseMatches: set<string> := NoiseWords + {"rs."}

  /** The alternation matches exactly where a noise word starts. */
  lemma NoiseMatchWhere(s: string)
    ensures NoiseMatch(s) == 0 <==> !StartsWithNoise(s)
  {
    StartsWithIsPrefix(s, "txn");
    StartsWithIsPrefix(s, "transaction");
    StartsWithIsPrefix(s, "debited");
    StartsWithIsPrefix(s, "credited");
    StartsWithIsPrefix(s, "rs.");
    StartsWithIsPrefix(s, "rs");
    StartsWithIsPrefix(s, "inr");
    if "rs." <= s {
      assert "rs" <= s;
    }
  }

  /** A text that starts with `w` has `w` as its first `|w|` characters. */
  lemma StartsWithSlice(s: string, w: string)
    requires StartsWith(s, w)
    ensures s[..|w|] == w
  {
    StartsWithIsPrefix(s, w);
  }

  /** A match of the alternation is a whole alternative. */
  lemma NoiseMatchWhat(s: string)
    ensures NoiseMatch(s) > 0 ==> s[..NoiseMatch(s)] in NoiseMatches
  {
    if StartsWith(s, "txn") {
      StartsWithSlice(s, "txn");
    } else if StartsWith(s, "transaction") {
      StartsWithSlice(s, "transaction");
    } else if StartsWith(s, "debited") {
      StartsWithSlice(s, "debited");
    } else if StartsWith(s, "credited") {
      StartsWithSlice(s, "credited");
    } else if StartsWith(s, "rs.") {
      StartsWithSlice(s, "rs.");
    } else if StartsWith(s, "rs") {
      StartsWithSlice(s, "rs");
    } else if StartsWith(s, "inr") {
      StartsWithSlice(s, "inr");
    }
  }

  /** `rs\.?` takes the dot when there is one (`\.?` is greedy). */
  lemma NoiseMatchDot(s: string)
    ensures "rs." <= s ==> NoiseMatch(s) == 3
    ensures "rs" <= s && !("rs." <= s) ==> NoiseMatch(s) == 2
  {
    StartsWithIsPrefix(s, "txn");
    StartsWithIsPrefix(s, "transaction");
    StartsWithIsPrefix(s, "debited");
    StartsWithIsPrefix(s, "credited");
    StartsWithIsPrefix(s, "rs.");
    StartsWithIsPrefix(s, "rs");
    if "rs" <= s {
      assert s[0] == 'r';
    }
  }

  /** The alternation matches exactly where a noise word starts, and then
      consumes the whole word. */
  lemma NoiseMatchSpec(s: string)
    ensures NoiseMatch(s) == 0 <==> !StartsWithNoise(s)
    ensures NoiseMatch(s) > 0 ==> s[..NoiseMatch(s)] in NoiseMatches
    ensures "rs." <= s ==> NoiseMatch(s) == 3
    ensures "rs" <= s && !("rs." <= s) ==> NoiseMatch(s) == 2
  {
    NoiseMatchWhere(s);
    NoiseMatchWhat(s);
    NoiseMatchDot(s);
  }

  /** The patterns of the normaliser's four substitutions:
      `txn|transaction|debited|credited|rs\.?|inr`, `\d{4,}`, `[^a-z\s]`, `\s+`. */
  datatype Pattern = Noise | LongDigits | NonLetter | Whitespace

  /** Characters that may stand at a position where `p` does not match. */
  predicate Kept(p: Pattern, c: char) {
    match p
    case Noise => true
    case LongDigits => true
    case NonLetter => IsLower(c) || IsSpace(c)
    case Whitespace => !IsSpace(c)
  }

  /** Length of the match of `p` at the start of `s`, 0 when `p` does not match
      there. Every pattern is greedy and never matches the empty string. */
  function MatchLen(p: Pattern, s: string): (k: nat)
    ensures k <= |s|
  {
    match p
    case Noise => NoiseMatch(s)
    case LongDigits => var n := Run(Digit, s); if n >= 4 then n else 0
    case NonLetter => if s != [] && !IsLower(s[0]) && !IsSpace(s[0]) then 1 else 0
    case Whitespace => Run(Space, s)
  }

  /** What each pattern matches at the start of `s`: the noise alternation
      exactly where a noise word starts; `\d{4,}` a whole run of four digits or
      more; `[^a-z\s]` one character that is neither a lower-case letter nor
      whitespace; `\s+` a whole whitespace run. Where nothing matches, the
      character is one that `p` keeps. */
  lemma MatchLenSpec(p: Pattern, s: string)
    ensures var k := MatchLen(p, s);
      && (s != [] && k == 0 ==> Kept(p, s[0]))
      && (p == Noise ==> (k == 0 <==> !StartsWithNoise(s)))
      && (p == Noise && k > 0 ==> s[..k] in NoiseMatches)
      && (p == LongDigits ==> (k == 0 <==> Run(Digit, s) < 4))
      && (p == LongDigits && k > 0 ==> (forall i | 0 <= i < k :: IsDigit(s[i])) && (k == |s| || !IsDigit(s[k])))
      && (p == NonLetter ==> k <= 1)
      && (p == NonLetter ==> (k == 1 <==> s != [] && !IsLower(s[0]) && !IsSpace(s[0])))
      && (p == Whitespace && k > 0 ==> forall i | 0 <= i < k :: IsSpace(s[i]))
      && (p == Whitespace && s != [] ==> (k == 0 <==> !IsSpace(s[0])))
      && (p == Whitespace && k > 0 ==> k == |s| || !IsSpace(s[k]))
  {
    if p == Noise {
      NoiseMatchSpec(s);
    }
  }

  // ---------------------------------------------------------------------------
  // re.sub(p, " ", s)
  // ---------------------------------------------------------------------------

  /** `re.sub(p, " ", s)`: scan left to right; where `p` matches, replace the
      (leftmost, greedy) match by one space and resume after it; elsewhere copy
      the character. Matches never overlap. */
  function Sub(p: Pattern, s: string): (r: string)
    ensures |r| <= |s|
    decreases |s|
  {
    if s == [] then []
    else
      var k := MatchLen(p, s);
      if k > 0 then [' '] + Sub(p, s[k..]) else [s[0]] + Sub(p, s[1..])
  }

  /** `w` occurs somewhere in `t`. */
  predicate Occurs(t: string, w: string) {
    exists i | 0 <= i <= |t| :: w <= t[i..]
  }

  /** No two adjacent spaces in `t`. */
  predicate SingleSpaced(t: string) {
    forall i | 0 < i < |t| :: t[i - 1] != ' ' || t[i] != ' '
  }

  /** The substitution does not need to change `u` at its first position: either
      `p` does not match there, or it matches exactly the one space it would
      write back. */
  predicate FixedAt(p: Pattern, u: string) {
    u != [] ==> MatchLen(p, u) == 0 || (MatchLen(p, u) == 1 && u[0] == ' ')
  }

  // ---------------------------------------------------------------------------
  // Properties of Sub
  // ---------------------------------------------------------------------------

  /** An occurrence in `[c] + t` that is not at the front is an occurrence in `t`. */
  lemma OccursInTail(c: char, t: string, w: string)
    ensures Occurs([c] + t, w) && !(w <= [c] + t) ==> Occurs(t, w)
  {
    var u := [c] + t;
    if Occurs(u, w) && !(w <= u) {
      var i :| 0 <= i <= |u| && w <= u[i..];
      assert i > 0 by {
        assert u[0..] == u;
      }
      assert u[i..] == t[i - 1..];
    }
  }

  /** An occurrence in a suffix of `s` is an occurrence in `s`. */
  lemma OccursInSuffix(s: string, m: nat, w: string)
    requires m <= |s| && Occurs(s[m..], w)
    ensures Occurs(s, w)
  {
    var j :| 0 <= j <= |s[m..]| && w <= s[m..][j..];
    assert s[m..][j..] == s[m + j..];
  }

  /** One step of the substitution: the first character written, then the
      substitution of the rest of the input. */
  lemma SubStep(p: Pattern, s: string)
    requires s != []
    ensures var m := if MatchLen(p, s) > 0 then MatchLen(p, s) else 1;
      0 < m <= |s| &&
      Sub(p, s) == [if MatchLen(p, s) > 0 then ' ' else s[0]] + Sub(p, s[m..])
  {
  }

  /** One step of the substitution, for a match of length `k` at the front. */
  lemma SubStepLen(p: Pattern, s: string, k: nat)
    requires s != [] && k == MatchLen(p, s)
    ensures var m := if k > 0 then k else 1;
      m <= |s| && Sub(p, s) == [if k > 0 then ' ' else s[0]] + Sub(p, s[m..])
  {
  }

  /** A space-free prefix of the result was already a prefix of the input:
      a substitution writes only spaces, so it never makes new words. */
  lemma {:induction false} SubPrefix(p: Pattern, s: string, w: string)
    requires ' ' !in w
    ensures w <= Sub(p, s) ==> w <= s
    decreases |s|
  {
    if w != [] && w <= Sub(p, s) {
      assert w[0] in w;
      SubStep(p, s);
      if MatchLen(p, s) == 0 {
        SubPrefix(p, s[1..], w[1..]);
        assert w == [w[0]] + w[1..];
      }
    }
  }

  /** A space-free word that occurs in the result already occurred in the input. */
  lemma {:induction false} SubOccurs(p: Pattern, s: string, w: string)
    requires ' ' !in w && w != []
    ensures Occurs(Sub(p, s), w) ==> Occurs(s, w)
    decreases |s|
  {
    if w <= Sub(p, s) {
      SubPrefix(p, s, w);
      assert s[0..] == s;
    } else if Occurs(Sub(p, s), w) {
      SubStep(p, s);
      var m := if MatchLen(p, s) > 0 then MatchLen(p, s) else 1;
      OccursInTail(Sub(p, s)[0], Sub(p, s[m..]), w);
      SubOccurs(p, s[m..], w);
      OccursInSuffix(s, m, w);
    }
  }

  /** Every character of the result is a written space or a character of the
      input standing where `p` did not match. */
  lemma {:induction false} SubChars(p: Pattern, s: string)
    ensures forall c | c in Sub(p, s) :: c == ' ' || (c in s && Kept(p, c))
    decreases |s|
  {
    if s != [] {
      var k := MatchLen(p, s);
      var m := if k > 0 then k else 1;
      MatchLenSpec(p, s);
      SubChars(p, s[m..]);
      assert forall c | c in s[m..] :: c in s;
    }
  }

  /** Where `p` never needs to change anything, the substitution is the identity. */
  lemma {:induction false} SubIdentity(p: Pattern, s: string)
    requires forall i | 0 <= i < |s| :: FixedAt(p, s[i..])
    ensures Sub(p, s) == s
    decreases |s|
  {
    if s != [] {
      assert FixedAt(p, s[0..]);
      assert s[0..] == s;
      forall i | 0 <= i < |s[1..]|
        ensures FixedAt(p, s[1..][i..])
      {
        assert FixedAt(p, s[i + 1..]);
        assert s[1..][i..] == s[i + 1..];
      }
      SubIdentity(p, s[1..]);
      assert s == [s[0]] + s[1..];
    }
  }

  /** `re.sub(r"\s+", " ", s)` leaves no two adjacent spaces. */
  lemma {:induction false} WhitespaceSubSingleSpaced(s: string)
    ensures SingleSpaced(Sub(Whitespace, s))
    decreases |s|
  {
    if s != [] {
      var k := MatchLen(Whitespace, s);
      var m := if k > 0 then k else 1;
      var tail := Sub(Whitespace, s[m..]);
      SubStepLen(Whitespace, s, k);
      MatchLenSpec(Whitespace, s);
      WhitespaceSubSingleSpaced(s[m..]);
      if k > 0 && s[m..] != [] {
        MatchLenSpec(Whitespace, s[m..]);
        SubStepLen(Whitespace, s[m..], 0);
        assert tail[0] == s[m] != ' ';
      }
      if k == 0 {
        assert s[0] != ' ';
      }
      SingleSpacedCons(if k > 0 then ' ' else s[0], tail);
    }
  }

  /** A character in front of single-spaced text keeps it single-spaced unless
      both it and the text's first character are spaces. */
  lemma SingleSpacedCons(c: char, t: string)
    requires SingleSpaced(t) && (c != ' ' || t == [] || t[0] != ' ')
    ensures SingleSpaced([c] + t)
  {
    var r := [c] + t;
    forall i | 1 < i < |r|
      ensures r[i - 1] != ' ' || r[i] != ' '
    {
      assert r[i - 1] == t[i - 2] && r[i] == t[i - 1];
    }
  }

  /** The noise words are non-empty and hold no space. */
  lemma NoiseWordShape(w: string)
    requires w in NoiseWords
    ensures w != [] && ' ' !in w
  {
  }

  /** After the noise substitution no noise word occurs: each occurrence in the
      input is either consumed by a match or overlaps one, and the written spaces
      cannot be part of a word. */
  lemma {:induction false} NoiseSubClean(s: string, w: string)
    requires w in NoiseWords
    ensures !Occurs(Sub(Noise, s), w)
    decreases |s|
  {
    NoiseWordShape(w);
    if s != [] {
      SubStep(Noise, s);
      MatchLenSpec(Noise, s);
      var m := if MatchLen(Noise, s) > 0 then MatchLen(Noise, s) else 1;
      NoiseSubClean(s[m..], w);
      SubPrefix(Noise, s, w);
      OccursInTail(Sub(Noise, s)[0], Sub(Noise, s[m..]), w);
    }
  }

  /** An occurrence in a slice of `s` is an occurrence in `s`. */
  lemma OccursInSlice(s: string, a: nat, b: nat, w: string)
    requires a <= b <= |s|
    ensures Occurs(s[a..b], w) ==> Occurs(s, w)
  {
    if Occurs(s[a..b], w) {
      var i :| 0 <= i <= |s[a..b]| && w <= s[a..b][i..];
      assert s[a..b][i..] <= s[a + i..];
    }
  }

  /** A slice of a single-spaced text is single-spaced. */
  lemma SingleSpacedSlice(s: string, a: nat, b: nat)
    requires a <= b <= |s| && SingleSpaced(s)
    ensures SingleSpaced(s[a..b])
  {
    forall i | 0 < i < b - a
      ensures s[a..b][i - 1] != ' ' || s[a..b][i] != ' '
    {
      assert s[a..b][i - 1] == s[a + i - 1] && s[a..b][i] == s[a + i];
    }
  }

  // ---------------------------------------------------------------------------
  // Substitution piece by piece
  // ---------------------------------------------------------------------------

  /** No match of `p` that starts in `x` can reach past its end: noise words
      hold no space, and digit and whitespace runs stop at a character outside
      them. */
  predicate Boundary(p: Pattern, x: string) {
    x == [] ||
    match p
    case Noise => x[|x| - 1] == ' '
    case LongDigits => !IsDigit(x[|x| - 1])
    case NonLetter => true
    case Whitespace => !IsSpace(x[|x| - 1])
  }

  /** A run that stops inside `u` is not lengthened by what follows `u`. */
  lemma {:induction false} RunAppend(cls: CharClass, u: string, y: string)
    requires u != [] && !InClass(cls, u[|u| - 1])
    ensures Run(cls, u + y) == Run(cls, u)
    decreases |u|
  {
    if InClass(cls, u[0]) {
      assert (u + y)[1..] == u[1..] + y;
      RunAppend(cls, u[1..], y);
    }
  }

  /** A space-free word starts a text ending in a space exactly when it starts
      that text followed by anything. */
  lemma {:induction false} StartsWithAppend(u: string, y: string, w: string)
    requires ' ' !in w && u != [] && u[|u| - 1] == ' '
    ensures StartsWith(u + y, w) == StartsWith(u, w)
    decreases |w|
  {
    if w != [] {
      assert w[0] in w;
      if |u| > 1 {
        assert (u + y)[1..] == u[1..] + y;
        assert forall c | c in w[1..] :: c in w;
        StartsWithAppend(u[1..], y, w[1..]);
      }
    }
  }

  /** At a position inside `u`, what follows `u` does not change the match. */
  lemma MatchLenAppend(p: Pattern, u: string, y: string)
    requires u != [] && Boundary(p, u)
    ensures MatchLen(p, u + y) == MatchLen(p, u)
  {
    match p
    case Noise =>
      StartsWithAppend(u, y, "txn");
      StartsWithAppend(u, y, "transaction");
      StartsWithAppend(u, y, "debited");
      StartsWithAppend(u, y, "credited");
      StartsWithAppend(u, y, "rs.");
      StartsWithAppend(u, y, "rs");
      StartsWithAppend(u, y, "inr");
    case LongDigits =>
      RunAppend(Digit, u, y);
    case NonLetter =>
    case Whitespace =>
      RunAppend(Space, u, y);
  }

  /** Dropping a prefix keeps the end of `x`, and so the boundary. */
  lemma BoundaryDrop(p: Pattern, x: string, m: nat)
    requires Boundary(p, x) && m <= |x|
    ensures Boundary(p, x[m..])
  {
    if m < |x| {
      assert x[m..][|x| - m - 1] == x[|x| - 1];
    }
  }

  /** The first step of the substitution of `x + y`, when the match at the
      front of `x` stays inside `x`. */
  lemma SubStepAppend(p: Pattern, x: string, y: string)
    requires x != [] && Boundary(p, x)
    ensures var k := MatchLen(p, x); var m := if k > 0 then k else 1; var c := if k > 0 then ' ' else x[0];
      m <= |x| && Sub(p, x + y) == [c] + Sub(p, x[m..] + y)
  {
    var s := x + y;
    var k := MatchLen(p, x);
    var m := if k > 0 then k else 1;
    MatchLenAppend(p, x, y);
    SubStepLen(p, s, k);
    DropAppend(x, y, m);
    assert s[0] == x[0];
  }

  /** Sequence fact stated as a lemma only so that a caller can hand it to the
      solver by name; it needs no proof. */
  lemma DropAppend(x: string, y: string, m: nat)
    requires m <= |x|
    ensures (x + y)[m..] == x[m..] + y
  {
  }

  /** Sequence fact stated as a lemma only so that a caller can hand it to the
      solver by name; it needs no proof. */
  lemma ConsAssoc(c: char, a: string, b: string)
    ensures [c] + (a + b) == ([c] + a) + b
  {
  }

  /** Where no match can cross from `x` into `y`, the substitution works on
      the two pieces separately. */
  lemma {:induction false} SubSplit(p: Pattern, x: string, y: string)
    requires Boundary(p, x)
    ensures Sub(p, x + y) == Sub(p, x) + Sub(p, y)
    decreases |x|
  {
    if x == [] {
      assert x + y == y;
    } else {
      var k := MatchLen(p, x);
      var m := if k > 0 then k else 1;
      SubStep(p, x);
      SubStepAppend(p, x, y);
      BoundaryDrop(p, x, m);
      SubSplit(p, x[m..], y);
      ConsAssoc(if k > 0 then ' ' else x[0], Sub(p, x[m..]), Sub(p, y));
    }
  }

  /** A cheap test, on the next three characters at most, that no alternative
      of the noise pattern starts here: they are not `txn`, `tra`, `deb`,
      `cre`, `rs` or `inr`. It is sufficient, not necessary (`train` fails it). */
  predicate NoNoiseStart(s: string) {
    |s| < 2 || (
      && (s[0] == 't' && |s| >= 3 ==> !(s[1] == 'x' && s[2] == 'n') && !(s[1] == 'r' && s[2] == 'a'))
      && (s[0] == 'd' && |s| >= 3 ==> !(s[1] == 'e' && s[2] == 'b'))
      && (s[0] == 'c' && |s| >= 3 ==> !(s[1] == 'r' && s[2] == 'e'))
      && (s[0] == 'r' ==> s[1] != 's')
      && (s[0] == 'i' && |s| >= 3 ==> !(s[1] == 'n' && s[2] == 'r')))
  }

  lemma NoNoiseStartMatch(s: string)
    requires NoNoiseStart(s)
    ensures NoiseMatch(s) == 0
  {
  }

  /** Characters that no alternative of the noise pattern starts with. */
  predicate NotNoiseInitial(c: char) {
    c != 't' && c != 'd' && c != 'c' && c != 'r' && c != 'i'
  }

  lemma NotNoiseInitialMatch(s: string)
    requires s != [] && NotNoiseInitial(s[0])
    ensures NoiseMatch(s) == 0
  {
    NoNoiseStartMatch(s);
  }

  /** A prefix of characters that cannot start a noise word is copied as it is. */
  lemma {:induction false} NoiseKeepsPrefix(a: string, y: string)
    requires forall c | c in a :: NotNoiseInitial(c)
    ensures Sub(Noise, a + y) == a + Sub(Noise, y)
    decreases |a|
  {
    if a == [] {
      assert a + y == y;
    } else {
      var s := a + y;
      assert s[0] == a[0] && a[0] in a;
      NotNoiseInitialMatch(s);
      SubStepLen(Noise, s, 0);
      assert s[1..] == a[1..] + y;
      assert forall c | c in a[1..] :: c in a;
      NoiseKeepsPrefix(a[1..], y);
      assert a == [a[0]] + a[1..];
      ConsAssoc(a[0], a[1..], Sub(Noise, y));
    }
  }

  /** No alternative of the noise pattern starts anywhere in `s`. */
  predicate NoiseFree(s: string) {
    forall i | 0 <= i < |s| :: !StartsWithNoise(s[i..])
  }

  /** The cheap test passes at every position. */
  predicate NoNoiseAnywhere(s: string)
    decreases |s|
  {
    s == [] || (NoNoiseStart(s) && NoNoiseAnywhere(s[1..]))
  }

  /** The cheap test, passed at every position, shows the text noise-free. */
  lemma {:induction false} NoNoiseAnywhereFree(s: string)
    requires NoNoiseAnywhere(s)
    ensures NoiseFree(s)
    decreases |s|
  {
    if s != [] {
      NoNoiseStartMatch(s);
      NoiseMatchSpec(s);
      NoNoiseAnywhereFree(s[1..]);
      forall i | 0 <= i < |s|
        ensures !StartsWithNoise(s[i..])
      {
        if i == 0 {
          assert s[0..] == s;
        } else {
          assert s[i..] == s[1..][i - 1..];
        }
      }
    }
  }

  /** A noise word holds no space, so none can run across a space: noise-free
      text ending in a space followed by noise-free text is noise-free. */
  lemma NoiseFreeAppend(x: string, y: string)
    requires x == [] || x[|x| - 1] == ' '
    requires NoiseFree(x) && NoiseFree(y)
    ensures NoiseFree(x + y)
  {
    forall i | 0 <= i < |x + y|
      ensures !StartsWithNoise((x + y)[i..])
    {
      if i < |x| {
        var u := x[i..];
        assert (x + y)[i..] == u + y;
        forall w | w in NoiseWords
          ensures !(w <= u + y)
        {
          NoiseWordShape(w);
          StartsWithAppend(u, y, w);
          StartsWithIsPrefix(u + y, w);
          StartsWithIsPrefix(u, w);
        }
      } else {
        assert (x + y)[i..] == y[i - |x|..];
      }
    }
  }

  /** Text in which no noise word starts anywhere is left alone by the noise
      substitution. */
  lemma NoiseFreeIdentity(s: string)
    requires NoiseFree(s)
    ensures Sub(Noise, s) == s
  {
    forall i | 0 <= i < |s|
      ensures FixedAt(Noise, s[i..])
    {
      NoiseMatchSpec(s[i..]);
    }
    SubIdentity(Noise, s);
  }

  /** Text without digits is left alone by `re.sub(r"\d{4,}", " ", ·)`. */
  lemma {:induction false} NoDigitsIdentity(s: string)
    requires forall c | c in s :: !IsDigit(c)
    ensures Sub(LongDigits, s) == s
    decreases |s|
  {
    if s != [] {
      assert s[0] in s;
      assert forall c | c in s[1..] :: c in s;
      NoDigitsIdentity(s[1..]);
      SubStep(LongDigits, s);
    }
  }

  /** Text of lower-case letters and whitespace is left alone by
      `re.sub(r"[^a-z\s]", " ", ·)`. */
  lemma {:induction false} LettersIdentity(s: string)
    requires forall c | c in s :: IsLower(c) || IsSpace(c)
    ensures Sub(NonLetter, s) == s
    decreases |s|
  {
    if s != [] {
      assert s[0] in s;
      assert forall c | c in s[1..] :: c in s;
      LettersIdentity(s[1..]);
      SubStep(NonLetter, s);
    }
  }

  /** Text without whitespace is left alone by `re.sub(r"\s+", " ", ·)`. */
  lemma {:induction false} NoSpaceIdentity(s: string)
    requires forall c | c in s :: !IsSpace(c)
    ensures Sub(Whitespace, s) == s
    decreases |s|
  {
    if s != [] {
      assert s[0] in s;
      assert forall c | c in s[1..] :: c in s;
      NoSpaceIdentity(s[1..]);
      SubStep(Whitespace, s);
    }
  }

  /** A run over the whole of `u` stops where `y` starts with a character
      outside the class. */
  lemma {:induction false} RunWhole(cls: CharClass, u: string, y: string)
    requires forall c | c in u :: InClass(cls, c)
    requires y == [] || !InClass(cls, y[0])
    ensures Run(cls, u + y) == |u|
    decreases |u|
  {
    if u == [] {
      assert u + y == y;
    } else {
      assert u[0] in u;
      assert forall c | c in u[1..] :: c in u;
      assert (u + y)[1..] == u[1..] + y;
      RunWhole(cls, u[1..], y);
    }
  }

  /** A whitespace run at the front becomes one space. */
  lemma SpacesThen(u: string, y: string)
    requires u != [] && forall c | c in u :: IsSpace(c)
    requires y == [] || !IsSpace(y[0])
    ensures Sub(Whitespace, u + y) == " " + Sub(Whitespace, y)
  {
    RunWhole(Space, u, y);
    SubStepLen(Whitespace, u + y, |u|);
    assert (u + y)[|u|..] == y;
  }

  /** A word followed by a whitespace run: `re.sub(r"\s+", " ", ·)` keeps the
      word and writes one space for the whole run. */
  lemma WordThenSpaces(a: string, u: string, y: string)
    requires a != [] && forall c | c in a :: !IsSpace(c)
    requires u != [] && forall c | c in u :: IsSpace(c)
    requires y == [] || !IsSpace(y[0])
    ensures Sub(Whitespace, a + u + y) == a + " " + Sub(Whitespace, y)
  {
    var t := u + y;
    NoSpaceWord(a);
    SubSplit(Whitespace, a, t);
    SpacesThen(u, y);
    Assoc(a, u, y);
    Assoc(a, " ", Sub(Whitespace, y));
  }

  /** A non-empty word without whitespace is a boundary for `\s+` and is left
      as it is. */
  lemma NoSpaceWord(a: string)
    requires a != [] && forall c | c in a :: !IsSpace(c)
    ensures Boundary(Whitespace, a) && Sub(Whitespace, a) == a
  {
    assert a[|a| - 1] in a;
    NoSpaceIdentity(a);
  }

  /** Sequence fact stated as a lemma only so that a caller can hand it to the
      solver by name; it needs no proof. */
  lemma Assoc(a: string, b: string, c: string)
    ensures a + b + c == a + (b + c)
  {
  }

  /** Text without digits followed by a run of four or more digits: the run
      becomes one space and nothing else changes. */
  lemma TrailingDigits(a: string, d: string)
    requires forall c | c in a :: !IsDigit(c)
    requires |d| >= 4 && forall c | c in d :: IsDigit(c)
    ensures Sub(LongDigits, a + d) == a + " "
  {
    if a != [] {
      assert a[|a| - 1] in a;
    }
    SubSplit(LongDigits, a, d);
    NoDigitsIdentity(a);
    RunWhole(Digit, d, []);
    assert d + [] == d;
    SubStepLen(LongDigits, d, |d|);
    assert d[|d|..] == [];
  }

  // ---------------------------------------------------------------------------
  // The result of the `\d{4,}` substitution
  // ---------------------------------------------------------------------------

  /** After `re.sub(r"\d{4,}", " ", s)` the digit run at the front is the
      input's when that is shorter than four, and empty otherwise. */
  lemma {:induction false} LongDigitsFront(s: string)
    ensures Run(Digit, Sub(LongDigits, s)) == if Run(Digit, s) >= 4 then 0 else Run(Digit, s)
    decreases |s|
  {
    if s != [] {
      SubStep(LongDigits, s);
      if Run(Digit, s) > 0 && Run(Digit, s) < 4 {
        LongDigitsFront(s[1..]);
      }
    }
  }

  /** No run of four or more digits is left anywhere after
      `re.sub(r"\d{4,}", " ", s)`. */
  lemma {:induction false} LongDigitsGone(s: string)
    ensures var r := Sub(LongDigits, s);
      forall i | 0 <= i <= |r| :: Run(Digit, r[i..]) < 4
    decreases |s|
  {
    var r := Sub(LongDigits, s);
    if s != [] {
      SubStep(LongDigits, s);
      var m := if MatchLen(LongDigits, s) > 0 then MatchLen(LongDigits, s) else 1;
      LongDigitsGone(s[m..]);
      LongDigitsFront(s);
      forall i | 0 < i <= |r|
        ensures Run(Digit, r[i..]) < 4
      {
        assert r[i..] == Sub(LongDigits, s[m..])[i - 1..];
      }
      assert r[0..] == r;
    }
  }
}
