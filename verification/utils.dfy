/** Model of src/utils.py: the description normaliser `basic_clean_description`,
    shared by training and inference, and the column check `ensure_columns`. */
module Utils {
  import opened Wrappers
  import opened Regex

  // ---------------------------------------------------------------------------
  // Lowercasing and stripping (ASCII)
  // ---------------------------------------------------------------------------

  /** `str.lower` on one ASCII character. */
  function LowerChar(c: char): (r: char)
    ensures !IsUpper(r)
    ensures IsUpper(c) ==> IsLower(r) && r as int == c as int + 32
    ensures !IsUpper(c) ==> r == c
  {
    if IsUpper(c) then (c as int + 32) as char else c
  }

  /** `str.lower` on ASCII text: same length, each upper-case letter replaced
      by its lower-case letter, every other character unchanged, so a text with
      no upper-case letter is unchanged. */
  function Lower(s: string): (r: string)
    ensures |r| == |s|
    ensures forall i | 0 <= i < |r| :: !IsUpper(r[i]) && (IsUpper(s[i]) || r[i] == s[i])
    ensures forall i | 0 <= i < |r| :: IsUpper(s[i]) ==> IsLower(r[i]) && r[i] as int == s[i] as int + 32
    ensures (forall c | c in s :: !IsUpper(c)) ==> r == s
  {
    seq(|s|, i requires 0 <= i < |s| => LowerChar(s[i]))
  }

  /** `str.lstrip()`: the longest suffix of `s` that does not start with whitespace. */
  function TrimLeft(s: string): (r: string)
    ensures |r| <= |s| && r == s[|s| - |r|..]
    ensures forall i | 0 <= i < |s| - |r| :: IsSpace(s[i])
    ensures r == [] || !IsSpace(r[0])
    decreases |s|
  {
    if s != [] && IsSpace(s[0]) then TrimLeft(s[1..]) else s
  }

  /** `str.rstrip()`: the longest prefix of `s` that does not end with whitespace. */
  function TrimRight(s: string): (r: string)
    ensures |r| <= |s| && r == s[..|r|]
    ensures forall i | |r| <= i < |s| :: IsSpace(s[i])
    ensures r == [] || !IsSpace(r[|r| - 1])
    decreases |s|
  {
    if s != [] && IsSpace(s[|s| - 1]) then TrimRight(s[..|s| - 1]) else s
  }

  /** `r`, what `rstrip` keeps of `t`, is what `lstrip` keeps of `s`: a slice
      of `s`, and everything cut off on either side is whitespace. */
  lemma StripSlice(s: string, t: string, r: string)
    requires |t| <= |s| && t == s[|s| - |t|..]
    requires forall i | 0 <= i < |s| - |t| :: IsSpace(s[i])
    requires |r| <= |t| && r == t[..|r|]
    requires forall i | |r| <= i < |t| :: IsSpace(t[i])
    ensures exists a, b | 0 <= a <= b <= |s| ::
      && r == s[a..b]
      && (forall i | 0 <= i < a :: IsSpace(s[i]))
      && (forall i | b <= i < |s| :: IsSpace(s[i]))
  {
    var a := |s| - |t|;
    var b := a + |r|;
    assert r == s[a..b];
    forall i | b <= i < |s|
      ensures IsSpace(s[i])
    {
      assert s[i] == t[i - a];
    }
  }

  /** `str.strip()`: a slice of `s` with no whitespace at either end, and
      everything cut off is whitespace. */
  function Strip(s: string): (r: string)
    ensures |r| <= |s|
    ensures r == [] || (!IsSpace(r[0]) && !IsSpace(r[|r| - 1]))
    ensures exists a, b | 0 <= a <= b <= |s| ::
      && r == s[a..b]
      && (forall i | 0 <= i < a :: IsSpace(s[i]))
      && (forall i | b <= i < |s| :: IsSpace(s[i]))
  {
    var t := TrimLeft(s);
    var r := TrimRight(t);
    StripSlice(s, t, r);
    r
  }

  // ---------------------------------------------------------------------------
  // basic_clean_description
  // ---------------------------------------------------------------------------

  /** `basic_clean_description(text)`; `None` stands for any argument that is
      not a `str`. */
  function CleanDescription(text: Option<string>): (r: string)
    ensures text.None? ==> r == ""
    ensures text.Some? ==> |r| <= |text.value|
  {
    match text
    case None => ""
    case Some(s) =>
      var lowered := Lower(s);
      var noNoise := Sub(Noise, lowered);
      var noIds := Sub(LongDigits, noNoise);
      var lettersOnly := Sub(NonLetter, noIds);
      Strip(Sub(Whitespace, lettersOnly))
  }

  /** What the normaliser produces: lower-case letters separated by single
      spaces, nothing at either end, and none of the noise words. */
  predicate IsCleanText(t: string) {
    && (forall c | c in t :: IsLower(c) || c == ' ')
    && (t == [] || (t[0] != ' ' && t[|t| - 1] != ' '))
    && SingleSpaced(t)
    && (forall w | w in NoiseWords :: !Occurs(t, w))
  }

  /** Every output of the normaliser is clean text (src/utils.py:7-11). */
  lemma CleanShape(text: Option<string>)
    ensures IsCleanText(CleanDescription(text))
  {
    if text.Some? {
      var lowered := Lower(text.value);
      var noNoise := Sub(Noise, lowered);
      var noIds := Sub(LongDigits, noNoise);
      var lettersOnly := Sub(NonLetter, noIds);
      var collapsed := Sub(Whitespace, lettersOnly);
      var r := Strip(collapsed);
      assert r == CleanDescription(text);
      var a, b :| 0 <= a <= b <= |collapsed| && r == collapsed[a..b];
      // alphabet
      SubChars(NonLetter, noIds);
      SubChars(Whitespace, lettersOnly);
      assert forall c | c in r :: c in collapsed;
      // spacing
      WhitespaceSubSingleSpaced(lettersOnly);
      SingleSpacedSlice(collapsed, a, b);
      // noise words
      forall w | w in NoiseWords
        ensures !Occurs(r, w)
      {
        NoiseWordShape(w);
        NoiseSubClean(lowered, w);
        SubOccurs(LongDigits, noNoise, w);
        SubOccurs(NonLetter, noIds, w);
        SubOccurs(Whitespace, lettersOnly, w);
        OccursInSlice(collapsed, a, b, w);
      }
    }
  }

  /** In clean text no noise word starts anywhere. */
  lemma CleanTextNoNoiseAt(t: string, i: nat)
    requires IsCleanText(t) && i < |t|
    ensures FixedAt(Noise, t[i..])
  {
    MatchLenSpec(Noise, t[i..]);
    forall w | w in NoiseWords
      ensures !(w <= t[i..])
    {
      assert !Occurs(t, w);
    }
  }

  /** In clean text a space is never followed by another whitespace character. */
  lemma CleanTextSpaceAt(t: string, i: nat)
    requires IsCleanText(t) && i < |t|
    ensures FixedAt(Whitespace, t[i..])
  {
    MatchLenSpec(Whitespace, t[i..]);
    assert t[i] in t;
    if t[i] == ' ' && i + 1 < |t| {
      assert t[i + 1] in t;
      assert t[i..][1] == t[i + 1];
    }
  }

  /** No substitution of the normaliser needs to change clean text anywhere. */
  lemma CleanTextFixed(t: string)
    requires IsCleanText(t)
    ensures forall i | 0 <= i < |t| :: FixedAt(Noise, t[i..]) && FixedAt(LongDigits, t[i..])
    ensures forall i | 0 <= i < |t| :: FixedAt(NonLetter, t[i..]) && FixedAt(Whitespace, t[i..])
  {
    forall i | 0 <= i < |t|
      ensures FixedAt(Noise, t[i..]) && FixedAt(LongDigits, t[i..])
      ensures FixedAt(NonLetter, t[i..]) && FixedAt(Whitespace, t[i..])
    {
      assert t[i] in t;
      MatchLenSpec(LongDigits, t[i..]);
      MatchLenSpec(NonLetter, t[i..]);
      CleanTextNoNoiseAt(t, i);
      CleanTextSpaceAt(t, i);
    }
  }

  /** Stripping clean text removes nothing. */
  lemma CleanTextStripped(t: string)
    requires IsCleanText(t)
    ensures Strip(t) == t
  {
    if t != [] {
      assert t[0] in t && t[|t| - 1] in t;
    }
    StripUnpadded(t);
  }

  /** Text with no whitespace at either end is stripped to itself. */
  lemma StripUnpadded(t: string)
    requires t == [] || (!IsSpace(t[0]) && !IsSpace(t[|t| - 1]))
    ensures Strip(t) == t
  {
    assert TrimLeft(t) == t;
    assert TrimRight(t) == t;
  }

  /** The normaliser leaves clean text as it is: each substitution finds
      nothing to change, and there is nothing to strip. */
  lemma CleanFixed(t: string)
    requires IsCleanText(t)
    ensures CleanDescription(Some(t)) == t
  {
    assert Lower(t) == t by {
      assert forall c | c in t :: !IsUpper(c);
    }
    CleanTextFixed(t);
    SubIdentity(Noise, t);
    SubIdentity(LongDigits, t);
    SubIdentity(NonLetter, t);
    SubIdentity(Whitespace, t);
    CleanTextStripped(t);
    assert CleanDescription(Some(t)) == Strip(Sub(Whitespace, Sub(NonLetter, Sub(LongDigits, Sub(Noise, Lower(t))))));
  }

  /** `basic_clean_description` is idempotent (src/utils.py:7-12). */
  lemma CleanIdempotent(text: Option<string>)
    ensures CleanDescription(Some(CleanDescription(text))) == CleanDescription(text)
  {
    CleanShape(text);
    CleanFixed(CleanDescription(text));
  }

  // ---------------------------------------------------------------------------
  // Worked examples
  // ---------------------------------------------------------------------------

  lemma ZomatoLower()
    ensures Lower("Zomato order 1234") == "zomato order 1234"
  {
  }

  lemma ZomatoNoNoise()
    ensures NoNoiseAnywhere("zomato" + " ") && NoNoiseAnywhere("order" + " ") && NoNoiseAnywhere("1234")
  {
    assert "zomato" + " " == "zomato " && "order" + " " == "order ";
    var a := "zomato ";
    assert NoNoiseAnywhere(a[6..]);
    assert NoNoiseAnywhere(a[5..]);
    assert NoNoiseAnywhere(a[4..]);
    assert NoNoiseAnywhere(a[3..]);
    assert NoNoiseAnywhere(a[2..]);
    assert NoNoiseAnywhere(a[1..]);
    var b := "order ";
    assert NoNoiseAnywhere(b[5..]);
    assert NoNoiseAnywhere(b[4..]);
    assert NoNoiseAnywhere(b[3..]);
    assert NoNoiseAnywhere(b[2..]);
    assert NoNoiseAnywhere(b[1..]);
    var c := "1234";
    assert NoNoiseAnywhere(c[3..]);
    assert NoNoiseAnywhere(c[2..]);
    assert NoNoiseAnywhere(c[1..]);
  }

  /** On text of lower-case letters and whitespace in which no noise word
      starts, the first four steps change nothing, so the description is its
      whitespace collapsed to single spaces and stripped. */
  lemma CleanLettersText(s: string)
    requires forall c | c in s :: IsLower(c) || IsSpace(c)
    requires NoiseFree(s)
    ensures CleanDescription(Some(s)) == Strip(Sub(Whitespace, s))
  {
    LettersOnly(s);
    NoiseFreeIdentity(s);
    NoDigitsIdentity(s);
    LettersIdentity(s);
    CleanThrough(s, s);
  }

  /** Lower-case letters and whitespace: nothing to lowercase, and no digit. */
  lemma LettersOnly(s: string)
    requires forall c | c in s :: IsLower(c) || IsSpace(c)
    ensures Lower(s) == s
    ensures forall c | c in s :: !IsDigit(c)
  {
    assert forall c | c in s :: !IsUpper(c);
  }

  /** When lowercasing gives `t` and the first three substitutions leave `t`
      as it is, only the whitespace step and the strip remain. */
  lemma CleanThrough(s: string, t: string)
    requires Lower(s) == t && Sub(Noise, t) == t && Sub(LongDigits, t) == t && Sub(NonLetter, t) == t
    ensures CleanDescription(Some(s)) == Strip(Sub(Whitespace, t))
  {
  }

  /** A non-empty run of lower-case letters. */
  predicate IsWord(a: string) {
    a != [] && forall c | c in a :: IsLower(c)
  }

  lemma WordsIdDigits(a: string, b: string, d: string)
    requires IsWord(a) && IsWord(b)
    requires |d| >= 4 && forall c | c in d :: IsDigit(c)
    ensures Sub(LongDigits, a + " " + b + " " + d) == a + " " + b + "  "
  {
    var t := a + " " + b + " ";
    forall c | c in t
      ensures !IsDigit(c)
    {
      assert c in a || c in b || c == ' ';
    }
    TrailingDigits(t, d);
    assert t + " " == a + " " + b + "  ";
  }

  lemma WordsIdLetters(a: string, b: string)
    requires IsWord(a) && IsWord(b)
    ensures Sub(NonLetter, a + " " + b + "  ") == a + " " + b + "  "
  {
    var t := a + " " + b + "  ";
    forall c | c in t
      ensures IsLower(c) || IsSpace(c)
    {
      assert c in a || c in b || c == ' ';
    }
    LettersIdentity(t);
  }

  lemma WordThenTwoSpaces(b: string)
    requires IsWord(b)
    ensures Sub(Whitespace, b + "  ") == b + " "
  {
    assert forall c | c in b :: !IsSpace(c);
    WordThenSpaces(b, "  ", "");
    assert b + "  " + "" == b + "  ";
  }

  lemma WordThenSpace(a: string, y: string)
    requires IsWord(a) && y != [] && !IsSpace(y[0])
    ensures Sub(Whitespace, a + " " + y) == a + " " + Sub(Whitespace, y)
  {
    assert forall c | c in a :: !IsSpace(c);
    WordThenSpaces(a, " ", y);
  }

  lemma WordsIdSpaces(a: string, b: string)
    requires IsWord(a) && IsWord(b)
    ensures Sub(Whitespace, a + " " + b + "  ") == a + " " + b + " "
  {
    assert b[0] in b;
    WordThenSpace(a, b + "  ");
    WordThenTwoSpaces(b);
    assert a + " " + (b + "  ") == a + " " + b + "  ";
    assert a + " " + (b + " ") == a + " " + b + " ";
  }

  /** Two words and a reference id of four or more digits, with no noise word
      starting anywhere, clean to the two words: the id becomes a space that
      the collapsing and stripping then remove. */
  lemma WordsAndId(x: string, a: string, b: string, d: string)
    requires Lower(x) == a + " " + b + " " + d
    requires IsWord(a) && IsWord(b)
    requires |d| >= 4 && forall c | c in d :: IsDigit(c)
    requires NoiseFree(Lower(x))
    ensures CleanDescription(Some(x)) == a + " " + b
  {
    NoiseFreeIdentity(Lower(x));
    WordsIdDigits(a, b, d);
    WordsIdLetters(a, b);
    WordsIdSpaces(a, b);
    var t := a + " " + b;
    assert t[0] == a[0] && a[0] in a;
    assert t[|t| - 1] == b[|b| - 1] && b[|b| - 1] in b;
    StripTrailingSpace(t);
    assert t + " " == a + " " + b + " ";
  }

  /** Stripping a text followed by one space, when the text has no whitespace
      at either end, gives the text back. */
  lemma StripTrailingSpace(t: string)
    requires t != [] && !IsSpace(t[0]) && !IsSpace(t[|t| - 1])
    ensures Strip(t + " ") == t
  {
    assert TrimLeft(t + " ") == t + " ";
    assert (t + " ")[..|t|] == t;
  }

  lemma ZomatoPieces()
    ensures Lower("Zomato order 1234") == "zomato" + " " + "order" + " " + "1234"
    ensures IsWord("zomato") && IsWord("order")
    ensures |"1234"| >= 4 && forall c | c in "1234" :: IsDigit(c)
    ensures "zomato" + " " + "order" == "zomato order"
  {
    ZomatoLower();
    assert "zomato" + " " + "order" + " " + "1234" == "zomato order 1234";
  }

  /** Words each followed by a space, then an id: noise-free piece by piece
      is noise-free as a whole. */
  lemma NoiseFreeWords(a: string, b: string, d: string)
    requires NoNoiseAnywhere(a + " ") && NoNoiseAnywhere(b + " ") && NoNoiseAnywhere(d)
    ensures NoiseFree(a + " " + b + " " + d)
  {
    NoNoiseAnywhereFree(a + " ");
    NoNoiseAnywhereFree(b + " ");
    NoNoiseAnywhereFree(d);
    NoiseFreeAppend(b + " ", d);
    NoiseFreeAppend(a + " ", b + " " + d);
    assert a + " " + b + " " + d == (a + " ") + (b + " " + d);
  }

  /** "Zomato order 1234" is normalised to "zomato order". */
  lemma ZomatoExample()
    ensures CleanDescription(Some("Zomato order 1234")) == "zomato order"
  {
    ZomatoPieces();
    ZomatoNoNoise();
    NoiseFreeWords("zomato", "order", "1234");
    WordsAndId("Zomato order 1234", "zomato", "order", "1234");
  }

  lemma DinnerLower()
    ensures Lower("Zomato dinner 5555") == "zomato dinner 5555"
  {
  }

  lemma DinnerNoNoise()
    ensures NoNoiseAnywhere("dinner" + " ") && NoNoiseAnywhere("5555")
  {
    assert "dinner" + " " == "dinner ";
    var a := "dinner ";
    assert NoNoiseAnywhere(a[6..]);
    assert NoNoiseAnywhere(a[5..]);
    assert NoNoiseAnywhere(a[4..]);
    assert NoNoiseAnywhere(a[3..]);
    assert NoNoiseAnywhere(a[2..]);
    assert NoNoiseAnywhere(a[1..]);
    var c := "5555";
    assert NoNoiseAnywhere(c[3..]);
    assert NoNoiseAnywhere(c[2..]);
    assert NoNoiseAnywhere(c[1..]);
  }

  lemma DinnerPieces()
    ensures Lower("Zomato dinner 5555") == "zomato" + " " + "dinner" + " " + "5555"
  {
    DinnerLower();
    assert "zomato" + " " == "zomato ";
    assert "zomato " + "dinner" == "zomato dinner";
    assert "zomato dinner" + " " == "zomato dinner ";
    assert "zomato dinner " + "5555" == "zomato dinner 5555";
  }

  lemma DinnerWords()
    ensures IsWord("zomato") && IsWord("dinner")
    ensures |"5555"| >= 4 && forall c | c in "5555" :: IsDigit(c)
    ensures "zomato" + " " + "dinner" == "zomato dinner"
  {
  }

  /** "Zomato dinner 5555" is normalised to "zomato dinner": the `in` inside
      "dinner" is not the noise word `inr`, so the word is kept. */
  lemma DinnerExample()
    ensures CleanDescription(Some("Zomato dinner 5555")) == "zomato dinner"
  {
    DinnerPieces();
    DinnerWords();
    ZomatoNoNoise();
    DinnerNoNoise();
    NoiseFreeWords("zomato", "dinner", "5555");
    WordsAndId("Zomato dinner 5555", "zomato", "dinner", "5555");
  }

  lemma PurseLower()
    ensures Lower("Purse") == "purse"
    ensures "pu" + "rse" == "purse"
  {
  }

  lemma PurseRs()
    ensures Sub(Noise, "rse") == " e"
  {
    NoiseMatchDot("rse");
    SubStepLen(Noise, "rse", 2);
    assert "rse"[2..] == "e";
    NoNoiseStartMatch("e");
    SubStepLen(Noise, "e", 0);
  }

  lemma PurseNoise()
    ensures Sub(Noise, "purse") == "pu e"
  {
    PurseLower();
    NoiseKeepsPrefix("pu", "rse");
    PurseRs();
    assert "pu" + " e" == "pu e";
  }

  lemma PurseSubs()
    ensures Sub(LongDigits, "pu e") == "pu e"
    ensures Sub(NonLetter, "pu e") == "pu e"
  {
    NoDigitsIdentity("pu e");
    LettersIdentity("pu e");
  }

  lemma PurseSpaces()
    ensures Sub(Whitespace, "pu e") == "pu e"
  {
    WordThenSpace("pu", "e");
    NoSpaceIdentity("e");
    assert "pu" + " " + "e" == "pu e";
  }

  lemma PurseStrip()
    ensures Strip("pu e") == "pu e"
  {
    StripUnpadded("pu e");
  }

  /** A noise word is removed even inside another word: "Purse" holds `rs`. */
  lemma PurseExample()
    ensures CleanDescription(Some("Purse")) == "pu e"
  {
    PurseLower();
    PurseNoise();
    PurseSubs();
    PurseSpaces();
    PurseStrip();
  }

  // ---------------------------------------------------------------------------
  // ensure_columns
  // ---------------------------------------------------------------------------

  /** A data frame, seen as its column names and its rows of cells. */
  datatype Table<C> = Table(columns: seq<string>, rows: seq<seq<C>>)

  /** The `ValueError` raised by `ensure_columns`: the missing names and the
      full list that was expected. */
  datatype ColumnError = MissingColumns(missing: seq<string>, expected: seq<string>)

  /** `[c for c in required if c not in columns]`. */
  function Missing(columns: seq<string>, required: seq<string>): (missing: seq<string>)
    ensures |missing| <= |required|
    ensures forall c :: c in missing <==> c in required && c !in columns
  {
    if required == [] then []
    else (if required[0] in columns then [] else [required[0]]) + Missing(columns, required[1..])
  }

  /** The missing list follows `required` piece by piece: the names missing
      from `a + b` are those missing from `a`, then those missing from `b`. */
  lemma {:induction false} MissingAppend(columns: seq<string>, a: seq<string>, b: seq<string>)
    ensures Missing(columns, a + b) == Missing(columns, a) + Missing(columns, b)
  {
    if a == [] {
      assert a + b == b;
    } else {
      assert (a + b)[0] == a[0] && (a + b)[1..] == a[1..] + b;
      MissingAppend(columns, a[1..], b);
    }
  }

  /** `ensure_columns(df, required)`: fails exactly when some required name is
      not a column, reporting the missing names in `required` order; otherwise
      returns an identical copy of the table. */
  function EnsureColumns<C>(table: Table<C>, required: seq<string>): (r: Result<Table<C>, ColumnError>)
    ensures r.Failure? <==> exists c | c in required :: c !in table.columns
    ensures r.Success? ==> r.value == table
    ensures r.Failure? ==> r.error == MissingColumns(Missing(table.columns, required), required)
  {
    var missing := Missing(table.columns, required);
    if missing != [] then
      assert missing[0] in missing;
      Failure(MissingColumns(missing, required))
    else
      Success(table)
  }

  /** An upload with `date` and `description` but no `amount` column is
      rejected, naming exactly `amount`. */
  lemma MissingAmountExample(rows: seq<seq<string>>)
    ensures EnsureColumns(Table(["date", "description"], rows), ["date", "amount", "description"])
      == Failure(MissingColumns(["amount"], ["date", "amount", "description"]))
  {
    var columns := ["date", "description"];
    assert "date" in columns && "description" in columns;
    assert "amount" != "date" && "amount" != "description";
    var required := ["date", "amount", "description"];
    assert required[1..] == ["amount", "description"];
    assert required[1..][1..] == ["description"];
    assert Missing(columns, ["description"]) == [];
    assert Missing(columns, ["amount", "description"]) == ["amount"];
    assert Missing(columns, required) == ["amount"];
  }
}
