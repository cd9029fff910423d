# Smart expense classifier: normaliser, column check and split policy in Dafny

This project models the two pure pieces of logic under the Streamlit and
scikit-learn glue of the smart expense classifier, and proves properties of
them.

- **The description normaliser** `basic_clean_description` (src/utils.py).
  Training and inference both run it, in five steps:
  1. Lowercase.
  2. Replace every match of `txn|transaction|debited|credited|rs\.?|inr` by a space.
  3. Replace every run of four or more digits (an order or reference id) by a space.
  4. Replace every character that is neither `a`-`z` nor whitespace by a space.
  5. Collapse whitespace runs to one space and strip both ends.

  Module `Regex` (regex.dfy) models `re.sub(pattern, " ", text)` for the four
  patterns. `MatchLen` gives the length of the leftmost greedy match at a
  position, and `Sub` scans left to right, writes one space per match and
  copies everything else. Module `Utils` (utils.dfy) chains the five steps in
  `CleanDescription`. A non-`str` argument is `None`.
- **The column check** `ensure_columns` (src/utils.py). A table is its column
  names and its rows. The check returns `Success` with the same table, or a
  `Failure` carrying the missing names (in `required` order) and the expected
  list, which is the payload of the `ValueError`.
- **The split decision** in `main` (src/train.py, lines 38-46), lifted into the
  pure function `Train.SplitPolicy`. It does these things:
  - computes `value_counts` of the label column, the number of classes and the number of rows;
  - picks a held-out fraction of 0.25, raised to 0.5 when `int(n_samples * 0.25) < n_classes`;
  - decides whether to stratify.

  Both fractions are exact binary fractions, so `int(n * 0.25)` is `n / 4` and
  `int(n * 0.5)` is `n / 2`.

What is proved, in the system's terms:

- Every normalised description consists of the letters `a`-`z` and single
  spaces, with no space at either end. It contains no digit and no `txn`,
  `transaction`, `debited`, `credited`, `rs` or `inr`. Its length is at most the
  input's, and a non-string gives `""`.
- The normaliser leaves such clean text unchanged. So it is idempotent, and the
  set of its outputs is exactly the set of clean texts.
- What it makes of text that is not yet clean:
  - Text of lower-case letters and whitespace in which no noise word starts
    at any position only has its whitespace collapsed and stripped.
  - Two words followed by a reference id of four or more digits, with no noise
    word starting anywhere, come out as the two words. `"Zomato order 1234"`
    becomes `"zomato order"`, and `"Zomato dinner 5555"` becomes
    `"zomato dinner"`: the `in` of "dinner" is not followed by `r`.
- The alternation has no word boundaries, so noise words are removed inside
  other words too. `"Purse"` holds `rs` and becomes `"pu e"`.
- Each substitution works piece by piece: a match never runs past a space
  (noise words), a non-digit (`\d{4,}`) or a non-space (`\s+`). After the
  `\d{4,}` step, no run of four or more digits is left.
- `ensure_columns` fails exactly when a required name is absent. It reports
  exactly the absent names, in order, and otherwise returns the table unchanged.
- `value_counts` has one entry per distinct label. Each count is the label's
  multiplicity, each count is at least 1, and the counts add up to the number
  of rows.
- The fraction is a quarter exactly when `n_samples / 4 >= n_classes`.
  Stratification happens exactly when:
  - there is at least one row;
  - every class has at least two rows;
  - `floor(n_samples * fraction) >= n_classes`.

  When the fraction was raised and the split is stratified,
  `n_samples / 4 < n_classes <= n_samples / 2`. The two worked cases (class
  sizes 1, 1, 50 and five classes of ten) are proved.

On an empty label column `class_counts.min()` is NaN. `NaN >= 2` is false, so
the code does not stratify, even though "every label occurs at least twice"
holds vacuously there. The model does the same: `MinCount` returns `None`.

## Model

| member | source | states |
|---|---|---|
| Regex.Run | src/utils.py:9-11 | the greedy run of `\d` or `\s` at the start of a text: every character in it is in the class, and the next one is not |
| Regex.NoiseMatch | src/utils.py:8 | a match of the alternation never runs past the end of the text (what it matches is stated by `Regex.NoiseMatchSpec`) |
| Regex.NoiseMatchSpec | src/utils.py:8 | the alternation `txn\|transaction\|debited\|credited\|rs\.?\|inr` matches at a position exactly when a noise word starts there; the match is a whole alternative; `rs.` is taken with its dot and `rs` without one |
| Regex.MatchLen | src/utils.py:8-11 | a match of any of the four patterns never runs past the end of the text (what it matches is stated by `Regex.MatchLenSpec`) |
| Regex.MatchLenSpec | src/utils.py:8-11 | what each of the four patterns matches: a whole noise word; a whole run of at least four digits; exactly one character, and exactly when it is neither a lower-case letter nor whitespace; a whole whitespace run. Where nothing matches, the character is one the pattern keeps |
| Regex.Sub | src/utils.py:8-11 | `re.sub(p, " ", s)` never makes the text longer |
| Regex.SubPrefix | src/utils.py:8-11 | a substitution writes only spaces, so a space-free prefix of its result was already a prefix of its input |
| Regex.SubOccurs | src/utils.py:8-11 | a space-free word found in the result of a substitution was already in its input (no step glues letters together) |
| Regex.SubChars | src/utils.py:8-11 | every character of a substitution's result is a written space or an input character that the pattern keeps |
| Regex.SubIdentity | src/utils.py:8-11 | where a pattern matches nothing but single spaces, the substitution returns its input |
| Regex.SubSplit | src/utils.py:8-11 | where no match can run from `x` into `y` (`x` ends in a space for the noise words, in a non-digit for `\d{4,}`, in a non-space for `\s+`), `re.sub` of `x + y` is `re.sub` of `x` followed by `re.sub` of `y` |
| Regex.NoiseKeepsPrefix | src/utils.py:8 | characters that no noise word starts with are copied by the noise substitution |
| Regex.NoiseFreeIdentity | src/utils.py:8 | text in which no noise word starts at any position is left unchanged by the noise substitution |
| Regex.NoiseFreeAppend | src/utils.py:8 | a noise word holds no space, so none can run across one: noise-free text ending in a space, followed by noise-free text, is noise-free |
| Regex.NoiseSubClean | src/utils.py:8 | after the noise substitution none of the noise words occurs anywhere, since matches are consumed left to right and the spaces written cannot be part of a word |
| Regex.NoDigitsIdentity | src/utils.py:9 | text without digits is left unchanged by the `\d{4,}` substitution |
| Regex.TrailingDigits | src/utils.py:9 | a run of four or more digits after digit-free text becomes one space, and nothing else changes |
| Regex.LongDigitsFront | src/utils.py:9 | after the `\d{4,}` substitution the digit run at the front is the input's if it is shorter than four, and empty otherwise |
| Regex.LongDigitsGone | src/utils.py:9 | after the `\d{4,}` substitution no run of four or more digits is left anywhere |
| Regex.LettersIdentity | src/utils.py:10 | text of lower-case letters and whitespace is left unchanged by the `[^a-z\s]` substitution |
| Regex.NoSpaceIdentity | src/utils.py:11 | text without whitespace is left unchanged by the `\s+` substitution |
| Regex.SpacesThen | src/utils.py:11 | a whitespace run at the front becomes exactly one space |
| Regex.WordThenSpaces | src/utils.py:11 | a word followed by a whitespace run keeps the word and gets exactly one space for the run |
| Regex.WhitespaceSubSingleSpaced | src/utils.py:11 | `re.sub(r"\s+", " ", t)` leaves no two adjacent spaces |
| Utils.LowerChar | src/utils.py:7 | `lower` maps `A`-`Z` to the letter 32 code points later and leaves every other character alone |
| Utils.Lower | src/utils.py:7 | `text.lower()` keeps the length, replaces each upper-case letter by its lower-case letter and changes nothing else |
| Utils.TrimLeft | src/utils.py:11 | `lstrip` drops exactly the leading whitespace |
| Utils.TrimRight | src/utils.py:11 | `rstrip` drops exactly the trailing whitespace |
| Utils.Strip | src/utils.py:11 | `strip()` returns a slice of its input with no whitespace at either end, and everything cut off on either side is whitespace |
| Utils.CleanDescription | src/utils.py:4-12 | a non-string gives `""`; the output is never longer than the input |
| Utils.CleanShape | src/utils.py:7-11 | every output is clean text: only `a`-`z` and spaces (so no digit), no space at either end, no two adjacent spaces, no noise word anywhere |
| Utils.CleanFixed | src/utils.py:7-11 | clean text is normalised to itself, so the outputs are exactly the clean texts |
| Utils.CleanIdempotent | src/utils.py:4-12 | normalising a normalised description changes nothing |
| Utils.CleanLettersText | src/utils.py:7-11 | on lower-case letters and whitespace in which no noise word starts at any position, the description is the text with its whitespace collapsed and stripped |
| Utils.WordsAndId | src/utils.py:4-12 | two lower-case words and an id of four or more digits, separated by single spaces and lowercased with no noise word starting at any position, clean to the two words joined by one space |
| Utils.ZomatoExample | src/utils.py:4-12 | `"Zomato order 1234"` is normalised to `"zomato order"` |
| Utils.DinnerExample | src/utils.py:4-12 | `"Zomato dinner 5555"` is normalised to `"zomato dinner"`: a near miss of a noise word (`in` without `r`) is kept |
| Utils.PurseExample | src/utils.py:4-12 | `"Purse"` is normalised to `"pu e"`: the `rs` inside the word is a noise match |
| Utils.Missing | src/utils.py:15 | the comprehension keeps exactly the required names that are not columns, and is no longer than `required` |
| Utils.MissingAppend | src/utils.py:15 | the missing names keep the order of `required`: those missing from `a + b` are those missing from `a`, then those from `b` |
| Utils.EnsureColumns | src/utils.py:14-18 | fails exactly when some required name is not a column, with the missing list and the expected list; otherwise returns the same table |
| Utils.MissingAmountExample | src/utils.py:14-18 | a table with `date` and `description` checked against `date`, `amount`, `description` fails naming only `amount` |
| Train.TallyCounts | src/train.py:38 | counting one more row adds one to that label's count and nothing to any other |
| Train.TallyWellFormed | src/train.py:38 | counting a row keeps one entry per label, each counting at least one row |
| Train.ValueCounts | src/train.py:38-40 | `value_counts`: one entry per distinct label, each count that label's multiplicity and at least 1, counts summing to the number of rows |
| Train.EntriesAreDistinctLabels | src/train.py:39 | `n_classes`, the number of entries, is the number of distinct labels |
| Train.MinCount | src/train.py:46 | `class_counts.min()` is a count that no entry undercuts, and is absent (NaN) for an empty column |
| Train.HeldOut | src/train.py:43-46 | `int(n_samples * test_size)` is the floor of `n/4` or `n/2` |
| Train.Decide | src/train.py:42-46 | the fraction is a quarter exactly when `n/4 >= n_classes`; a stratified plan has a minimum count of at least 2 and `n_classes <= n/2`; raised and stratified implies `n/4 < n_classes <= n/2` |
| Train.SplitPolicy | src/train.py:38-46 | on the label column: `n_samples` rows and `n_classes` distinct labels; a quarter exactly when `n_samples/4 >= n_classes`; stratified exactly when there are rows, every label occurs at least twice and `floor(n_samples * fraction) >= n_classes` |
| Train.ImbalancedExample | src/train.py:38-46 | class sizes 1, 1 and 50 give 52 rows, 3 classes, a quarter, no stratification |
| Train.BalancedExample | src/train.py:38-46 | five classes of ten rows give 50 rows, 5 classes, a quarter, stratification |

## Left out

- app.py is Streamlit UI and is not part of this model: page setup, upload, the cached model loading with its file-existence check, charts, CSV export and the catch-all error report.
- `predict_categories` only wraps a foreign `model.predict`, so it is not modelled.
- `coerce_types` (pandas date and number parsing with `errors="coerce"`, and `astype(str)`) is not modelled.
- `load_data` (CSV reading and `dropna`) and `build_pipeline` (the TF-IDF vectoriser and linear SVM) are not modelled; the split decision takes the label column after `dropna` as its input.
- Everything in `main` after the split decision is not modelled: `train_test_split` with seed 42, fitting, prediction, accuracy and the report, printing, and saving the artifact.
- src/schema.py is not part of this model, so the required column list is a parameter of `EnsureColumns`.
- Text is ASCII. Python's Unicode `lower()` can change characters or lengths outside ASCII. Its `\d` and `\s` also match non-ASCII digits and spaces. None of this is modelled.
- Train.ValueCounts: entries are kept in first-appearance order, not pandas' descending-count order. The split decision does not depend on the order.
- Train.HeldOut: `n * 0.25` and `n * 0.5` are taken as exact. That holds for every row count below 2^53.
- Utils.EnsureColumns: the error carries the missing and expected lists, not the formatted `ValueError` message text.
