# InSAR helper scripts: state-vector merge, interferogram pairing, velocity KMZ

A Dafny model of the logic inside three scripts of an InSAR processing toolbox:

- `GAMMA/S1_cat_two.py` (module `S1Cat`, file `s1_cat_two.dfy`) concatenates two
  temporally adjacent Sentinel-1 bursts. It reads the orbit state vectors of both GAMMA
  `.par` files. It keeps the vectors of the second file that the first does not hold. It
  rewrites the second file's state-vector block: the new count, the shifted start time, and
  re-indexed fixed-width vector lines. It also models `read_gamma_par` and the date listing
  `get_date`.
- `GAMMA/diff_by_number_nocoreg.py` (module `IfgPairs`, file `ifg_pairs.dfy`) pairs each
  SLC date with the next `n` later dates (`gen_ifg_pairs`). It also models the filter that
  picks the dates out of a directory listing, and the split of a pair name back into its two
  dates.
- `KMZ/make_kmz_vel.py` (module `KmzVel`, file `kmz_vel.dfy`) exports point velocities to a
  KMZ. The model covers:
  - the symbol labels `"{lo}~{hi}"`;
  - the longitude/latitude filter;
  - the optional point-number column;
  - the input checks;
  - the classification of every velocity into a coloured bucket, with the style each
    placemark refers to.

Shared modules:

- `Text` (`text.dfy`) holds the Python string operations the scripts use:
  - `startswith`/`endswith`, slicing, `rjust`, `str(int)`;
  - `re.split(r'\s+', ...)`, `split(':')`, `strip`, `count`, `lower`;
  - `str` ordering and `sorted`.
- `Seqs` (`seqs.dfy`) holds list comprehensions as filters, concatenation, search and
  duplicate-freedom.
- `Wrappers` (`wrappers.dfy`) holds `Option` and `Result`.

Files are sequences of lines. Each line is what Python's file iteration yields, newline
included. A directory listing is a sequence of names. File-system queries are inputs:
`os.path.isfile` and `os.path.isdir` of the output directory. Python's `float()` on the
start-time text is an input as well. Every exception the modelled code can raise becomes an `Err` value.

The model follows the code as written, including where it behaves in less obvious ways:

- The merge offset is the last position in the second file of the first new vector, because
  the loop has no `break`. It is not the point where the two lists diverge. When the second
  file has no vectors, the offset is `1`.
- The bucket loop also has no `break`, so the last pass that assigns a label wins. A velocity
  equal to the last bound gets no bucket. The placemark then keeps the previous point's
  style, or fails with an unbound `id` on the first point. See Findings.
- The merge raises, instead of returning an empty file, in four cases, and the first one
  reached wins: a non-empty second file whose vectors all repeat those of the first
  (`IndexError`), a `time_of_first_state_vector` line without a value (`IndexError`), a
  start time `float()` rejects (`ValueError`), and a pair with a vector of fewer than three
  fields (`IndexError`).

## Model

| member | source | states |
|---|---|---|
| S1Cat.StateVectorsByFilter | GAMMA/S1_cat_two.py:36-43 | the vectors of a file are fields 1 to 3 of its `state_vector_position_`/`state_vector_velocity_` lines, one per line, in file order |
| S1Cat.StateVectorsAppend | GAMMA/S1_cat_two.py:37-43 | the vectors of two concatenated pieces of a file are those of the first piece, then those of the second |
| S1Cat.GetStateVector | GAMMA/S1_cat_two.py:30-44 | the two loops of get_state_vector return exactly the vectors of the file |
| S1Cat.GetNonrepeatedStateVector | GAMMA/S1_cat_two.py:47-59 | fails (IndexError) exactly when the second list is non-empty and all of its vectors occur in the first; otherwise returns the vectors of the second list missing from the first, in order, and the last position of the first of them (1 for an empty second list) |
| S1Cat.AppendedNew | GAMMA/S1_cat_two.py:51-55 | when the second list is the first plus a suffix that starts with a new vector, the new vectors are those of the suffix and start with its first vector; a suffix of only new vectors is returned whole |
| S1Cat.AppendedSuffix | GAMMA/S1_cat_two.py:56-59 | for such a suffix whose first vector occurs only once in it, the offset is the length of the shared prefix |
| S1Cat.NoSharedVectors | GAMMA/S1_cat_two.py:51-59 | lists sharing no vector: every vector of the second is new, and the offset is 0 when its first vector does not occur again |
| S1Cat.GetContent | GAMMA/S1_cat_two.py:74-85 | the header is the text of the lines before the first `number_of_state_vectors` line |
| S1Cat.HeaderStopsAtCount | GAMMA/S1_cat_two.py:78-85 | a file without a `number_of_state_vectors` line is copied whole |
| S1Cat.GetTimeOfFirstStateVector | GAMMA/S1_cat_two.py:62-71 | fails exactly when some `time_of_first_state_vector` line has no field 1; otherwise field 1 of the last such line, or "" when there is none |
| S1Cat.ReadGammaPar | GAMMA/S1_cat_two.py:120-127 | fails exactly when a line holding the keyword once has no colon; otherwise the stripped text between the first and second colon (`split(':')[1]`) of the last line holding the keyword once, or "" |
| S1Cat.ReadParLine | GAMMA/S1_cat_two.py:124-126 | one line replaces the value when it holds the keyword exactly once, failing without a colon, and keeps it otherwise |
| S1Cat.ColonKeywordNeverFails | GAMMA/S1_cat_two.py:183 | a keyword that contains a colon (`range_samples:`) never makes read_gamma_par fail |
| S1Cat.ValueIsStripped | GAMMA/S1_cat_two.py:125-126 | the value read holds no colon and has no whitespace at either end |
| S1Cat.PairCount | GAMMA/S1_cat_two.py:93 | `int(len(nr)/2)`: twice the count is at most the number of new vectors and more than it minus two |
| S1Cat.PairLines | GAMMA/S1_cat_two.py:113-117 | the vector block of `count` pairs has `2 count` lines |
| S1Cat.PairableAll | GAMMA/S1_cat_two.py:113-117 | the writing loop can index every pair exactly when each of the first `2 count` vectors has three fields |
| S1Cat.PairableFails | GAMMA/S1_cat_two.py:114-117 | one short vector among the pairs makes the whole block fail |
| S1Cat.WriteVectorLines | GAMMA/S1_cat_two.py:112-117 | succeeds exactly when every pair has three fields per vector and then returns the position/velocity lines of each pair, numbered from 1 |
| S1Cat.WrittenIsVectorLine | GAMMA/S1_cat_two.py:114-117 | every written vector line is one get_state_vector collects |
| S1Cat.VectorLineReadBack | GAMMA/S1_cat_two.py:114-117 | a written vector line splits back into the vector it was written from, when its fields fit their 15/16/16 columns |
| S1Cat.PairTextReadBack | GAMMA/S1_cat_two.py:114-117 | the two lines of a pair read back as its position and velocity vectors |
| S1Cat.PairLinesReadBack | GAMMA/S1_cat_two.py:112-117 | get_state_vector on the written block gives back exactly the paired new vectors, in order |
| S1Cat.CountLineReadBack | GAMMA/S1_cat_two.py:107-108 | the count line read through read_gamma_par's `key: value` rule gives the decimal digits of the count |
| S1Cat.GenNewPar | GAMMA/S1_cat_two.py:88-117 | fails with the first exception the script raises, each error exactly when the checks before it pass and its own condition holds: no new vector; then a `time_of_first_state_vector` line without field 1; then a start time `float()` rejects; then a short vector among the pairs; otherwise the header, the count line of `len(nr) // 2`, the start time plus `index / 2 * 10`, the interval line and the vector block |
| S1Cat.GetDate | GAMMA/S1_cat_two.py:130-136 | the distinct first-eight-character prefixes of the names holding eight digits and a hyphen, strictly ascending |
| Text.Slice | GAMMA/diff_by_number_nocoreg.py:278-279 | Python slicing `s[i:j]`: clamped to the length, element `k` is `s[i + k]` |
| Text.RJustPad | GAMMA/S1_cat_two.py:108 | `rjust` pads with spaces on the left up to the width and keeps the text |
| Text.SplitWs | GAMMA/S1_cat_two.py:42 | `re.split(r'\s+', s)`, with `\s` the ASCII whitespace (space, `\t` to `\r`, U+001C to U+001F): the pieces hold no whitespace, the first is empty exactly when `s` is empty or starts with whitespace, and the inner pieces are non-empty |
| Text.SplitWsKeepsText | GAMMA/S1_cat_two.py:42 | joining the pieces gives `s` without its whitespace |
| Text.SplitOnJoin | GAMMA/S1_cat_two.py:125 | `split(':')` pieces hold no colon and join back to the line |
| Text.StripParts | GAMMA/S1_cat_two.py:126 | `strip()` removes only whitespace, and only at the ends |
| Text.CountPositive | GAMMA/S1_cat_two.py:124 | `count` is positive exactly when the keyword occurs |
| Text.NatToString | GAMMA/S1_cat_two.py:108 | `str(n)`: decimal digits without a leading zero that parse back to `n` |
| Text.IntToStringInjective | KMZ/make_kmz_vel.py:73 | different integers print differently |
| Text.Lower | KMZ/make_kmz_vel.py:166 | `lower()` keeps the length and lowers each ASCII letter |
| Text.LexLessTransitive | GAMMA/diff_by_number_nocoreg.py:220 | `str` ordering is transitive |
| Text.LexLessTotal | GAMMA/diff_by_number_nocoreg.py:220 | any two different strings are ordered one way or the other |
| Text.Sort | GAMMA/diff_by_number_nocoreg.py:220 | `sorted` returns the same elements (as a multiset) in ascending order |
| Text.SortDistinct | GAMMA/S1_cat_two.py:136 | sorting a list without duplicates gives a strictly ascending list |
| Seqs.FilterAppend | GAMMA/diff_by_number_nocoreg.py:266 | a list-comprehension filter distributes over concatenation |
| Seqs.FilterDistinct | GAMMA/diff_by_number_nocoreg.py:266 | filtering a list without duplicates keeps it without duplicates |
| IfgPairs.SlcDates | GAMMA/diff_by_number_nocoreg.py:266 | a name is kept exactly when it is in the listing and is eight digits; kept names hold no `_` |
| IfgPairs.DateFiltersAgree | GAMMA/diff_by_number_nocoreg.py:266 | on names without a newline, the regular expression as written keeps exactly the eight-digit names |
| IfgPairs.NewlineDateBreaksSplit | GAMMA/diff_by_number_nocoreg.py:266 | the regular expression accepts `"20200101\n"`; for the listing `["20200101\n", "20200102"]`, sorting the accepted names and pairing them with one connection gives one name, and its `[9:17]` slice is not the second date |
| IfgPairs.SplitPairName | GAMMA/diff_by_number_nocoreg.py:278-279 | `i[0:8]` and `i[9:17]` give back both eight-character dates of a pair name |
| IfgPairs.PairNameInjective | GAMMA/diff_by_number_nocoreg.py:226 | the pair name determines both dates when the first holds no `_` |
| IfgPairs.AppendPartners | GAMMA/diff_by_number_nocoreg.py:225-229 | the inner loop appends the names of date `i` with each of the next `m` dates, and nothing when `m` is not positive |
| IfgPairs.GenIfgPairs | GAMMA/diff_by_number_nocoreg.py:219-230 | the names are those of the sorted dates, group after group, each date with its next `min(n, length - i - 1)` dates |
| IfgPairs.NamesAt | GAMMA/diff_by_number_nocoreg.py:223-229 | every name is `"{s[i]}_{s[j]}"` for its position pair `(i, j)` |
| IfgPairs.IndexPairMember | GAMMA/diff_by_number_nocoreg.py:223-229 | the pair `(i, j)` is produced exactly when `i < j < length` and `j - i <= n` |
| IfgPairs.IndexPairsAscending | GAMMA/diff_by_number_nocoreg.py:223-229 | the pairs come grouped by first date ascending, second date ascending within a group |
| IfgPairs.GroupOfDate | GAMMA/diff_by_number_nocoreg.py:224-229 | the pairs of date `i` are exactly `(i, i + 1) ... (i, i + min(n, length - i - 1))`, in that order |
| IfgPairs.NoPairsWhenNonPositive | GAMMA/diff_by_number_nocoreg.py:224-229 | a non-positive connection count gives no pairs |
| IfgPairs.AllPairsCount | GAMMA/diff_by_number_nocoreg.py:219-230 | with `n >= length - 1` there are `length (length - 1) / 2` pairs |
| IfgPairs.InterferogramsDistinct | GAMMA/diff_by_number_nocoreg.py:219-230 | distinct dates without `_` give distinct names |
| IfgPairs.InterferogramsOrdered | GAMMA/diff_by_number_nocoreg.py:219-230 | over strictly ascending dates the first date of a name is the earlier one, and names are ordered by first then second date |
| IfgPairs.SplitBack | GAMMA/diff_by_number_nocoreg.py:266-279 | every name built from the eight-digit names of a listing splits back at `[0:8]` and `[9:17]` into its two dates |
| IfgPairs.GenIfgPairsDistinct | GAMMA/diff_by_number_nocoreg.py:265-269 | the names built from a listing are all different, so every pair gets its own directory |
| KmzVel.GenSymbolName | KMZ/make_kmz_vel.py:69-74 | one label per bucket (none for fewer than two bounds), label `i` being `"{bounds[i]}~{bounds[i+1]}"` |
| KmzVel.LabelInjective | KMZ/make_kmz_vel.py:73 | different bound pairs give different labels |
| KmzVel.SymbolNamesDistinct | KMZ/make_kmz_vel.py:69-74 | with strictly increasing bounds no two buckets share a label, so every style id is unique |
| KmzVel.FilterData | KMZ/make_kmz_vel.py:113-119 | one mask entry per point; inside a valid window a point is kept exactly when it is strictly inside |
| KmzVel.KeepCoordinateReversed | KMZ/make_kmz_vel.py:115-116 | with the ends of a range reversed, the test keeps the closed range between them |
| KmzVel.Numbered | KMZ/make_kmz_vel.py:125-127 | the `'f'` flag puts the row number in front of every row and keeps the rest of the row |
| KmzVel.KeptPositions | KMZ/make_kmz_vel.py:132 | the positions a boolean index selects are the true positions of the mask, each once, in increasing order |
| KmzVel.SelectPositions | KMZ/make_kmz_vel.py:132 | `data[index, :]`: row `j` of the result is the row at the `j`-th true position of the mask, so the masked rows come each once and in order |
| KmzVel.SelectMembers | KMZ/make_kmz_vel.py:132 | `data[index, :]` keeps every masked row and nothing else |
| KmzVel.SelectFilter | KMZ/make_kmz_vel.py:131-132 | selecting with the mask of a predicate is the list-comprehension filter by that predicate |
| KmzVel.FilterRows | KMZ/make_kmz_vel.py:129-132 | the filtered rows keep the table's width, are rows of the table, and lie strictly inside a valid window |
| KmzVel.LoadData | KMZ/make_kmz_vel.py:122-134 | succeeds exactly when the table has at least two rows, is rectangular, and has column 2 after numbering (two columns with `'f'`, three without), failing otherwise with a format error; on success the width is the table's plus one for `'f'`, and the rows are rectangular, rows of the (numbered) table, all strictly inside a valid window |
| KmzVel.LoadDataRows | KMZ/make_kmz_vel.py:122-134 | inside a valid window the loaded rows are exactly the (numbered) rows whose point is strictly inside, in file order |
| KmzVel.LoadDataKeepsInterior | KMZ/make_kmz_vel.py:129-132 | every row of the file whose point is strictly inside a valid window is kept |
| KmzVel.KmzName | KMZ/make_kmz_vel.py:173-174 | the output name ends in `.kmz`; it is unchanged when it already did, otherwise extended by `.kmz` |
| KmzVel.KmzNameIdempotent | KMZ/make_kmz_vel.py:173-174 | adding the suffix twice is adding it once |
| KmzVel.CheckInps | KMZ/make_kmz_vel.py:161-198 | succeeds exactly when the file exists, the output directory exists, the scale is positive, the lowered flag is `t` or `f` and the window is non-empty both ways; otherwise the error of the first failing check, in the script's order, with exit status 1 exactly for the window checks (`sys.exit(1)`) and 0 for the others (`sys.exit()`) |
| KmzVel.IdAfterIsLastFired | KMZ/make_kmz_vel.py:239-247 | after the bucket loop `id` is the label of the last pass that assigned one, or unchanged when none did |
| KmzVel.ClassifyVelocity | KMZ/make_kmz_vel.py:239-247 | the bucket loop for one velocity leaves `id` as the passes define it |
| KmzVel.Classification | KMZ/make_kmz_vel.py:239-247 | with strictly increasing bounds: below the range the first bucket, in `[bounds[i], bounds[i+1])` bucket `i`, above the range the last bucket, and at the last bound none |
| KmzVel.BucketUnique | KMZ/make_kmz_vel.py:242 | at most one half-open bucket holds a velocity |
| KmzVel.ClassifiedMonotone | KMZ/make_kmz_vel.py:239-247 | a larger velocity never gets a lower bucket |
| KmzVel.ClassifyPoints | KMZ/make_kmz_vel.py:238-254 | the placemark loop gives every point its style, carrying `id` from point to point, and fails when a point reads `id` before it was ever assigned |
| KmzVel.Styles | KMZ/make_kmz_vel.py:238-251 | the placemark loop gives one style per point and fails only with the unbound `id` |
| KmzVel.StylesFail | KMZ/make_kmz_vel.py:238-251 | the loop fails exactly when the first point gets no bucket |
| KmzVel.StylesOnceBound | KMZ/make_kmz_vel.py:238-251 | once `id` is bound the loop never fails |
| KmzVel.StyleOfPoint | KMZ/make_kmz_vel.py:238-251 | a point with a bucket gets that bucket's label; a point without one gets the previous point's style |
| KmzVel.StylesAreSymbols | KMZ/make_kmz_vel.py:229-251 | every style a placemark refers to is the label of a bucket, so an icon style with that id exists |
| KmzVel.TopBoundUnbound | KMZ/make_kmz_vel.py:238-251 | with bounds `[0, 10]`, a first point of velocity 10 gets no bucket, and the loop fails |
| KmzVel.LastFiredClosedIs | KMZ/make_kmz_vel.py:246 | with the last test closed (`>=`), the classification is unchanged below the last bound and gives the top bucket at it |
| KmzVel.ClassifiedClosedTotal | KMZ/make_kmz_vel.py:239-247 | with the last test closed, every velocity gets a bucket: the first below the range, bucket `i` in `[bounds[i], bounds[i+1])`, the last at or above the last bound |
| KmzVel.WriteKmz | KMZ/make_kmz_vel.py:201-254 | exits on a colours/bounds length mismatch, then on a table that fails to load or has fewer than four columns, both with exit status 0 (`sys.exit()`); past them it succeeds exactly when the placemark loop does and otherwise fails with the unbound `id`, the one failure with exit status 1; on success one placemark per loaded row carrying its number, coordinates, velocity and the style of its point |

## Left out

- File reading and writing, `os.listdir`, `os.path.abspath` and `os.mkdir`. `os.path.isfile` and
  `os.path.isdir` become inputs. Files are sequences of lines.
- `cat_slc` and `main` of `S1_cat_two.py`, and the shell commands they run (`cp`,
  `SLC_cat_S1_TOPS`, `rasSLC`). They are calls into external programs.
- The rest of `diff_by_number_nocoreg.py`: argument parsing, the DEM lookup and the
  DInSAR shell scripts it writes. These are file-system bookkeeping and script text.
- Matplotlib symbols and colour bar, the KML document text, the description HTML and the
  zip packaging in `make_kmz_vel.py`. These are rendering and archiving.
- The text parsing of `np.loadtxt`: the model starts from the numbers it reads as rows.
- S1Cat.GenNewPar: the text of the new start time (`str(float) + '00000'`) is left out
  because Python's float formatting is not modelled. The time is kept as a real number
  computed exactly, without floating-point rounding.
- KmzVel.LoadData, KmzVel.FilterData and KmzVel.CheckInps: velocities, coordinates, the
  scale and the window are exact reals, and NaN is not modelled. In the script a NaN scale
  or window bound passes every check. In filter_data a NaN lower bound on an axis keeps
  exactly the points at or above the upper bound, a NaN upper bound keeps exactly the points
  at or below the lower bound, two NaN bounds keep every point, and a NaN coordinate is
  always kept on its axis. The model has no such value.
- The bounds are Python integers (`seq<int>`), as the list at KMZ/make_kmz_vel.py:314 holds,
  and their labels are `str(int)`. Float bounds, labelled `"-60.0"`, are not modelled.
- Text.SplitWs, Text.StripParts and Text.Lower: `\s`, `strip()`, `\d` and `lower()` are
  modelled for ASCII only. Non-ASCII whitespace such as U+0085 and U+00A0, non-ASCII digits
  and non-ASCII letters are left out.
- IfgPairs.InterferogramsDistinct: this needs dates without `_`. Otherwise `"a_b"`/`"c"` and
  `"a"`/`"b_c"` give the same name. The dates of a listing are digits, so
  IfgPairs.GenIfgPairsDistinct holds without this condition.
- IfgPairs.SplitBack: stated for the eight-digit names (IfgPairs.SlcDates), not for the
  regular expression as written (see Findings).
- KmzVel.WriteKmz: models the placemark loop of the script as written, with the top bound
  excluded. The corrected classification is KmzVel.ClassifiedClosed.

## Findings

| source | as written | input that shows it | evidently intended | confidence | as-written member | corrected member |
|---|---|---|---|---|---|---|
| GAMMA/diff_by_number_nocoreg.py:266 | `re.match(r'^\d{8}$', i)`: `$` also matches before a final newline | a directory named `"20200101\n"` is taken as a date, and its pair names split at `[9:17]` into `"_2020010"` | only names of exactly eight digits are dates | medium, not executed | IfgPairs.NewlineDateBreaksSplit | IfgPairs.SplitBack |
| KMZ/make_kmz_vel.py:246 | `elif vel > bounds[-1]` leaves a velocity equal to the last bound in no bucket | bounds `[0, 10]` and a first point of velocity `10`: `id` is read unbound (UnboundLocalError); on a later point it takes the previous point's style | the last bucket is closed at the top (`>=`), so every velocity gets a bucket | high, not executed | KmzVel.TopBoundUnbound | KmzVel.ClassifiedClosedTotal |
