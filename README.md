# mri-acronyms, modelled in Dafny

mri-acronyms is a curated glossary of MRI pulse sequence and scanner parameter
names. For each concept it lists the acronym that Siemens, GE, Philips, Canon and
Hitachi use. Around those data tables sit four small pieces of logic, and this
project models each one and proves what it does:

- **The keyword matcher** (`find_closest_match`, `match_acronym`).
  - It scores a keyword, ignoring case, against every acronym of every concept in
    a two-level lookup table (category, then concept).
  - It keeps one candidate per concept and stops a category early on a perfect
    score.
  - It picks the first candidate with the highest confidence and accepts it only
    above a cutoff. The accepted candidate's full record comes from `get_model`.
- **The category registry** (`PulseSequenceCategory`).
  - A closed enumeration of nine categories, each with its ordinal and its
    printed name.
  - Each category's table of concepts.
  - `get_model`, a lookup of a category and then a model, both ignoring case.
- **Sanitising, deduplication and validation** (`validate_models.py`,
  `pydantic_models.py`).
  - The removable symbol class, `sanitize`, `dedup_acronyms`, and the two
    duplicate detectors run over the curated tables.
  - The field validators of `MriParameterModel` and `MriSequenceModel`.
- **Report rows** (`build_data_records`): one row of eight cells per concept.

The similarity score is rapidfuzz's normalised Indel similarity, defined
concretely: `200 * LCS(a, b) / (|a| + |b|)` over the reals, and 100 when both
strings are empty.

The lookup table that `match_acronym` scans is an input of type `Table`. The nine
curated tables are an input of type `Dataset`. The module `Fixtures` copies four
real entries and proves concrete scenarios on them.

Modules and files:

| module | file | models |
|---|---|---|
| `Wrappers` | wrappers.dfy | `Option` and `Result` |
| `Text` | text.dfy | ASCII lower-casing, Python whitespace, `str.join`, string order, sorted insertion |
| `Constants` | constants.dfy | util/constants.py |
| `Models` | pydantic_models.dfy | models/pydantic_models.py |
| `Categories` | pulse_sequence_category.dfy | models/pulse_sequence_category.py |
| `Validation` | validate_models.dfy | models/validate_models.py |
| `Search` | search_by_keyword.dfy | search_by_keyword.py |
| `Report` | create_report.dfy | create_report.py |
| `Fixtures` | fixtures.dfy | entries of pulse_sequences/ and scenarios on them |

Where the code and its documentation disagree, the model follows the code:

- A keyword of length 0 or 1 does not give "no match". No candidate is collected,
  and `max([])` raises. The model returns `Failure(NoCandidates)`.
- The docstring of `dedup_acronyms` says its output is lower-cased. The code
  never lower-cases, so `["ASPIR", "SPAIR"]` stays as it is.
- `check_name` uses the pattern `^[a-z0-9_]*$` with `re.match`. In Python, `$`
  also matches just before a final line feed. So a valid name followed by one
  `"\n"` is accepted too, and the model accepts it as well.
- `sanitize` deletes tab and line feed, because they are in the symbol class. It
  does this before whitespace is collapsed, so a tab between two words joins them.
- The docstring of `dedup_acronyms` promises no duplicates and no null values.
  The code removes duplicates and `""` before it sanitises, not after. Two
  entries that differ only by a symbol, such as `"Trigger;"` and `"Trigger"`,
  both come out as `"Trigger"`. An entry made only of symbols comes out as `""`.
  `check_for_duplicate_acronyms` then reports such a duplicate under the one
  `"CATEGORY.model"` label, although its docstring speaks of another category.

## Model

| member | source | states |
|---|---|---|
| Search.Ratio | src/mri_acronyms/search_by_keyword.py:110 | The similarity of two strings lies between 0 and 100. |
| Search.RatioPerfect | src/mri_acronyms/search_by_keyword.py:110 | The similarity is 100 exactly when the two strings are equal. |
| Search.RatioSymmetric | src/mri_acronyms/search_by_keyword.py:110 | The similarity does not depend on the order of its two operands. |
| Search.Lcs | src/mri_acronyms/search_by_keyword.py:110 | The longest common subsequence is no longer than either string. |
| Search.LcsSelf | src/mri_acronyms/search_by_keyword.py:110 | A string's longest common subsequence with itself is the whole string. |
| Search.LcsSymmetric | src/mri_acronyms/search_by_keyword.py:110 | The longest common subsequence is symmetric. |
| Search.LcsAppend | src/mri_acronyms/search_by_keyword.py:110 | A string and the same string with one more character share all of the first string. |
| Search.Score | src/mri_acronyms/search_by_keyword.py:110 | The score of a keyword against an acronym, both lower-cased, lies between 0 and 100. |
| Search.Scores | src/mri_acronyms/search_by_keyword.py:108-111 | There is one score per acronym. |
| Search.ClosestMatch | src/mri_acronyms/search_by_keyword.py:102-114 | It fails, as `max([])` raises, exactly when the acronym list is empty. Otherwise it returns the acronym at the first index of the highest score, with that score. No acronym scores higher, and the score lies between 0 and 100. |
| Search.FindClosestMatch | src/mri_acronyms/search_by_keyword.py:102-114 | The loop that appends one score per acronym and takes the first maximum computes `ClosestMatch`. |
| Search.Maximum | src/mri_acronyms/search_by_keyword.py:113 | `max` of a non-empty list is an element of it, and no element exceeds it. |
| Search.FirstIndex | src/mri_acronyms/search_by_keyword.py:113 | `list.index` gives a position holding the value, and no earlier position holds it. |
| Search.FirstIndexOfMaximum | src/mri_acronyms/search_by_keyword.py:113 | `index(max(...))` is the first position of a maximum. |
| Search.FirstMaxUnique | src/mri_acronyms/search_by_keyword.py:113 | There is only one first position of a maximum. |
| Search.ClosestMatchIgnoresCase | src/mri_acronyms/search_by_keyword.py:110 | Two keywords equal after lower-casing get the same closest match. |
| Search.CategoryScan | src/mri_acronyms/search_by_keyword.py:134-146 | The candidates of one category all have confidences between 0 and 100. |
| Search.TableScan | src/mri_acronyms/search_by_keyword.py:133-146 | The candidates of the whole table all have confidences between 0 and 100. |
| Search.ScanCategory | src/mri_acronyms/search_by_keyword.py:134-146 | The inner loop, with its early `break` on a confidence of 100, computes `CategoryScan` with the stop enabled. |
| Search.MatchAcronym | src/mri_acronyms/search_by_keyword.py:117-159 | The nested loops, the first-maximum choice and the cutoff test compute `MatchResult`. |
| Search.MatchResult | src/mri_acronyms/search_by_keyword.py:132-149 | A keyword of length 0 or 1 leaves the candidate list empty, and the result is the `max([])` failure. |
| Search.SelectedIndex | src/mri_acronyms/search_by_keyword.py:148-150 | The chosen candidate is at the first position of the highest confidence. |
| Search.Candidates | src/mri_acronyms/search_by_keyword.py:132-146 | A keyword of one character or none collects no candidate. Every collected confidence is between 0 and 100. |
| Search.Selected | src/mri_acronyms/search_by_keyword.py:148-150 | The picked candidate is one of the candidates. |
| Search.SelectedIsBest | src/mri_acronyms/search_by_keyword.py:148-150 | No candidate has a higher confidence than the chosen one, and every earlier candidate has a strictly lower one. |
| Search.SelectModel | src/mri_acronyms/search_by_keyword.py:148-159 | It fails exactly when there is no candidate. It returns a model only when the best confidence is strictly above the cutoff, and then the model is `get_model` of the chosen candidate's category and name. |
| Search.CategoryScanFinal | src/mri_acronyms/search_by_keyword.py:144-146 | After a failure or a perfect score, the rest of the category changes nothing. |
| Search.TableScanFails | src/mri_acronyms/search_by_keyword.py:133-135 | A failure in some category is the failure of the whole scan. |
| Search.CategoryScanAgree | src/mri_acronyms/search_by_keyword.py:144-146 | With non-empty acronym lists, the scan with the `break` and the scan without it agree up to the first perfect score. |
| Search.TableScanAgree | src/mri_acronyms/search_by_keyword.py:133-146 | The same agreement holds over the whole table: the `break` only drops candidates after a perfect score in the same category. |
| Search.SelectedAgree | src/mri_acronyms/search_by_keyword.py:148-150 | Two agreeing candidate lists have the same first best candidate, because no confidence exceeds 100. |
| Search.BreakIsOptimisation | src/mri_acronyms/search_by_keyword.py:144-149 | On a table with non-empty acronym lists, `match_acronym` returns the same as it would without the `break`. |
| Search.CategoryScanSound | src/mri_acronyms/search_by_keyword.py:134-143 | Every candidate of a category is labelled with that category and one of its concepts. Its acronym is one of that concept's acronyms, and its confidence is that acronym's score. |
| Search.TableScanSound | src/mri_acronyms/search_by_keyword.py:133-143 | Every candidate comes from a concept of some category of the table: one of its acronyms, with that acronym's score. |
| Search.CategoryScanCovers | src/mri_acronyms/search_by_keyword.py:134-143 | When every concept of the category has at least one acronym: without the `break`, some candidate of the category scores at least as high as any of its acronyms. |
| Search.TableScanSplit | src/mri_acronyms/search_by_keyword.py:133-134 | On a table whose every concept has at least one acronym, scanning the table is scanning all but the last category, followed by the last category. |
| Search.TableScanCovers | src/mri_acronyms/search_by_keyword.py:133-143 | On a table whose every concept has at least one acronym: without the `break`, some candidate scores at least as high as any acronym of the table. |
| Search.LastCategoryCovers | src/mri_acronyms/search_by_keyword.py:133-143 | On a table whose every concept has at least one acronym: without the `break`, some candidate scores at least as high as any acronym of the last category. |
| Search.MatchAcronymSpec | src/mri_acronyms/search_by_keyword.py:117-159 | On a table whose every concept has at least one acronym, and for a keyword of two or more characters, the result fails exactly when the table has no concept. Otherwise the chosen candidate comes from the table, and it is accepted exactly when some acronym of the table scores strictly above the cutoff. When accepted, the result is `get_model` of its category and name; otherwise it is `None`. |
| Search.FromTableHasConcept | src/mri_acronyms/search_by_keyword.py:133-143 | A candidate can only come from a table with a concept. |
| Search.CategoryScanIgnoresCase | src/mri_acronyms/search_by_keyword.py:110-146 | Keywords equal after lower-casing give the same candidates in a category. |
| Search.TableScanIgnoresCase | src/mri_acronyms/search_by_keyword.py:110-146 | Keywords equal after lower-casing give the same candidates in the table. |
| Search.MatchAcronymIgnoresCase | src/mri_acronyms/search_by_keyword.py:110-159 | Keywords equal after lower-casing get the same result. |
| Search.AcceptedAboveCutoff | src/mri_acronyms/search_by_keyword.py:148-155 | On a table whose every concept has at least one acronym: if some acronym scores strictly above the cutoff, a model lookup happens, and the chosen candidate scores at least as high. |
| Search.ScoreOfSameLower | src/mri_acronyms/search_by_keyword.py:110 | A keyword equal to an acronym after lower-casing scores 100. |
| Search.ScoreOfOneMore | src/mri_acronyms/search_by_keyword.py:110 | An acronym of two or more characters, with one character appended, scores at least 80 against the acronym. |
| Search.RatioAppend | src/mri_acronyms/search_by_keyword.py:110 | A string of two or more characters and the same string with one more character have similarity at least 80. |
| Search.ExactAcronymAccepted | src/mri_acronyms/search_by_keyword.py:117-155 | On a table whose every concept has at least one acronym, a keyword equal, ignoring case, to an acronym of the table is accepted at the default cutoff of 70, with confidence 100. |
| Search.OneMoreCharacterAccepted | src/mri_acronyms/search_by_keyword.py:117-155 | On a table whose every concept has at least one acronym, an acronym of two or more characters with one character appended is still accepted at the default cutoff, with confidence at least 80. |
| Search.UniqueAcronymPicked | src/mri_acronyms/search_by_keyword.py:133-155 | On a table whose every concept has at least one acronym: when only one acronym matches the keyword ignoring case, and it belongs to one concept, that concept is chosen and its record is looked up. |
| Search.Confidences | src/mri_acronyms/search_by_keyword.py:148 | There is one score per candidate. |
| Categories.Name | src/mri_acronyms/models/pulse_sequence_category.py:26-34 | Each member's `.name`, as declared. |
| Categories.OrderIsDeclarationPosition | src/mri_acronyms/models/pulse_sequence_category.py:22-43 | There are nine categories, each listed once, and `order` numbers them 1 to 9 in declaration order. |
| Categories.OrderInjective | src/mri_acronyms/models/pulse_sequence_category.py:40-43 | Two categories have the same `order` only when they are the same category. |
| Categories.Order | src/mri_acronyms/models/pulse_sequence_category.py:40-43 | `order` is between 1 and 9. |
| Categories.Str | src/mri_acronyms/models/pulse_sequence_category.py:36-38 | `str(category)` is as long as the category's name; `StrIsLowerName` states its content. |
| Categories.Acronyms | src/mri_acronyms/models/pulse_sequence_category.py:45-66 | Each category's table is its own field of the dataset. |
| Categories.GetModelIn | src/mri_acronyms/models/pulse_sequence_category.py:71-76 | A found model matches the name ignoring case, and lies in the table of a category whose name matches. |
| Categories.StrIsLowerName | src/mri_acronyms/models/pulse_sequence_category.py:36-38 | `str(category)` is the category's name lower-cased. |
| Categories.LowerNameInjective | src/mri_acronyms/models/pulse_sequence_category.py:71-72 | No two categories have names that are equal ignoring case, so a category name matches at most one category. |
| Categories.CategoryEntries | src/mri_acronyms/models/pulse_sequence_category.py:45-66 | Each category contributes one (category, model) pair per model of its table, in declaration order. |
| Categories.EntriesOfSnoc | src/mri_acronyms/models/pulse_sequence_category.py:45-66 | Scanning one more category appends exactly that category's pairs. |
| Categories.EntriesCount | src/mri_acronyms/models/pulse_sequence_category.py:45-66 | The scan of all categories yields as many pairs as there are models in the nine tables. |
| Categories.EntriesOfMember | src/mri_acronyms/models/pulse_sequence_category.py:45-66 | A pair is scanned exactly when its category is scanned and its model is in that category's table. |
| Categories.EntriesMember | src/mri_acronyms/models/pulse_sequence_category.py:45-66 | Over all nine categories, a pair is scanned exactly when the model is in that category's table. |
| Categories.HasName | src/mri_acronyms/models/pulse_sequence_category.py:74 | A model has the name when the two are equal after lower-casing. |
| Categories.FindModel | src/mri_acronyms/models/pulse_sequence_category.py:73-75 | The inner search returns nothing exactly when no model of the table has the name, ignoring case. Otherwise it returns the first model that does. |
| Categories.GetModelInNoHit | src/mri_acronyms/models/pulse_sequence_category.py:71-76 | The outer search returns `None` when no scanned category both matches the name and holds the model. |
| Categories.GetModelInOnly | src/mri_acronyms/models/pulse_sequence_category.py:71-75 | When only one scanned category matches the name, the outer search is the search of that category's table. |
| Categories.GetModelInOfCategory | src/mri_acronyms/models/pulse_sequence_category.py:71-75 | Over all nine categories, once a category matches, the search is the search of its table. |
| Categories.GetModelInSpec | src/mri_acronyms/models/pulse_sequence_category.py:68-76 | The outer search returns `None` exactly when no matching category holds a model of that name. Otherwise it returns the first such model in the matching category's table. |
| Categories.GetModel | src/mri_acronyms/models/pulse_sequence_category.py:68-76 | Both names are compared ignoring case. The result is `None` exactly when no matching category holds a model of that name. Otherwise it is the first such model, in the table's declaration order. |
| Categories.GetModelOfCategory | src/mri_acronyms/models/pulse_sequence_category.py:71-75 | Once the category matches, `get_model` is the search of that category's table alone. |
| Categories.GetModelSound | src/mri_acronyms/models/pulse_sequence_category.py:71-75 | A returned model belongs to a category matching the name, and its own name matches ignoring case. |
| Models.NamePatternFromIff | src/mri_acronyms/models/pydantic_models.py:40 | The name pattern, run from any position, accepts exactly the texts that end there or one line feed later. |
| Models.CheckName | src/mri_acronyms/models/pydantic_models.py:37-42 | A name is accepted, unchanged, exactly when it is made of `[a-z0-9_]`, with or without one final line feed. The empty name is accepted. Otherwise the error names the value. |
| Models.CheckDescription | src/mri_acronyms/models/pydantic_models.py:44-51 | A description is accepted, unchanged, exactly when it neither starts nor ends with a space. A leading space gives the leading-whitespace error. The trailing-whitespace error is given exactly when the description is non-empty, does not start with a space and ends with one. |
| Models.DistinctIffSetSize | src/mri_acronyms/models/pydantic_models.py:60 | `len(set(elements)) == len(elements)` holds exactly when no element repeats. |
| Models.SetSizeAtMostLength | src/mri_acronyms/models/pydantic_models.py:60 | A list never has more distinct elements than it has elements. |
| Models.CheckVendor | src/mri_acronyms/models/pydantic_models.py:53-62 | A vendor list is accepted, unchanged, exactly when it holds no empty string, no null and no repeat. An empty string is the error reported first. The null error is given exactly when there is no empty string but a null. The repeat error is given exactly when there is neither an empty string nor a null but some element repeats. |
| Models.Raw | src/mri_acronyms/models/pydantic_models.py:53-62 | A list of strings is checked as the same list with every element present. |
| Models.VendorListValidIff | src/mri_acronyms/models/pydantic_models.py:53-62 | A vendor list of strings is valid exactly when it has no empty string and no repeat. |
| Models.CheckImageWeighting | src/mri_acronyms/models/pydantic_models.py:74-86 | An image weighting is accepted, unchanged, exactly when it is a key of the image weighting vocabulary. |
| Models.CheckClassification | src/mri_acronyms/models/pydantic_models.py:88-98 | A classification is accepted, unchanged, exactly when it is a key of the classification vocabulary. |
| Models.CheckAcquisitionModes | src/mri_acronyms/models/pydantic_models.py:100-111 | A list is accepted, unchanged, exactly when every element is one of the five modes. The empty list and repeats pass. Otherwise the error names the first invalid element. |
| Models.IsValidParameter | src/mri_acronyms/models/pydantic_models.py:20-62 | Every `MriParameterModel` validator accepts the record. |
| Models.IsValidSequence | src/mri_acronyms/models/pydantic_models.py:66-111 | The inherited validators and the three `MriSequenceModel` validators all accept the record. |
| Models.SequenceInheritsParameterValidators | src/mri_acronyms/models/pydantic_models.py:66-72 | A valid `MriSequenceModel` also passes every `MriParameterModel` validator. |
| Models.NewParameter | src/mri_acronyms/models/pydantic_models.py:20-35 | The five vendor lists default to empty, and the defaults never make a record invalid. |
| Validation.RemoveFirst | src/mri_acronyms/models/validate_models.py:26 | `list.remove` of a present character gives a list one shorter; `RemoveFirstPrefix` states which element goes. |
| Validation.IsRemovable | src/mri_acronyms/models/validate_models.py:23-27 | The character class of the compiled pattern: ASCII punctuation other than `.-|/*`, plus tab and line feed. `RemovableIff` ties it to the list the loop builds. |
| Validation.WithoutMember | src/mri_acronyms/models/validate_models.py:15-27 | A character survives the removals exactly when it was in the list and was not removed. |
| Validation.WithoutConcat | src/mri_acronyms/models/validate_models.py:15-27 | Removing characters from a concatenation removes them from each part. |
| Validation.RemoveFirstPrefix | src/mri_acronyms/models/validate_models.py:24-25 | `list.remove` deletes the first occurrence and keeps the rest in order. |
| Validation.RemoveFirstWithout | src/mri_acronyms/models/validate_models.py:24-25 | Removing a character that occurs once is removing it from the filtered list. |
| Validation.WithoutAround | src/mri_acronyms/models/validate_models.py:15-27 | Removing characters around one character keeps it exactly when it is not removed. |
| Validation.PunctuationIncreasing | src/mri_acronyms/models/validate_models.py:23 | Python's punctuation string is in increasing code order, so no character repeats. |
| Validation.ValidSymbolsOccurOnce | src/mri_acronyms/models/validate_models.py:23-25 | Each kept symbol occurs exactly once in the candidate list, and not earlier among the kept symbols. |
| Validation.RemoveStep | src/mri_acronyms/models/validate_models.py:24-25 | Each pass of the removal loop deletes the one occurrence of the next kept symbol. |
| Validation.RemoveOnlyOccurrence | src/mri_acronyms/models/validate_models.py:24-25 | Removing a character's only occurrence extends the filtered list by one removal. |
| Validation.WithoutNothing | src/mri_acronyms/models/validate_models.py:23 | Removing nothing leaves the list unchanged. |
| Validation.ReCompileSymbolPattern | src/mri_acronyms/models/validate_models.py:15-27 | The class is punctuation plus tab and line feed, minus the five kept symbols. It has exactly that many characters, and it holds exactly the removable characters. |
| Validation.RemovableIff | src/mri_acronyms/models/validate_models.py:15-27 | A character is removable exactly when it is ASCII punctuation other than `.-\|/*`, or a tab or line feed. |
| Validation.DropSymbols | src/mri_acronyms/models/validate_models.py:45 | The symbol filter never lengthens the text. |
| Validation.DropSpaces | src/mri_acronyms/models/validate_models.py:47 | Stripping the left end drops exactly the leading whitespace. |
| Validation.StripRight | src/mri_acronyms/models/validate_models.py:47 | Stripping the right end drops exactly the trailing whitespace. |
| Validation.Collapse | src/mri_acronyms/models/validate_models.py:46 | Collapsing whitespace runs never lengthens the text, keeps it empty or non-empty, and keeps whether it starts with whitespace. |
| Validation.NonSpaceConcat | src/mri_acronyms/models/validate_models.py:45-47 | The non-whitespace characters of a concatenation are those of each part. |
| Validation.NonSpaceDropSpaces | src/mri_acronyms/models/validate_models.py:47 | Stripping the left end keeps every non-whitespace character. |
| Validation.NonSpaceStripRight | src/mri_acronyms/models/validate_models.py:47 | Stripping the right end keeps every non-whitespace character. |
| Validation.NonSpaceCollapse | src/mri_acronyms/models/validate_models.py:46 | Collapsing whitespace keeps every non-whitespace character. |
| Validation.NonSpaceDropSymbols | src/mri_acronyms/models/validate_models.py:45 | After the symbol filter, the non-whitespace characters are exactly the kept ones. |
| Validation.SanitizeKeeps | src/mri_acronyms/models/validate_models.py:33-48 | The non-whitespace characters of the output are exactly those input characters that are neither removable nor whitespace, in their original order. |
| Validation.CollapseShape | src/mri_acronyms/models/validate_models.py:46 | After collapsing, every whitespace character is a single space, and no two are adjacent. |
| Validation.ShapeCons | src/mri_acronyms/models/validate_models.py:46 | Putting a character before a collapsed text keeps it collapsed, unless that makes two spaces meet. |
| Validation.SliceShape | src/mri_acronyms/models/validate_models.py:47 | A slice of a collapsed text is collapsed. |
| Validation.StripIsSlice | src/mri_acronyms/models/validate_models.py:47 | `strip` returns a slice of its input, with no whitespace at either end. |
| Validation.StripTrimmed | src/mri_acronyms/models/validate_models.py:47 | `strip` leaves no whitespace at either end. |
| Validation.StripShape | src/mri_acronyms/models/validate_models.py:46-47 | Stripping a collapsed text keeps it collapsed. |
| Validation.SanitizeShape | src/mri_acronyms/models/validate_models.py:33-48 | The output has only single spaces as whitespace, never two in a row, and none at either end. |
| Validation.KeptHasNoSymbols | src/mri_acronyms/models/validate_models.py:45 | The kept characters include no removable one. |
| Validation.NonSpaceMember | src/mri_acronyms/models/validate_models.py:45-47 | A non-whitespace character of a text is among its non-whitespace characters. |
| Validation.SanitizeNoSymbols | src/mri_acronyms/models/validate_models.py:33-48 | The output contains no removable character. |
| Validation.SymbolsOnlyInNonSpace | src/mri_acronyms/models/validate_models.py:45-47 | A text whose whitespace is spaces and whose other characters include no removable one contains no removable character. |
| Validation.DropSymbolsIdentity | src/mri_acronyms/models/validate_models.py:45 | The symbol filter leaves a text with no removable character unchanged. |
| Validation.CollapseIdentity | src/mri_acronyms/models/validate_models.py:46 | Collapsing leaves an already collapsed text unchanged. |
| Validation.StripIdentity | src/mri_acronyms/models/validate_models.py:47 | `strip` leaves an already stripped text unchanged. |
| Validation.CleanFixedPoint | src/mri_acronyms/models/validate_models.py:33-48 | A text with no removable character, only single spaces and no space at either end is its own sanitised form. |
| Validation.SanitizeIdempotent | src/mri_acronyms/models/validate_models.py:33-48 | Sanitising twice is sanitising once. |
| Validation.SanitizedPassesDescription | src/mri_acronyms/models/validate_models.py:33-48 | Every sanitised text passes `check_description`. |
| Validation.AlnumKept | src/mri_acronyms/models/validate_models.py:45 | Letters and digits are neither removable nor whitespace. |
| Validation.DropSymbolsConcat | src/mri_acronyms/models/validate_models.py:45 | The symbol filter works on each part of a concatenation. |
| Validation.DropSymbolsWord | src/mri_acronyms/models/validate_models.py:45 | The symbol filter keeps a word of letters and digits. |
| Validation.DropSymbolsAll | src/mri_acronyms/models/validate_models.py:45 | The symbol filter deletes a text made only of removable characters. |
| Validation.DropSpacesRun | src/mri_acronyms/models/validate_models.py:47 | Stripping the left end drops a leading run of whitespace. |
| Validation.CollapseWord | src/mri_acronyms/models/validate_models.py:46 | Collapsing keeps a leading word with no whitespace. |
| Validation.CollapseKeep | src/mri_acronyms/models/validate_models.py:46 | Collapsing keeps a leading non-whitespace character. |
| Validation.CollapseGap | src/mri_acronyms/models/validate_models.py:46 | A run of whitespace before a word collapses to one space. |
| Validation.WordsClean | src/mri_acronyms/models/validate_models.py:33-48 | Two words of letters and digits joined by one space are their own sanitised form. |
| Validation.SanitizeWord | src/mri_acronyms/models/validate_models.py:33-48 | A word of letters and digits is its own sanitised form. |
| Validation.DropSymbolsChar | src/mri_acronyms/models/validate_models.py:45 | The symbol filter deletes a single character exactly when it is removable. |
| Validation.SanitizeTrailingSymbol | src/mri_acronyms/models/validate_models.py:33-48 | A word followed by a removable symbol sanitises to the word, as `"Trigger;"` gives `"Trigger"`. |
| Validation.SanitizeLoneSymbol | src/mri_acronyms/models/validate_models.py:33-48 | A removable symbol standing alone between two spaces disappears with one of the spaces, as `"Phase & Frequency Shift"` gives `"Phase Frequency Shift"`. |
| Validation.DropLoneSymbol | src/mri_acronyms/models/validate_models.py:45 | The symbol filter deletes a lone symbol and keeps both spaces around it. |
| Validation.DropSpacedSymbol | src/mri_acronyms/models/validate_models.py:45 | A removable symbol between two spaces leaves the two spaces. |
| Validation.CollapseLoneGap | src/mri_acronyms/models/validate_models.py:46 | Two spaces between a word and a clean text collapse to one. |
| Validation.AlnumNoSpace | src/mri_acronyms/models/validate_models.py:46 | A word of letters and digits has no whitespace. |
| Validation.CollapseDoubleSpace | src/mri_acronyms/models/validate_models.py:46 | Two spaces before a clean text collapse to one. |
| Validation.CountAdd | src/mri_acronyms/models/validate_models.py:75 | Adding a word to the set adds one to the count of its sanitised form and changes no other count. |
| Validation.SortedImage | src/mri_acronyms/models/validate_models.py:75 | `sorted(f(w) for w in words)` is sorted, has one element per word, and holds each value as often as words map to it. |
| Validation.DedupAcronyms | src/mri_acronyms/models/validate_models.py:51-75 | The result is sorted and holds each value exactly as often as the distinct non-empty vendor entries sanitise to it. It equals the function `Dedup`, which does not depend on the order the set is visited in. |
| Validation.SortImage | src/mri_acronyms/models/validate_models.py:75 | Inserting each word's image into a sorted list, in any order of the set, gives the sorted image of the set. |
| Validation.CountsAfterInsert | src/mri_acronyms/models/validate_models.py:75 | Inserting one more word's image keeps the counts right for the enlarged set. |
| Validation.OneArrangement | src/mri_acronyms/models/validate_models.py:75 | A sorted list with the right count of each value is the sorted image itself. |
| Validation.ImageElements | src/mri_acronyms/models/validate_models.py:75 | Every element of the sorted image is the image of some word of the set. |
| Validation.ImageOfFixedPoints | src/mri_acronyms/models/validate_models.py:75 | When every word is its own image, the sorted image holds exactly the words. |
| Validation.DedupElements | src/mri_acronyms/models/validate_models.py:57-75 | There is one output element per distinct non-empty vendor entry, and each element is the sanitised form of such an entry. |
| Validation.DedupOfClean | src/mri_acronyms/models/validate_models.py:57-75 | When every entry is already clean, the output is the distinct entries, sorted. |
| Validation.SortedTwo | src/mri_acronyms/models/validate_models.py:75 | A sorted list of two distinct values is the two values in order. |
| Validation.SortedOne | src/mri_acronyms/models/validate_models.py:75 | A list holding one value once is that value alone. |
| Validation.SortedImageOfOne | src/mri_acronyms/models/validate_models.py:75 | The sorted image of one word that is its own image is that word. |
| Validation.SortedImageOfTwo | src/mri_acronyms/models/validate_models.py:75 | The sorted image of two words that are their own images is the two words in order. |
| Validation.DedupOfOne | src/mri_acronyms/models/validate_models.py:57-75 | When all vendors list the same single word, the output is that word alone. |
| Validation.DedupOfSanitisedOne | src/mri_acronyms/models/validate_models.py:64-75 | A model whose one vendor entry sanitises to some text gives that text alone, even the empty string. |
| Validation.DedupOfSanitisedPair | src/mri_acronyms/models/validate_models.py:64-75 | Two distinct vendor entries that sanitise to the same text give that text twice. |
| Validation.DedupOfTrailingSymbol | src/mri_acronyms/models/validate_models.py:64-75 | A word listed both bare and with a trailing removable symbol comes out twice. |
| Validation.SortedImageOfSingle | src/mri_acronyms/models/validate_models.py:75 | The sorted image of one word is its image alone. |
| Validation.SortedImageOfMerged | src/mri_acronyms/models/validate_models.py:75 | Two distinct words with the same image give that image twice. |
| Validation.Sanitize | src/mri_acronyms/models/validate_models.py:33-48 | `sanitize` never lengthens its text. |
| Validation.Strip | src/mri_acronyms/models/validate_models.py:47 | `str.strip()` never lengthens its text. |
| Validation.VendorWords | src/mri_acronyms/models/validate_models.py:64-73 | The set of the five vendor lists' entries, with `""` removed. |
| Validation.Dedup | src/mri_acronyms/models/validate_models.py:51-75 | The output is sorted and has one element per distinct non-empty vendor entry. |
| Validation.Record | src/mri_acronyms/models/validate_models.py:83-86 | One dictionary insertion: a new key gets `[v]`, a known key has `v` appended. `RecordFacts` states its effect. |
| Validation.RecordFacts | src/mri_acronyms/models/validate_models.py:102-105 | One insertion adds the key, appends the value to that key's list, and leaves every other key unchanged. |
| Validation.EntryLabel | src/mri_acronyms/models/validate_models.py:101 | The label is the category's name, a dot, then the model's name. |
| Validation.IndexOf | src/mri_acronyms/models/validate_models.py:84-87 | Every key of the dictionary has a non-empty list. |
| Validation.Flagged | src/mri_acronyms/models/validate_models.py:87-89 | Only keys of the dictionary are reported. |
| Validation.IndexCategoryNames | src/mri_acronyms/models/validate_models.py:82-86 | The inner loop over one category's models extends the name dictionary by that category's (name, category) pairs, in order. |
| Validation.IndexCategoryAcronyms | src/mri_acronyms/models/validate_models.py:99-105 | The inner loop over one category's models extends the acronym dictionary by that category's pairs, in order. |
| Validation.RecordAcronyms | src/mri_acronyms/models/validate_models.py:100-105 | The innermost loop over one model's deduplicated acronyms records each under the model's label, in order. |
| Validation.DedupOfTwo | src/mri_acronyms/models/validate_models.py:57-75 | When the vendors list two distinct words, the output is the two words in order, with their case kept. |
| Validation.IndexOfSnoc | src/mri_acronyms/models/validate_models.py:84-87 | Recording one more (key, value) pair appends the value to that key's list. |
| Validation.IndexOfOccurrences | src/mri_acronyms/models/validate_models.py:84-87 | A key is in the dictionary exactly when it occurs in the pairs, and its list holds its values in order. |
| Validation.OccurrencesTwice | src/mri_acronyms/models/validate_models.py:84-89 | A key has values exactly when it occurs in some pair, and more than one value exactly when it occurs in two pairs. |
| Validation.FlaggedIff | src/mri_acronyms/models/validate_models.py:88-89 | A key is reported exactly when it occurs in two different pairs. |
| Validation.NameCategoryPairs | src/mri_acronyms/models/validate_models.py:84-87 | One (model name, category name) pair is recorded per scanned model, in scan order. |
| Validation.NameIndexStep | src/mri_acronyms/models/validate_models.py:86-87 | Scanning one more model records its category under its name. |
| Validation.CategoryEntriesPrefix | src/mri_acronyms/models/validate_models.py:85 | Scanning one more model of a category appends that model's pair. |
| Validation.NameCategoryPairsSnoc | src/mri_acronyms/models/validate_models.py:84-87 | One more scanned model appends one (name, category) pair. |
| Validation.NameIndexFacts | src/mri_acronyms/models/validate_models.py:78-89 | A name is in the dictionary exactly when some scanned model has it, and is reported exactly when two scanned models have it. |
| Validation.CheckForDuplicateCategories | src/mri_acronyms/models/validate_models.py:78-89 | The dictionary maps each model name to its categories in scan order. The reported names are exactly those held by two scanned models, whether in two categories or in one. The tables are not changed. |
| Validation.IndexModelNames | src/mri_acronyms/models/validate_models.py:84-87 | The loop over categories builds the dictionary of model names over those categories. |
| Validation.ModelAcronymPairs | src/mri_acronyms/models/validate_models.py:100-104 | One model contributes one (acronym, `"CATEGORY.model"`) pair per deduplicated acronym, in order. |
| Validation.AcronymPairsSnoc | src/mri_acronyms/models/validate_models.py:98-104 | Scanning one more model appends its pairs. |
| Validation.ModelAcronymPairsMember | src/mri_acronyms/models/validate_models.py:100-104 | A pair comes from a model exactly when the acronym is among its acronyms and the label is that model's label. |
| Validation.AcronymPairsSource | src/mri_acronyms/models/validate_models.py:98-104 | Every recorded pair comes from some scanned model that lists the acronym. |
| Validation.AcronymPairsComplete | src/mri_acronyms/models/validate_models.py:98-104 | Every acronym of every scanned model is recorded under that model's label. |
| Validation.AcronymPairsMember | src/mri_acronyms/models/validate_models.py:98-104 | A pair is recorded exactly when some scanned model lists the acronym and the label is that model's. |
| Validation.AcronymIndexStep | src/mri_acronyms/models/validate_models.py:102-104 | Recording one more acronym of a model appends the model's label to that acronym's list. |
| Validation.CheckForDuplicateAcronyms | src/mri_acronyms/models/validate_models.py:92-108 | The dictionary maps each deduplicated acronym to its `"CATEGORY.model"` labels in scan order. The reported acronyms are exactly those recorded twice. |
| Validation.IndexAcronyms | src/mri_acronyms/models/validate_models.py:98-104 | The loop over categories builds the acronym dictionary over those categories. |
| Validation.Tagged | src/mri_acronyms/models/pulse_sequence_category.py:45-66 | Tagging a list of models with a category pairs each model with the category, in order. |
| Validation.AcronymPairsTagged | src/mri_acronyms/models/validate_models.py:98-104 | The pairs of a category's tagged models extend the pairs scanned before them. |
| Validation.AcronymPairsCategory | src/mri_acronyms/models/validate_models.py:98-104 | Scanning one more category appends the pairs of its models, in order. |
| Validation.CheckForDuplicates | src/mri_acronyms/models/validate_models.py:111-114 | The names and acronyms reported are exactly those of the two detectors. |
| Report.RowsOf | src/mri_acronyms/create_report.py:52-65 | There is one row per scanned (category, model) pair. |
| Report.Row | src/mri_acronyms/create_report.py:55-64 | A row has eight cells, starting with the category's order and ending the fixed part with the model name. |
| Report.RowFields | src/mri_acronyms/create_report.py:55-64 | A row has eight cells, as many as the headers. They are the category's order between 1 and 9, `str(category)`, the model name, and then the Siemens, GE, Philips, Canon and Hitachi lists, each joined with `"; "`. For each of the five vendors, an empty list gives an empty cell and a single acronym gives itself. |
| Report.RowsOfSnoc | src/mri_acronyms/create_report.py:55-64 | Scanning one more model appends its row. |
| Report.BuildDataRecords | src/mri_acronyms/create_report.py:40-66 | The rows are those of every model in enumeration order, then declaration order. There are as many rows as models, each with as many cells as headers. The duplicate checks run first, and the rows do not depend on them. |
| Report.AppendCategoryRows | src/mri_acronyms/create_report.py:53-65 | The inner loop appends one row per model of the category, in declaration order. |
| Report.EntriesOfInOrder | src/mri_acronyms/create_report.py:52-53 | The scanned models come category by category, in enumeration order. |
| Report.RowsInEnumerationOrder | src/mri_acronyms/create_report.py:52-65 | The group numbers of the rows never decrease. |
| Report.RowsCoverModels | src/mri_acronyms/create_report.py:52-65 | Every model of every category has its row, and every row is the row of a model in its category's table. |
| Text.LowerChar | src/mri_acronyms/search_by_keyword.py:110 | A lower-cased character is never an upper-case ASCII letter, and only upper-case letters change. |
| Text.Lower | src/mri_acronyms/search_by_keyword.py:110 | `str.lower`, one character at a time. |
| Text.IsSpace | src/mri_acronyms/models/validate_models.py:46-47 | The ASCII characters that `\s` matches and `strip()` removes. |
| Text.LowerConcat | src/mri_acronyms/search_by_keyword.py:110 | Lower-casing works on each part of a concatenation. |
| Text.LowerIdempotent | src/mri_acronyms/search_by_keyword.py:110 | Lower-casing twice is lower-casing once. |
| Text.LowerAgrees | src/mri_acronyms/search_by_keyword.py:110 | Strings equal after lower-casing agree position by position after lower-casing. |
| Text.Join | src/mri_acronyms/create_report.py:59-63 | Joining no strings gives `""`, and joining one string gives that string. |
| Text.JoinLength | src/mri_acronyms/create_report.py:59-63 | A joined string is as long as its parts plus one separator between each two. |
| Text.JoinSnoc | src/mri_acronyms/create_report.py:59-63 | Joining one more string appends the separator and the string. |
| Text.LexLe | src/mri_acronyms/models/validate_models.py:75 | Python's `<=` on strings, the order `sorted` uses: by code point, with a prefix first. The lemmas below prove it is a total order. |
| Text.Sorted | src/mri_acronyms/models/validate_models.py:75 | What `sorted` returns: every element is at most every later one. |
| Text.LexLeReflexive | src/mri_acronyms/models/validate_models.py:75 | String order is reflexive. |
| Text.LexLeTotal | src/mri_acronyms/models/validate_models.py:75 | Any two strings are ordered one way or the other. |
| Text.LexLeAntisymmetric | src/mri_acronyms/models/validate_models.py:75 | Two strings ordered both ways are equal. |
| Text.LexLeTransitive | src/mri_acronyms/models/validate_models.py:75 | String order is transitive. |
| Text.InsertSorted | src/mri_acronyms/models/validate_models.py:75 | Inserting into a sorted list keeps it sorted and adds exactly the new element. |
| Text.InsertBehindHead | src/mri_acronyms/models/validate_models.py:75 | Inserting behind a smaller head keeps the list sorted and adds exactly the new element. |
| Text.SortedSameHead | src/mri_acronyms/models/validate_models.py:75 | Two sorted lists with the same elements start with the same element. |
| Text.TailMultiset | src/mri_acronyms/models/validate_models.py:75 | Dropping the head removes one copy of it. |
| Text.SortedUnique | src/mri_acronyms/models/validate_models.py:75 | Two sorted lists with the same elements are equal, so `sorted` has one answer. |
| Fixtures.ValidatorsRefuse | src/mri_acronyms/models/pydantic_models.py:37-62 | A description with a space at either end, a name with a capital letter, a repeated vendor entry and a null vendor entry are refused. The empty name is accepted. |
| Fixtures.LutWellFormed | src/mri_acronyms/pulse_sequences/spin_echo.py:34-46 | The lookup table transcribed from the fixture entries has non-empty acronym lists. |
| Fixtures.InLut | src/mri_acronyms/pulse_sequences/spin_echo.py:34-46 | Every acronym of the fixture lookup table is one of the fourteen listed. |
| Fixtures.OnlyHaste | src/mri_acronyms/pulse_sequences/spin_echo.py:34-46 | Only `"HASTE"` lower-cases to `"haste"` in the fixture table, and it names one concept. |
| Fixtures.OnlyTrueFisp | src/mri_acronyms/pulse_sequences/gradient_echo.py:62-74 | Only `"TrueFISP"` lower-cases to `"truefisp"` in the fixture table, and it names one concept. |
| Fixtures.LookUpSingleShotTse | src/mri_acronyms/models/pulse_sequence_category.py:68-76 | `get_model("SPIN_ECHO_SEQUENCES", "single_shot_tse")` returns the `single_shot_tse` record. |
| Fixtures.LookUpBalancedSsfp | src/mri_acronyms/models/pulse_sequence_category.py:68-76 | `get_model` of the gradient echo category and the balanced SSFP name returns its record. |
| Fixtures.HasteScenario | src/mri_acronyms/search_by_keyword.py:117-159 | `match_acronym("HASTE")` returns the `single_shot_tse` record. |
| Fixtures.TrueFispScenario | src/mri_acronyms/search_by_keyword.py:117-159 | `match_acronym("TrueFISP")` returns the balanced SSFP record. |
| Fixtures.OneCharacterScenario | src/mri_acronyms/search_by_keyword.py:132-149 | A one-character keyword fails with no candidates, whatever the cutoff. |
| Fixtures.FrequencyShiftClean | src/mri_acronyms/models/validate_models.py:33-48 | `"Frequency Shift"` is already clean. |
| Fixtures.AmpersandSplit | src/mri_acronyms/pulse_sequences/scanner_parameters.py:266 | The text with the ampersand is a word, a lone symbol between spaces, and a clean text. |
| Fixtures.SanitizeAmpersand | src/mri_acronyms/models/validate_models.py:33-48 | `sanitize("Phase & Frequency Shift")` is `"Phase Frequency Shift"`. |
| Fixtures.SanitizeSemicolon | src/mri_acronyms/models/validate_models.py:33-48 | `sanitize("Trigger;")` is `"Trigger"`. |
| Fixtures.DedupSpinEcho | src/mri_acronyms/pulse_sequences/spin_echo.py:8-20 | Five vendors listing `"SE"` give `["SE"]`. |
| Fixtures.SpinEchoWords | src/mri_acronyms/pulse_sequences/spin_echo.py:15-19 | The spin echo record's vendor entries are the single word `"SE"`. |
| Fixtures.FatsatWords | src/mri_acronyms/pulse_sequences/scanner_parameters.py:149-158 | The SPAIR record's vendor entries are `"ASPIR"` and `"SPAIR"`. |
| Fixtures.AspirBeforeSpair | src/mri_acronyms/models/validate_models.py:75 | `"ASPIR"` sorts before `"SPAIR"`. |
| Fixtures.TriggerTwiceWords | src/mri_acronyms/models/validate_models.py:64-70 | The record's vendor entries are `"Trigger;"` and `"Trigger"`. |
| Fixtures.DedupKeepsSanitisedDuplicate | src/mri_acronyms/models/validate_models.py:54-75 | `dedup_acronyms` of that record is `["Trigger", "Trigger"]`, which holds a duplicate. |
| Fixtures.SanitisedDuplicateFlagged | src/mri_acronyms/models/validate_models.py:92-108 | That duplicate is recorded twice under the record's one label and reported. |
| Fixtures.SanitizeSymbolOnly | src/mri_acronyms/models/validate_models.py:33-48 | `sanitize("&")` is `""`. |
| Fixtures.SymbolOnlyWords | src/mri_acronyms/models/validate_models.py:64-70 | The record's one vendor entry is `"&"`. |
| Fixtures.DedupOfSymbolOnly | src/mri_acronyms/models/validate_models.py:54-75 | `dedup_acronyms` of that record is `[""]`: the empty string comes back after it was dropped. |
| Fixtures.DedupFatsat | src/mri_acronyms/pulse_sequences/scanner_parameters.py:149-158 | The SPAIR record gives `["ASPIR", "SPAIR"]`: sorted, and not lower-cased. |

## Left out

- Logging and console output: the `print` and `log.error` calls of `match_acronym` and the log lines of the duplicate checks. These are output only. The duplicate checks return the set of reported keys instead, and the order of their log lines is not modelled.
- `get_readable_size`, `save_report` and `check_and_purge`: file system access and pandas CSV writing.
- The random sample generators of search_by_keyword.py (lines 22-99) and the English word list they draw from: they are nondeterministic.
- rapidfuzz is not part of this model. Its ratio is defined directly as the Indel similarity, and `round(..., 4)` is not modelled: scores are exact reals.
- Python's Unicode semantics of `lower()`, `\s` and `strip()`: the model lower-cases ASCII letters only, and whitespace is the ASCII characters for which `str.isspace()` holds.
- Pydantic machinery: `HttpUrl` parsing of `url`, `str_strip_whitespace`, and whether defaults are validated. The validators are plain functions on field values.
- The curated tables of pulse_sequences/: they are data, taken as the input `Dataset`. A few entries are copied in `Fixtures`.
- The module that builds the lookup table is not part of this model. The table is an input of `match_acronym`.
- Search.MatchAcronymSpec, and likewise CategoryScanCovers, TableScanSplit, TableScanCovers, LastCategoryCovers, AcceptedAboveCutoff, ExactAcronymAccepted, OneMoreCharacterAccepted and UniqueAcronymPicked: these are stated only for tables whose every concept has at least one acronym. On another table `find_closest_match` raises on the empty list, and the model returns that failure instead.
- Search.BreakIsOptimisation: assumes every concept of the table has at least one acronym. With an empty acronym list, `find_closest_match` raises, and the scans with and without the `break` may raise at different points.
- Validation.DedupAcronyms: Python iterates the set in an unspecified order. The model visits it in an arbitrary order, and proves the result is the same for every order.
- The constants of util/constants.py are copied as values. Their only logic is the symbol class, which is modelled.
