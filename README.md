# Per-type cutoffs and per-type neighbour normalisation (nequip)

This project models two pieces of the nequip interatomic-potential framework in Dafny and proves properties of them.

**The per-type-pair cutoff pipeline.** A sparse configuration of cutoff radii ("partial dict") gives, for a source type, either one radius for every target type or a radius per target type. It is expanded into a full type-by-type dictionary, with `r_max` filling every pair it does not mention. That dictionary becomes an N×N tensor whose row is the source type, and the tensor becomes the metadata string saved with a model: the row-major entries as decimal text, separated by single spaces. Reading the string back with the same type order rebuilds the dictionary. A validating combinator refuses any radius above `r_max`. The five functions are modelled in module `CutoffSpec`:

- `cutoff_partialdict_to_fulldict` is `PartialDictToFullDict`.
- `cutoff_fulldict_to_tensor` is `FullDictToTensor`.
- `cutoff_tensor_to_str` is `TensorToStr`.
- `cutoff_str_to_fulldict` is `StrToFullDict`.
- `cutoff_partialdict_to_tensor` is `PartialDictToTensor`.

Their implementation file, nequip/nn/embedding/utils.py, is not part of this model. Their behaviour is taken from what tests/unit/nn/test_embedding_utils.py asserts about them.

**Supporting modules.**

- `FloatText` gives the decimal text of a cutoff value. It models the finite non-negative floats whose shortest text has no exponent, as a mantissa and a count of fractional digits in the canonical shape of Python's float text ("5.0", "4.25"). `Format` and `Parse` are concrete, and `Parse(Format(d)) == Some(d)` is proved.
- `Tokens` models Python's `" ".join` and the no-argument `str.split()`, with Python's whitespace set.
- `CutoffExamples` restates each test scenario as a lemma.

**Key results.**

- The whole pipeline round-trips: `PipelineRoundTrip`.
- Token `i*N + j` of a loaded string is the radius from `names[i]` to `names[j]`.
- The bounds check fails exactly when a value written in the configuration for a pair of known types is above `r_max`. The `r_max` defaults never trip it.

**Edge cases.**

- With no type names, the tensor is empty and its string is `""`. Reading `""` gives "no cutoffs saved" (`None`), not an empty dictionary. The round trip therefore holds for at least one type name, and `NoTypesRoundTrip` states the zero case.
- Dictionary comprehensions over the type names keep the last value for a repeated key, as Python's do. No precondition on distinct names is needed except in the layout lemma, which indexes by position.

**AvgNumNeighborsNorm** (nequip/nn/norm.py), in module `Norm`. The average number of neighbours is given as one float or as a dict keyed by type name. The constructor turns it into a list ordered by the type names and checks that the dict covers exactly the type names. It then builds a one-column table of factors 1/sqrt(N) and sets the shortcut flag for a single type. `forward` returns that table when the shortcut is set. Otherwise it looks up, for each of the first `num_local_nodes` atoms, the row of its type.

- The class has immutable fields set by the constructor.
- `Create` models `__init__` raising: a wrong key set, an unrecognised format such as an int, and an average of zero or below, where `1.0 / sqrt(N)` raises.
- The factor 1/sqrt(N) is kept symbolic (`InverseSqrt(N)`).
- `Prefix` models Python's `[:num_local_nodes]`, including negative and oversized bounds.
- `Embedding` models the table lookup, which fails for a type index outside the table.

## Model

| member | source | states |
|---|---|---|
| CutoffSpec.PartialDictToFullDict | tests/unit/nn/test_embedding_utils.py:59-76 | keys at both levels are exactly the type names; an absent source gets r_max for every target; a uniform entry gives its value to every target; a per-target entry gives listed targets their value and unlisted targets r_max |
| CutoffSpec.FullDictToTensor | tests/unit/nn/test_embedding_utils.py:79-97 | succeeds iff every ordered pair of type names is present, failing with MissingKey otherwise; the result is an N×N matrix with entry [i][j] = full[names[i]][names[j]] (row = source type) |
| CutoffSpec.TensorToStr | tests/unit/nn/test_embedding_utils.py:100-113 | the string is empty exactly when the tensor has no entries, the case where loading treats it as "no cutoffs saved"; TensorToStrWords gives its words as the row-major entries' texts and ScalarToStr the scalar case |
| CutoffSpec.TensorToStrWords | tests/unit/nn/test_embedding_utils.py:100-106 | splitting the metadata string on whitespace gives the formatted entries in row-major order |
| CutoffSpec.ScalarToStr | tests/unit/nn/test_embedding_utils.py:109-113 | a scalar tensor's string is the text of its one value and contains no whitespace |
| CutoffSpec.StrToFullDict | tests/unit/nn/test_embedding_utils.py:116-128 | an absent or empty string gives None; a word count other than N² fails with CountMismatch(N², count); with N² words it succeeds iff every word parses; the only failures are CountMismatch and InvalidNumber, whose token is a word of the input that does not parse; success on a non-empty string gives a dictionary keyed at both levels by the type names |
| CutoffSpec.ParseAll | tests/unit/nn/test_embedding_utils.py:26 | succeeds iff every token parses, and then value i is the parse of token i; a failure names a token of the input that does not parse |
| CutoffSpec.ParseAllFirstError | tests/unit/nn/test_embedding_utils.py:26 | the token a failed read reports is the first token that does not parse |
| CutoffSpec.ParseAllFormatAll | tests/unit/nn/test_embedding_utils.py:25-29 | reading back the formatted values gives the values |
| CutoffSpec.Reshape | tests/unit/nn/test_embedding_utils.py:26 | cuts N·n values into N rows of n whose row-major flattening is the input |
| CutoffSpec.ReshapeFlatten | tests/unit/nn/test_embedding_utils.py:24-29 | reshaping the flattening of equal-length rows gives the rows back |
| CutoffSpec.FlattenAt | tests/unit/nn/test_embedding_utils.py:93-97 | row i, column j of equal-length rows sits at position i·n + j of the flattening |
| CutoffSpec.Zip | tests/unit/nn/test_embedding_utils.py:26-29 | the dictionary built from keys and values has exactly the keys, and each key maps to the value at its last occurrence |
| CutoffSpec.ZipOfMap | tests/unit/nn/test_embedding_utils.py:26-29 | zipping a dictionary's keys with their values rebuilds the dictionary |
| CutoffSpec.GridToFullDict | tests/unit/nn/test_embedding_utils.py:26 | the dictionary rebuilt from an N×N grid is keyed at both levels by the type names |
| CutoffSpec.GridToFullDictOfTensor | tests/unit/nn/test_embedding_utils.py:24-29 | the grid of a covering full dictionary rebuilds that dictionary |
| CutoffSpec.CoversHasAllPairs | tests/unit/nn/test_embedding_utils.py:176-193 | a dictionary keyed at both levels by the type names has every ordered pair |
| CutoffSpec.FullDictRoundTrip | tests/unit/nn/test_embedding_utils.py:24-29 | for at least one type name, writing a covering full dictionary to a string and reading it back gives the same dictionary |
| CutoffSpec.PipelineRoundTrip | tests/unit/nn/test_embedding_utils.py:38-56 | for at least one type name, expanding any configuration, tensorising, writing and reading back gives the expanded dictionary |
| CutoffSpec.NoTypesRoundTrip | tests/unit/nn/test_embedding_utils.py:116-119 | with no type names the tensor is empty, its string is "", and reading it gives None |
| CutoffSpec.StrToFullDictLayout | tests/unit/nn/test_embedding_utils.py:93-106 | with distinct type names, token i·N + j of a loaded string parses to the loaded radius from names[i] to names[j] |
| CutoffSpec.PartialDictToTensor | tests/unit/nn/test_embedding_utils.py:196-205 | succeeds iff every resolved radius for a pair of type names is at most r_max, and then equals the tensor of the expanded dictionary; otherwise fails with ExceedsRMax |
| CutoffSpec.WithinRMaxPairs | tests/unit/nn/test_embedding_utils.py:196-205 | every tensor entry is at most r_max iff every pair's radius in the full dictionary is |
| CutoffSpec.BoundsCheckBlamesExplicitValues | tests/unit/nn/test_embedding_utils.py:196-205 | the bounds check fails iff some radius written in the configuration for a pair of type names is above r_max |
| FloatText.Format | tests/unit/nn/test_embedding_utils.py:100-106 | the text of a value is made of digits and points only, at least three characters |
| FloatText.FormatShape | tests/unit/nn/test_embedding_utils.py:100-106 | the text of a value is digits, exactly one point, digits, with at least one digit on each side; the whole part starts with '0' only when it is "0", and the fraction ends in '0' only when it is "0" (the shortest float text, e.g. "5.0", "0.25") |
| FloatText.Parse | tests/unit/nn/test_embedding_utils.py:25-29 | a token it accepts has only digits before and after its point (ParseAcceptsExactly gives exactly which tokens it accepts) |
| FloatText.ParseValue | tests/unit/nn/test_embedding_utils.py:25-29 | what a token is read as has the value its digits denote, the integer digits plus the fractional digits over the matching power of ten |
| FloatText.ParseFormat | tests/unit/nn/test_embedding_utils.py:25-29 | parsing a value's text gives the value back |
| FloatText.ParseAcceptsExactly | tests/unit/nn/test_embedding_utils.py:26 | a token parses iff it is digits with at most one point and at least one digit |
| FloatText.NormalizeValue | tests/unit/nn/test_embedding_utils.py:26 | putting a parsed decimal in canonical form keeps its value |
| FloatText.CanonicalUnique | tests/unit/nn/test_embedding_utils.py:29 | two canonical decimals with the same value are equal, so equal floats compare equal after a round trip |
| Tokens.Words | tests/unit/nn/test_embedding_utils.py:122-128 | every word of a split string is non-empty and free of whitespace |
| Tokens.Join | tests/unit/nn/test_embedding_utils.py:100-106 | joining no tokens gives ""; joining n ≥ 1 tokens gives a string as long as all the tokens together plus n - 1 one-character separators (WordsJoin gives the words back) |
| Tokens.WordsJoin | tests/unit/nn/test_embedding_utils.py:100-106 | splitting words joined by single spaces gives the words back |
| CutoffExamples.TwoTypes | tests/unit/nn/test_embedding_utils.py:14-35 | the two-type configuration expands to C→C 5.0, C→O 5.0, O→C 5.5, O→O 6.0 and round-trips |
| CutoffExamples.ThreeTypes | tests/unit/nn/test_embedding_utils.py:38-56 | the three-type mixed float/dict configuration with r_max 5.0 is tensorised, written and read back to the same dictionary |
| CutoffExamples.MissingSourcesDefault | tests/unit/nn/test_embedding_utils.py:59-76 | the dictionary is keyed by exactly H, C, O at both levels; H gets 2.0 for every target, C and O get r_max 5.0 for every target |
| CutoffExamples.MissingTargetsDefault | tests/unit/nn/test_embedding_utils.py:147-173 | H→C keeps 2.0, H→H and H→O get r_max 4.0; the fully listed C row is 3.0, 3.5, 3.7; the uniform O row is 3.9 throughout |
| CutoffExamples.SingleType | tests/unit/nn/test_embedding_utils.py:131-144 | for one type, a float and a one-entry dict both give {"O": {"O": 2.0}} |
| CutoffExamples.ExtraTypesIgnored | tests/unit/nn/test_embedding_utils.py:176-193 | an "N" target in C's entry leaves keys exactly {H, C, O} at both levels |
| CutoffExamples.TensorLayout | tests/unit/nn/test_embedding_utils.py:79-97 | the two-type dictionary gives [[5.0, 4.5], [4.5, 6.0]] |
| CutoffExamples.StrFormat | tests/unit/nn/test_embedding_utils.py:100-106 | [[5.0, 4.5], [4.5, 6.0]] is written "5.0 4.5 4.5 6.0" |
| CutoffExamples.ScalarFormat | tests/unit/nn/test_embedding_utils.py:109-113 | the scalar 5.0 is written "5.0" |
| CutoffExamples.EmptyStrIsNone | tests/unit/nn/test_embedding_utils.py:116-119 | "" and an absent string give None |
| CutoffExamples.WrongCount | tests/unit/nn/test_embedding_utils.py:122-128 | "5.0 4.5 6.0" for two types fails with CountMismatch(4, 3) |
| CutoffExamples.ExceedsRMaxFails | tests/unit/nn/test_embedding_utils.py:196-205 | a C→C radius 5.0 with r_max 4.0 is refused |
| Norm.AvgNumNeighborsList | nequip/nn/norm.py:24-36 | succeeds iff the spec is a float or a dict whose key set is the set of type names; the list has one entry per type name; a float is repeated, a dict is read in type-name order; a wrong key set is KeySetMismatch; an int or any other shape is UnrecognizedFormat |
| Norm.FactorTable | nequip/nn/norm.py:42-43 | succeeds iff every average is positive, giving one single-column row 1/sqrt(avg[i]) per type; otherwise the first non-positive average decides the error (zero division for 0, math domain for a negative) |
| Norm.Init | nequip/nn/norm.py:24-44 | the constructor's result is the list's error, or else the factor table of the list |
| Norm.InitSucceeds | nequip/nn/norm.py:24-44 | the constructor succeeds iff the spec is a positive float (or any float with no types), or a dict over exactly the type names with all values positive |
| Norm.FloatMatchesUniformDict | nequip/nn/norm.py:25-29 | a float and the dict giving that float to every type name produce the same list |
| Norm.Prefix | nequip/nn/norm.py:53 | Python's s[:n]: a prefix of s whose length is n clamped to [0, |s|] for n ≥ 0, and |s| + n clamped at 0 for n < 0 |
| Norm.Embedding | nequip/nn/norm.py:52-55 | succeeds iff every index names a row of the table, and then row k of the result is table row idx[k]; otherwise IndexOutOfRange |
| Norm.AvgNumNeighborsNorm.constructor | nequip/nn/norm.py:9-44 | stores the type names and spec, sets the shortcut iff there is exactly one type, and builds one factor row 1/sqrt(avg[i]) per type |
| Norm.AvgNumNeighborsNorm.Create | nequip/nn/norm.py:9-44 | fails exactly when the constructor would raise, with that error; otherwise returns a fresh valid module for those arguments |
| Norm.AvgNumNeighborsNorm.Forward | nequip/nn/norm.py:46-56 | with the shortcut returns the factor table; otherwise succeeds iff every one of the first num_local_nodes atom types indexes the table, returning one row per such atom, row k being the table row of atom k's type |
| Norm.AvgNumNeighborsNorm.ForwardRowIsTypeFactor | nequip/nn/norm.py:50-55 | without the shortcut, row k of the output is 1/sqrt of the average of atom k's type |
| Norm.AvgNumNeighborsNorm.ForwardUsesTypeName | nequip/nn/norm.py:27-55 | for a dict spec, row k is 1/sqrt of the dict's value for the name of atom k's type |
| Norm.AvgNumNeighborsNorm.ForwardRowCount | nequip/nn/norm.py:51-53 | without the shortcut the output has num_local_nodes rows when 0 ≤ num_local_nodes ≤ number of atoms |
| Norm.AvgNumNeighborsNorm.ShortcutMatchesLookup | nequip/nn/norm.py:38-49 | with one type the table has one row, and every valid lookup returns that row, which is what the shortcut returns |

## Left out

- nequip/nn/embedding/utils.py is not part of this model. Where the tests leave behaviour open, the model makes these choices:
  - the word count is checked before the words are parsed;
  - a token that is not a number is the InvalidNumber error;
  - radii are compared with r_max using ≤;
  - the string is split as Python's no-argument `str.split()` splits it.
- Cutoff values are the finite non-negative decimals whose Python text has no exponent. Negative values, -0.0, exponent notation, nan and inf are not modelled. Binary floating-point rounding is not modelled either, so two values that Python would print the same are the same here.
- FloatText.Format: writes every value positionally, including values Python writes with an exponent (below 1e-4 or from 1e16 up: `Format(Decimal(1, 5))` is "0.00001" where Python writes "1e-05"). It also writes decimals that are not binary floats, and mantissas beyond 17 significant digits.
- FloatText.Parse: accepts only the decimal literals that Format produces (ASCII digits with an optional point). Python's `float()` also accepts signs, exponents, underscores, surrounding whitespace, the words `inf`, `infinity` and `nan` in any case, and non-ASCII Unicode decimal digits.
- Tensor dtype and the process-wide global dtype setting are not modelled; a tensor is a sequence of rows of decimals.
- A configuration entry that is neither a number nor a dict cannot be expressed in the `Entry` datatype, so its type error is not modelled.
- The numeric value of 1/sqrt(N) is not modelled; the factor is the symbolic `InverseSqrt(N)`. The errors 1.0 / sqrt(N) raises for N ≤ 0 are modelled; nan and infinite averages are not.
- Norm.AvgNumNeighborsNorm.constructor: requires a configuration that `__init__` accepts. The raising path of `__init__` is modelled by Norm.AvgNumNeighborsNorm.Create and Norm.Init.
- The `data` dictionary of `forward` is reduced to its atom-type sequence. The torch buffer registration, module wiring and device placement are not modelled.
- The shortcut output has shape (1, 1), which torch broadcasts against per-atom features. Broadcasting is not modelled. Norm.AvgNumNeighborsNorm.ShortcutMatchesLookup states that the one row is what every lookup would return.
- nequip/nn/les_energy.py, nequip/nn/vector_readout.py, nequip/train/callbacks/les_bec_option.py, misc/parity_plot.py, nequip/model/saved_models/__init__.py and tests/unit/nn/test_utils.py are not part of this model. They are neural-network numerics, external libraries, training-framework plumbing, plotting and neighbour-list geometry.
