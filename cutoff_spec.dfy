/**
 * Per-type-pair cutoff radii: the sparse configuration, the full type-by-type
 * dictionary, the N-by-N tensor, and the metadata string saved with a model.
 *
 * The four conversions and the validating combinator are
 *   cutoff_partialdict_to_fulldict  -> PartialDictToFullDict
 *   cutoff_fulldict_to_tensor       -> FullDictToTensor
 *   cutoff_tensor_to_str            -> TensorToStr
 *   cutoff_str_to_fulldict          -> StrToFullDict
 *   cutoff_partialdict_to_tensor    -> PartialDictToTensor
 */
module CutoffSpec {
  import opened Wrappers
  import opened FloatText
  import opened Tokens
  import opened TypeNames

  /** One source type's entry in the configuration: one radius for every target, or a radius per target. */
  datatype Entry = Uniform(cutoff: Num) | PerTarget(targets: map<TypeName, Num>)

  /** The sparse configuration: source type -> entry. */
  type PartialDict = map<TypeName, Entry>

  /** The full dictionary: source type -> target type -> radius. */
  type FullDict = map<TypeName, map<TypeName, Num>>

  /** A tensor of radii: a 0-dimensional scalar or a matrix of rows. */
  datatype Tensor = Scalar(item: Num) | Matrix(rows: seq<seq<Num>>)

  datatype CutoffError =
    | MissingKey                               // a type pair absent from the full dictionary
    | CountMismatch(expected: nat, got: nat)   // "Expected N² cutoff values"
    | InvalidNumber(token: string)             // a token that is not a number
    | ExceedsRMax                              // a resolved radius greater than r_max

  /** Both levels of the full dictionary are keyed by exactly the type names. */
  predicate Covers(full: FullDict, names: seq<TypeName>)
  {
    full.Keys == TypeSet(names) && forall s | s in full :: full[s].Keys == TypeSet(names)
  }

  // ---------------------------------------------------------------------
  // Expansion of the configuration

  /** The radius the configuration gives to the ordered pair (s, t). */
  function Resolve(partial: PartialDict, rMax: Num, s: TypeName, t: TypeName): Num
  {
    if s !in partial then rMax
    else match partial[s]
      case Uniform(v) => v
      case PerTarget(m) => if t in m then m[t] else rMax
  }

  /** cutoff_partialdict_to_fulldict: every ordered pair of type names gets a radius. */
  function PartialDictToFullDict(partial: PartialDict, names: seq<TypeName>, rMax: Num): (full: FullDict)
    ensures Covers(full, names)
    ensures forall s, t | s in names && t in names && s !in partial :: full[s][t] == rMax
    ensures forall s, t | s in names && t in names && s in partial && partial[s].Uniform? ::
              full[s][t] == partial[s].cutoff
    ensures forall s, t | s in names && t in names && s in partial && partial[s].PerTarget? && t in partial[s].targets ::
              full[s][t] == partial[s].targets[t]
    ensures forall s, t | s in names && t in names && s in partial && partial[s].PerTarget? && t !in partial[s].targets ::
              full[s][t] == rMax
  {
    map s | s in names :: map t | t in names :: Resolve(partial, rMax, s, t)
  }

  // ---------------------------------------------------------------------
  // Full dictionary to tensor

  /** Every ordered pair of type names has an entry. */
  predicate HasAllPairs(full: FullDict, names: seq<TypeName>)
  {
    forall i, j | 0 <= i < |names| && 0 <= j < |names| :: names[i] in full && names[j] in full[names[i]]
  }

  /** Every row of the grid has n entries. */
  predicate RowsOfLength(rows: seq<seq<Num>>, n: nat)
  {
    forall i | 0 <= i < |rows| :: |rows[i]| == n
  }

  /** cutoff_fulldict_to_tensor: row i, column j holds full[names[i]][names[j]]. */
  function FullDictToTensor(full: FullDict, names: seq<TypeName>): (r: Result<Tensor, CutoffError>)
    ensures r.Success? <==> HasAllPairs(full, names)
    ensures r.Failure? ==> r.error == MissingKey
    ensures r.Success? ==> r.value.Matrix? && |r.value.rows| == |names| && RowsOfLength(r.value.rows, |names|)
    ensures r.Success? ==> forall i, j | 0 <= i < |names| && 0 <= j < |names| ::
              r.value.rows[i][j] == full[names[i]][names[j]]
  {
    var n := |names|;
    if HasAllPairs(full, names) then
      Success(Matrix(seq(n, i requires 0 <= i < n => seq(n, j requires 0 <= j < n => full[names[i]][names[j]]))))
    else
      Failure(MissingKey)
  }

  // ---------------------------------------------------------------------
  // Row-major flattening and its inverse

  /** The rows concatenated, first row first. */
  function Flatten(rows: seq<seq<Num>>): seq<Num>
  {
    if rows == [] then [] else rows[0] + Flatten(rows[1..])
  }

  /** The entries of a tensor in row-major order; a scalar is one entry. */
  function Entries(t: Tensor): seq<Num>
  {
    match t
    case Scalar(v) => [v]
    case Matrix(rows) => Flatten(rows)
  }

  /** Cuts a flat list into `count` rows of n entries. */
  function Reshape(values: seq<Num>, count: nat, n: nat): (rows: seq<seq<Num>>)
    requires |values| == count * n
    ensures |rows| == count && RowsOfLength(rows, n)
    ensures Flatten(rows) == values
    decreases count
  {
    if count == 0 then []
    else
      assert |values[n..]| == (count - 1) * n;
      [values[..n]] + Reshape(values[n..], count - 1, n)
  }

  /** Reshape undoes Flatten on rows of equal length. */
  lemma {:induction false} ReshapeFlatten(rows: seq<seq<Num>>, n: nat)
    requires RowsOfLength(rows, n)
    ensures |Flatten(rows)| == |rows| * n
    ensures Reshape(Flatten(rows), |rows|, n) == rows
  {
    if rows != [] {
      ReshapeFlatten(rows[1..], n);
      var flat := Flatten(rows);
      assert flat[..n] == rows[0];
      assert flat[n..] == Flatten(rows[1..]);
    }
  }

  /** Entry [i][j] of an n-column grid sits at position i * n + j of its flattening. */
  lemma {:induction false} FlattenAt(rows: seq<seq<Num>>, n: nat, i: nat, j: nat)
    requires RowsOfLength(rows, n) && i < |rows| && j < n
    ensures |Flatten(rows)| == |rows| * n
    ensures 0 <= i * n + j < |Flatten(rows)| && Flatten(rows)[i * n + j] == rows[i][j]
  {
    ReshapeFlatten(rows, n);
    if i > 0 {
      FlattenAt(rows[1..], n, i - 1, j);
      RowShift(i, n, j);
      assert Flatten(rows) == rows[0] + Flatten(rows[1..]);
      assert |rows[0]| == n;
    }
  }

  /** Position j of row i is n places after position j of row i - 1. */
  lemma RowShift(i: nat, n: nat, j: nat)
    requires i > 0
    ensures (i - 1) * n + j + n == i * n + j
  {
    assert (i - 1) * n == i * n - n;
  }

  // ---------------------------------------------------------------------
  // Tensor to metadata string and back

  function FormatAll(values: seq<Num>): (toks: seq<string>)
    ensures |toks| == |values|
  {
    seq(|values|, i requires 0 <= i < |values| => Format(values[i]))
  }

  /** cutoff_tensor_to_str: the entries in row-major order, each as decimal text, joined by single spaces. */
  function TensorToStr(t: Tensor): (s: string)
    ensures s == "" <==> Entries(t) == []
  {
    var toks := FormatAll(Entries(t));
    assert toks != [] ==> TotalLength(toks) >= |toks[0]| >= 3;
    Join(toks)
  }

  /** Reads every token as a number; the first token that is not one is the error. */
  function ParseAll(toks: seq<string>): (r: Result<seq<Num>, string>)
    ensures r.Success? ==> |r.value| == |toks| && forall i | 0 <= i < |toks| :: Parse(toks[i]) == Some(r.value[i])
    ensures r.Success? <==> forall i | 0 <= i < |toks| :: Parse(toks[i]).Some?
    ensures r.Failure? ==> r.error in toks && Parse(r.error).None?
  {
    if toks == [] then Success([])
    else match Parse(toks[0])
      case None => Failure(toks[0])
      case Some(v) =>
        match ParseAll(toks[1..])
        case Failure(bad) => Failure(bad)
        case Success(vs) => Success([v] + vs)
  }

  /** The token a failed ParseAll reports is the first token that does not parse. */
  lemma {:induction false} ParseAllFirstError(toks: seq<string>)
    requires ParseAll(toks).Failure?
    ensures exists i | 0 <= i < |toks| ::
              && toks[i] == ParseAll(toks).error && Parse(toks[i]).None?
              && forall k | 0 <= k < i :: Parse(toks[k]).Some?
  {
    if Parse(toks[0]).Some? {
      ParseAllFirstError(toks[1..]);
      var i :| 0 <= i < |toks[1..]| && toks[1..][i] == ParseAll(toks[1..]).error && Parse(toks[1..][i]).None?
                && forall k | 0 <= k < i :: Parse(toks[1..][k]).Some?;
      assert toks[i + 1] == ParseAll(toks).error;
      forall k | 0 <= k < i + 1
        ensures Parse(toks[k]).Some?
      {
        if k > 0 {
          assert toks[k] == toks[1..][k - 1];
        }
      }
    } else {
      assert toks[0] == ParseAll(toks).error;
    }
  }

  /** Python's {keys[j]: vals[j] for j in range(n)}: a later key overrides an earlier equal one. */
  function Zip<K(==), V>(keys: seq<K>, vals: seq<V>): (m: map<K, V>)
    requires |keys| == |vals|
    ensures m.Keys == set k | k in keys
    ensures forall j | 0 <= j < |keys| && LastOf(keys, j) :: m[keys[j]] == vals[j]
    decreases |keys|
  {
    if keys == [] then map[]
    else
      var last := |keys| - 1;
      var prefix := Zip(keys[..last], vals[..last]);
      ZipExtend(keys[..last], vals[..last], keys[last], vals[last], prefix);
      assert keys == keys[..last] + [keys[last]];
      assert vals == vals[..last] + [vals[last]];
      prefix[keys[last] := vals[last]]
  }

  /** One more key-value pair on top of the dictionary of the shorter prefix. */
  lemma ZipExtend<K, V>(keys: seq<K>, vals: seq<V>, k: K, v: V, prefix: map<K, V>)
    requires |keys| == |vals|
    requires prefix.Keys == set x | x in keys
    requires forall j | 0 <= j < |keys| && LastOf(keys, j) :: prefix[keys[j]] == vals[j]
    ensures prefix[k := v].Keys == set x | x in keys + [k]
    ensures forall j | 0 <= j < |keys + [k]| && LastOf(keys + [k], j) :: prefix[k := v][(keys + [k])[j]] == (vals + [v])[j]
  {
    var m := prefix[k := v];
    var ks, vs := keys + [k], vals + [v];
    forall j | 0 <= j < |ks| && LastOf(ks, j)
      ensures m[ks[j]] == vs[j]
    {
      if j < |keys| {
        assert ks[|keys|] == k;
        assert forall x | j < x < |keys| :: ks[x] == keys[x];
        assert LastOf(keys, j);
      }
    }
  }

  /** Every value of a zipped dictionary is one of the values given. */
  lemma ZipValues<K, V>(keys: seq<K>, vals: seq<V>)
    requires |keys| == |vals|
    ensures forall k | k in Zip(keys, vals) :: Zip(keys, vals)[k] in vals
  {
    forall k | k in Zip(keys, vals)
      ensures Zip(keys, vals)[k] in vals
    {
      var j := LastIndex(keys, k);
    }
  }

  /** Position j holds the last occurrence of its key. */
  predicate LastOf<K(==)>(keys: seq<K>, j: nat)
    requires j < |keys|
  {
    forall k | j < k < |keys| :: keys[k] != keys[j]
  }

  /** The position of the last occurrence of k. */
  function LastIndex<K(==)>(keys: seq<K>, k: K): (j: nat)
    requires k in keys
    ensures j < |keys| && keys[j] == k && LastOf(keys, j)
  {
    if keys[|keys| - 1] == k then |keys| - 1 else LastIndex(keys[..|keys| - 1], k)
  }

  /** Zipping keys with the values a map gives them rebuilds the map. */
  lemma ZipOfMap<K, V>(keys: seq<K>, vals: seq<V>, m: map<K, V>)
    requires |keys| == |vals|
    requires m.Keys == set k | k in keys
    requires forall j | 0 <= j < |keys| :: vals[j] == m[keys[j]]
    ensures Zip(keys, vals) == m
  {
    var z := Zip(keys, vals);
    forall k | k in m
      ensures z[k] == m[k]
    {
      var j := LastIndex(keys, k);
    }
  }

  /** The full dictionary of a square grid of rows, keyed by the type names at both levels. */
  function GridToFullDict(names: seq<TypeName>, grid: seq<seq<Num>>): (full: FullDict)
    requires |grid| == |names| && RowsOfLength(grid, |names|)
    ensures Covers(full, names)
  {
    var n := |names|;
    var rows := seq(n, i requires 0 <= i < n => Zip(names, grid[i]));
    ZipValues(names, rows);
    Zip(names, rows)
  }

  /** cutoff_str_to_fulldict. An absent or empty string means no cutoffs were saved. */
  function StrToFullDict(s: Option<string>, names: seq<TypeName>): (r: Result<Option<FullDict>, CutoffError>)
    ensures s.None? || s.value == "" ==> r == Success(None)
    ensures s.Some? && s.value != "" && |Words(s.value)| != |names| * |names| ==>
              r == Failure(CountMismatch(|names| * |names|, |Words(s.value)|))
    ensures r.Success? && s.Some? && s.value != "" ==>
              r.value.Some? && Covers(r.value.value, names) && |Words(s.value)| == |names| * |names|
    ensures s.Some? && s.value != "" && |Words(s.value)| == |names| * |names| ==>
              (r.Success? <==> forall i | 0 <= i < |Words(s.value)| :: Parse(Words(s.value)[i]).Some?)
    ensures r.Failure? ==> r.error.CountMismatch? || r.error.InvalidNumber?
    ensures r.Failure? && r.error.InvalidNumber? ==> r.error.token in Words(s.value) && Parse(r.error.token).None?
  {
    if s.None? || s.value == "" then Success(None)
    else
      var toks := Words(s.value);
      var n := |names|;
      if |toks| != n * n then Failure(CountMismatch(n * n, |toks|))
      else
        var parsed := ParseAll(toks);
        assert toks == Words(s.value);
        assert parsed.Success? <==> forall i | 0 <= i < |toks| :: Parse(toks[i]).Some?;
        match parsed
        case Failure(bad) => Failure(InvalidNumber(bad))
        case Success(values) => Success(Some(GridToFullDict(names, Reshape(values, n, n))))
  }

  // ---------------------------------------------------------------------
  // The validating combinator

  /** Every entry of the tensor is at most r_max. */
  predicate WithinRMax(t: Tensor, rMax: Num)
  {
    forall v | v in Entries(t) :: Value(v) <= Value(rMax)
  }

  /** cutoff_partialdict_to_tensor: expand, tensorise, and refuse any radius above r_max. */
  function PartialDictToTensor(partial: PartialDict, names: seq<TypeName>, rMax: Num): (r: Result<Tensor, CutoffError>)
    ensures r.Success? <==> forall s, t | s in names && t in names :: Value(Resolve(partial, rMax, s, t)) <= Value(rMax)
    ensures r.Success? ==> r == FullDictToTensor(PartialDictToFullDict(partial, names, rMax), names)
    ensures r.Failure? ==> r.error == ExceedsRMax
  {
    var full := PartialDictToFullDict(partial, names, rMax);
    var t := FullDictToTensor(full, names);
    assert t.Success?;
    WithinRMaxPairs(full, names, t.value, rMax);
    if WithinRMax(t.value, rMax) then t else Failure(ExceedsRMax)
  }

  lemma WithinRMaxPairs(full: FullDict, names: seq<TypeName>, t: Tensor, rMax: Num)
    requires HasAllPairs(full, names) && FullDictToTensor(full, names) == Success(t)
    ensures WithinRMax(t, rMax) <==> forall s, u | s in names && u in names :: Value(full[s][u]) <= Value(rMax)
  {
    if WithinRMax(t, rMax) {
      forall s, u | s in names && u in names
        ensures Value(full[s][u]) <= Value(rMax)
      {
        EntryWithin(full, names, t, rMax, s, u);
      }
    }
    if forall s, u | s in names && u in names :: Value(full[s][u]) <= Value(rMax) {
      forall v | v in Entries(t)
        ensures Value(v) <= Value(rMax)
      {
        PairWithin(full, names, t, rMax, v);
      }
    }
  }

  lemma PairWithin(full: FullDict, names: seq<TypeName>, t: Tensor, rMax: Num, v: Num)
    requires HasAllPairs(full, names) && FullDictToTensor(full, names) == Success(t)
    requires forall s, u | s in names && u in names :: Value(full[s][u]) <= Value(rMax)
    requires v in Entries(t)
    ensures Value(v) <= Value(rMax)
  {
    FlattenMember(t.rows, v);
    var i, j :| 0 <= i < |t.rows| && 0 <= j < |t.rows[i]| && t.rows[i][j] == v;
    assert v == full[names[i]][names[j]];
    assert names[i] in names && names[j] in names;
  }

  lemma EntryWithin(full: FullDict, names: seq<TypeName>, t: Tensor, rMax: Num, s: TypeName, u: TypeName)
    requires HasAllPairs(full, names) && FullDictToTensor(full, names) == Success(t)
    requires WithinRMax(t, rMax) && s in names && u in names
    ensures s in full && u in full[s] && Value(full[s][u]) <= Value(rMax)
  {
    var n := |names|;
    var i :| 0 <= i < n && names[i] == s;
    var j :| 0 <= j < n && names[j] == u;
    FlattenAt(t.rows, n, i, j);
    assert t.rows[i][j] in Entries(t);
  }

  /** Every entry of a flattening comes from some row. */
  lemma {:induction false} FlattenMember(rows: seq<seq<Num>>, v: Num)
    requires v in Flatten(rows)
    ensures exists i, j | 0 <= i < |rows| && 0 <= j < |rows[i]| :: rows[i][j] == v
  {
    if v in rows[0] {
      var j :| 0 <= j < |rows[0]| && rows[0][j] == v;
      assert rows[0][j] == v;
    } else {
      FlattenMember(rows[1..], v);
      var i, j :| 0 <= i < |rows[1..]| && 0 <= j < |rows[1..][i]| && rows[1..][i][j] == v;
      assert rows[i + 1][j] == v;
    }
  }

  // ---------------------------------------------------------------------
  // Properties of the pipeline

  lemma CoversHasAllPairs(full: FullDict, names: seq<TypeName>)
    requires Covers(full, names)
    ensures HasAllPairs(full, names)
  {
    forall i, j | 0 <= i < |names| && 0 <= j < |names|
      ensures names[i] in full && names[j] in full[names[i]]
    {
      assert names[i] in TypeSet(names) && names[j] in TypeSet(names);
    }
  }

  lemma FormatIsWord(d: Num)
    ensures IsWord(Format(d))
  {
  }

  /** Splitting the metadata string on whitespace gives the formatted entries in row-major order. */
  lemma TensorToStrWords(t: Tensor)
    ensures Words(TensorToStr(t)) == FormatAll(Entries(t))
  {
    var toks := FormatAll(Entries(t));
    forall i | 0 <= i < |toks|
      ensures IsWord(toks[i])
    {
      FormatIsWord(Entries(t)[i]);
    }
    WordsJoin(toks);
  }

  /** A scalar tensor gives the text of its one value, with no separator. */
  lemma ScalarToStr(v: Num)
    ensures TensorToStr(Scalar(v)) == Format(v)
    ensures forall i | 0 <= i < |TensorToStr(Scalar(v))| :: !IsSpace(TensorToStr(Scalar(v))[i])
  {
    FormatIsWord(v);
  }

  /** Reading back formatted values gives the values. */
  lemma {:induction false} ParseAllFormatAll(values: seq<Num>)
    ensures ParseAll(FormatAll(values)) == Success(values)
  {
    if values != [] {
      var toks := FormatAll(values);
      assert Parse(toks[0]) == Some(values[0]) by { ParseFormat(values[0]); }
      assert toks[1..] == FormatAll(values[1..]);
      ParseAllFormatAll(values[1..]);
      assert values == [values[0]] + values[1..];
    }
  }

  /** The grid of a covering full dictionary rebuilds that dictionary. */
  lemma GridToFullDictOfTensor(full: FullDict, names: seq<TypeName>, rows: seq<seq<Num>>)
    requires Covers(full, names)
    requires |rows| == |names| && RowsOfLength(rows, |names|)
    requires forall i, j | 0 <= i < |names| && 0 <= j < |names| :: rows[i][j] == full[names[i]][names[j]]
    ensures GridToFullDict(names, rows) == full
  {
    var n := |names|;
    var dicts := seq(n, i requires 0 <= i < n => Zip(names, rows[i]));
    forall i | 0 <= i < n
      ensures dicts[i] == full[names[i]]
    {
      assert names[i] in TypeSet(names);
      ZipOfMap(names, rows[i], full[names[i]]);
    }
    ZipOfMap(names, dicts, full);
  }

  /** Saving a full dictionary as a string and loading it with the same type order gives it back. */
  lemma FullDictRoundTrip(full: FullDict, names: seq<TypeName>)
    requires |names| > 0 && Covers(full, names)
    ensures FullDictToTensor(full, names).Success?
    ensures StrToFullDict(Some(TensorToStr(FullDictToTensor(full, names).value)), names) == Success(Some(full))
  {
    CoversHasAllPairs(full, names);
    var t := FullDictToTensor(full, names).value;
    assert GridToFullDict(names, t.rows) == full by {
      GridToFullDictOfTensor(full, names, t.rows);
    }
    LoadWritten(t.rows, names);
  }

  /** Loading the string of an N-by-N matrix gives the dictionary of its rows. */
  lemma LoadWritten(rows: seq<seq<Num>>, names: seq<TypeName>)
    requires |names| > 0 && |rows| == |names| && RowsOfLength(rows, |names|)
    ensures StrToFullDict(Some(TensorToStr(Matrix(rows))), names) == Success(Some(GridToFullDict(names, rows)))
  {
    var n := |names|;
    var flat := Flatten(rows);
    ReshapeFlatten(rows, n);
    TensorToStrWords(Matrix(rows));
    FormatIsWord(flat[0]);
    JoinNonEmpty(FormatAll(flat));
    ParseAllFormatAll(flat);
  }

  /**
   * The whole pipeline: expanding a configuration, tensorising it, writing it
   * out and reading it back gives the same full dictionary.
   */
  lemma PipelineRoundTrip(partial: PartialDict, names: seq<TypeName>, rMax: Num)
    requires |names| > 0
    ensures var full := PartialDictToFullDict(partial, names, rMax);
            && FullDictToTensor(full, names).Success?
            && StrToFullDict(Some(TensorToStr(FullDictToTensor(full, names).value)), names) == Success(Some(full))
  {
    FullDictRoundTrip(PartialDictToFullDict(partial, names, rMax), names);
  }

  /** With no type names the tensor is empty, its string is empty, and reading that string gives no dictionary. */
  lemma NoTypesRoundTrip(full: FullDict)
    ensures FullDictToTensor(full, []) == Success(Matrix([]))
    ensures TensorToStr(Matrix([])) == ""
    ensures StrToFullDict(Some(TensorToStr(Matrix([]))), []) == Success(None)
  {
  }

  /**
   * Token i * N + j of a loaded string is the radius from names[i] to
   * names[j] (row = source type), when the type names are distinct.
   */
  lemma StrToFullDictLayout(str: string, names: seq<TypeName>, full: FullDict, i: nat, j: nat)
    requires forall a, b | 0 <= a < b < |names| :: names[a] != names[b]
    requires StrToFullDict(Some(str), names) == Success(Some(full))
    requires i < |names| && j < |names|
    ensures 0 <= i * |names| + j < |Words(str)|
    ensures Parse(Words(str)[i * |names| + j]) == Some(full[names[i]][names[j]])
  {
    var n := |names|;
    var toks := Words(str);
    assert |toks| == n * n;
    var values := ParseAll(toks).value;
    var grid := Reshape(values, n, n);
    assert full == GridToFullDict(names, grid);
    GridToFullDictAt(names, grid, i, j);
    TokenAt(toks, values, n, i, j);
  }

  /** Token i * n + j reads as row i, column j of the reshaped values. */
  lemma TokenAt(toks: seq<string>, values: seq<Num>, n: nat, i: nat, j: nat)
    requires ParseAll(toks) == Success(values) && |values| == n * n
    requires i < n && j < n
    ensures 0 <= i * n + j < |toks|
    ensures Parse(toks[i * n + j]) == Some(Reshape(values, n, n)[i][j])
  {
    ReshapeAt(values, n, i, j);
    ParseAllAt(toks, values, i * n + j);
  }

  /** With distinct names, the loaded dictionary holds grid[i][j] at names[i], names[j]. */
  lemma GridToFullDictAt(names: seq<TypeName>, grid: seq<seq<Num>>, i: nat, j: nat)
    requires forall a, b | 0 <= a < b < |names| :: names[a] != names[b]
    requires |grid| == |names| && RowsOfLength(grid, |names|)
    requires i < |names| && j < |names|
    ensures names[i] in GridToFullDict(names, grid) && names[j] in GridToFullDict(names, grid)[names[i]]
    ensures GridToFullDict(names, grid)[names[i]][names[j]] == grid[i][j]
  {
    var n := |names|;
    var dicts := seq(n, k requires 0 <= k < n => Zip(names, grid[k]));
    assert LastOf(names, i) && LastOf(names, j);
    assert GridToFullDict(names, grid)[names[i]] == dicts[i];
  }

  lemma ParseAllAt(toks: seq<string>, values: seq<Num>, k: nat)
    requires ParseAll(toks) == Success(values) && k < |values|
    ensures k < |toks| && Parse(toks[k]) == Some(values[k])
  {
  }

  /** Row i, column j of a reshaped list is element i * n + j. */
  lemma ReshapeAt(values: seq<Num>, n: nat, i: nat, j: nat)
    requires |values| == n * n && i < n && j < n
    ensures 0 <= i * n + j < |values| && Reshape(values, n, n)[i][j] == values[i * n + j]
  {
    FlattenAt(Reshape(values, n, n), n, i, j);
  }

  /** Some radius the configuration states explicitly, for a pair of known types, is above r_max. */
  predicate ExplicitlyAboveRMax(partial: PartialDict, names: seq<TypeName>, rMax: Num)
  {
    exists s | s in names && s in partial ::
      match partial[s]
      case Uniform(v) => Value(v) > Value(rMax)
      case PerTarget(m) => exists t | t in names && t in m :: Value(m[t]) > Value(rMax)
  }

  /**
   * cutoff_partialdict_to_tensor fails exactly when some radius written in
   * the configuration for a pair of known types is above r_max; the r_max
   * defaults never make it fail, and entries for unknown types are never checked.
   */
  lemma BoundsCheckBlamesExplicitValues(partial: PartialDict, names: seq<TypeName>, rMax: Num)
    ensures PartialDictToTensor(partial, names, rMax).Failure? <==> ExplicitlyAboveRMax(partial, names, rMax)
  {
    if PartialDictToTensor(partial, names, rMax).Failure? {
      var s, t :| s in names && t in names && Value(Resolve(partial, rMax, s, t)) > Value(rMax);
      assert s in partial;
    }
    if ExplicitlyAboveRMax(partial, names, rMax) {
      var s :| s in names && s in partial && match partial[s]
        case Uniform(v) => Value(v) > Value(rMax)
        case PerTarget(m) => exists t | t in names && t in m :: Value(m[t]) > Value(rMax);
      if partial[s].Uniform? {
        assert Value(Resolve(partial, rMax, s, s)) > Value(rMax);
      } else {
        var t :| t in names && t in partial[s].targets && Value(partial[s].targets[t]) > Value(rMax);
        assert Value(Resolve(partial, rMax, s, t)) > Value(rMax);
      }
    }
  }
}
