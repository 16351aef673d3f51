/**
 * Per-type edge-sum normalisation (AvgNumNeighborsNorm).
 *
 * At construction the average number of neighbours, given for every type at
 * once or per type name, becomes a list ordered by the type names, and then a
 * one-column table of factors 1/sqrt(N). The forward pass looks up each local
 * atom's row of that table by its type index.
 */
module Norm {
  import opened Wrappers
  import opened TypeNames

  /** The shapes the configuration value avg_num_neighbors can take. */
  datatype AvgSpec =
    | FloatSpec(value: real)                // a Python float: one average for every type
    | DictSpec(perType: map<TypeName, real>)  // a dict from type name to average
    | IntSpec(count: int)                   // a Python int: not a float, so refused
    | OtherSpec                             // any other value (list, string, None, ...)

  datatype NormError =
    | KeySetMismatch       // the dict's keys are not exactly the type names (AssertionError)
    | UnrecognizedFormat   // neither a float nor a dict (RuntimeError)
    | ZeroDivision         // an average of 0: 1.0 / sqrt(0) divides by zero
    | MathDomain           // a negative average: sqrt of a negative number
    | IndexOutOfRange      // an atom type with no row in the factor table (the lookup fails)

  /** The factor 1/sqrt(N) for an average of N neighbours, kept symbolic. */
  datatype Factor = InverseSqrt(avgNumNeighbors: real)

  /** The averages as a list ordered by the type names, or the error the constructor raises. */
  function AvgNumNeighborsList(typeNames: seq<TypeName>, spec: AvgSpec): (r: Result<seq<real>, NormError>)
    ensures r.Success? <==> spec.FloatSpec? || (spec.DictSpec? && spec.perType.Keys == TypeSet(typeNames))
    ensures r.Success? ==> |r.value| == |typeNames|
    ensures r.Success? && spec.FloatSpec? ==> forall i | 0 <= i < |typeNames| :: r.value[i] == spec.value
    ensures r.Success? && spec.DictSpec? ==>
              forall i | 0 <= i < |typeNames| :: typeNames[i] in spec.perType && r.value[i] == spec.perType[typeNames[i]]
    ensures spec.DictSpec? && spec.perType.Keys != TypeSet(typeNames) ==> r == Failure(KeySetMismatch)
    ensures spec.IntSpec? || spec.OtherSpec? ==> r == Failure(UnrecognizedFormat)
  {
    match spec
    case FloatSpec(v) => Success(seq(|typeNames|, _ => v))
    case DictSpec(m) =>
      if m.Keys == TypeSet(typeNames) then
        Success(seq(|typeNames|, i requires 0 <= i < |typeNames| => assert typeNames[i] in TypeSet(typeNames); m[typeNames[i]]))
      else
        Failure(KeySetMismatch)
    case IntSpec(_) => Failure(UnrecognizedFormat)
    case OtherSpec => Failure(UnrecognizedFormat)
  }

  /** The error 1.0 / sqrt(n) raises, if any. */
  function FactorError(n: real): Option<NormError>
  {
    if n == 0.0 then Some(ZeroDivision) else if n < 0.0 then Some(MathDomain) else None
  }

  /**
   * The factor table: one row per type, one column, row i holding 1/sqrt of
   * average i. The list is built in order, so the first average without a
   * square-root inverse decides the error.
   */
  function FactorTable(avg: seq<real>): (r: Result<seq<seq<Factor>>, NormError>)
    ensures r.Success? <==> forall i | 0 <= i < |avg| :: avg[i] > 0.0
    ensures r.Success? ==> |r.value| == |avg| && forall i | 0 <= i < |avg| :: r.value[i] == [InverseSqrt(avg[i])]
    ensures r.Failure? ==> exists i | 0 <= i < |avg| ::
              (forall k | 0 <= k < i :: avg[k] > 0.0) && FactorError(avg[i]) == Some(r.error)
  {
    if avg == [] then Success([])
    else match FactorError(avg[0])
      case Some(e) => Failure(e)
      case None =>
        match FactorTable(avg[1..])
        case Failure(e) => Failure(e)
        case Success(rest) => Success([[InverseSqrt(avg[0])]] + rest)
  }

  /** __init__: the averages in type order, then the factor table, or the error raised on the way. */
  function Init(typeNames: seq<TypeName>, spec: AvgSpec): (r: Result<seq<seq<Factor>>, NormError>)
    ensures AvgNumNeighborsList(typeNames, spec).Failure? ==> r == Failure(AvgNumNeighborsList(typeNames, spec).error)
    ensures AvgNumNeighborsList(typeNames, spec).Success? ==> r == FactorTable(AvgNumNeighborsList(typeNames, spec).value)
  {
    match AvgNumNeighborsList(typeNames, spec)
    case Failure(e) => Failure(e)
    case Success(avg) => FactorTable(avg)
  }

  /**
   * __init__ succeeds exactly for a float that is positive (or unused, with no
   * types) and for a dict over exactly the type names whose values are all positive.
   */
  lemma InitSucceeds(typeNames: seq<TypeName>, spec: AvgSpec)
    ensures Init(typeNames, spec).Success? <==>
              || (spec.FloatSpec? && (typeNames == [] || spec.value > 0.0))
              || (spec.DictSpec? && spec.perType.Keys == TypeSet(typeNames)
                  && forall n | n in spec.perType :: spec.perType[n] > 0.0)
  {
    var avg := AvgNumNeighborsList(typeNames, spec);
    if spec.FloatSpec? && typeNames != [] {
      assert avg.value[0] == spec.value;
    }
    if spec.DictSpec? && spec.perType.Keys == TypeSet(typeNames) {
      forall n | n in spec.perType
        ensures exists i | 0 <= i < |typeNames| :: avg.value[i] == spec.perType[n]
      {
        assert n in TypeSet(typeNames);
        var i :| 0 <= i < |typeNames| && typeNames[i] == n;
      }
    }
  }

  /** Python's s[:n], for any integer n. */
  function Prefix<T>(s: seq<T>, n: int): (r: seq<T>)
    ensures n >= 0 ==> |r| == if n <= |s| then n else |s|
    ensures n < 0 ==> |r| == if |s| + n >= 0 then |s| + n else 0
    ensures r == s[..|r|]
  {
    var len := if n >= 0 then (if n <= |s| then n else |s|) else (if |s| + n >= 0 then |s| + n else 0);
    s[..len]
  }

  /** Every index names a row of the table. */
  predicate AllInRange<T>(idx: seq<int>, table: seq<T>)
  {
    forall k | 0 <= k < |idx| :: 0 <= idx[k] < |table|
  }

  /** torch.nn.functional.embedding: row k of the result is row idx[k] of the table. */
  function Embedding<T>(idx: seq<int>, table: seq<T>): (r: Result<seq<T>, NormError>)
    ensures r.Success? <==> AllInRange(idx, table)
    ensures r.Failure? ==> r.error == IndexOutOfRange
    ensures r.Success? ==> |r.value| == |idx| && forall k | 0 <= k < |idx| :: r.value[k] == table[idx[k]]
  {
    if AllInRange(idx, table) then
      Success(seq(|idx|, k requires 0 <= k < |idx| => table[idx[k]]))
    else
      Failure(IndexOutOfRange)
  }

  class AvgNumNeighborsNorm {
    const typeNames: seq<TypeName>
    const avgNumNeighbors: AvgSpec
    const normShortcut: bool
    const scatterNormFactor: seq<seq<Factor>>

    /** What the constructor establishes: the fields agree with the configuration. */
    predicate Valid()
    {
      && Init(typeNames, avgNumNeighbors) == Success(scatterNormFactor)
      && normShortcut == (|typeNames| == 1)
    }

    /** The per-type averages, ordered by the type names. */
    function Averages(): (avg: seq<real>)
      requires Valid()
      ensures |avg| == |typeNames| == |scatterNormFactor|
    {
      AvgNumNeighborsList(typeNames, avgNumNeighbors).value
    }

    /** __init__, for a configuration it accepts. */
    constructor (typeNames: seq<TypeName>, avgNumNeighbors: AvgSpec)
      requires Init(typeNames, avgNumNeighbors).Success?
      ensures Valid()
      ensures this.typeNames == typeNames && this.avgNumNeighbors == avgNumNeighbors
      ensures normShortcut <==> |typeNames| == 1
      ensures |scatterNormFactor| == |typeNames|
      ensures forall i | 0 <= i < |typeNames| :: scatterNormFactor[i] == [InverseSqrt(Averages()[i])]
    {
      this.typeNames := typeNames;
      this.avgNumNeighbors := avgNumNeighbors;
      normShortcut := |typeNames| == 1;
      scatterNormFactor := Init(typeNames, avgNumNeighbors).value;
    }

    /** __init__ as a whole: raises for a configuration it does not accept. */
    static method Create(typeNames: seq<TypeName>, avgNumNeighbors: AvgSpec) returns (r: Result<AvgNumNeighborsNorm, NormError>)
      ensures r.Failure? <==> Init(typeNames, avgNumNeighbors).Failure?
      ensures r.Failure? ==> r.error == Init(typeNames, avgNumNeighbors).error
      ensures r.Success? ==> fresh(r.value) && r.value.Valid()
      ensures r.Success? ==> r.value.typeNames == typeNames && r.value.avgNumNeighbors == avgNumNeighbors
    {
      var table := Init(typeNames, avgNumNeighbors);
      if table.Failure? {
        return Failure(table.error);
      }
      var norm := new AvgNumNeighborsNorm(typeNames, avgNumNeighbors);
      return Success(norm);
    }

    /**
     * forward: with one type the factor table itself; otherwise the table row
     * of each of the first num_local_nodes atoms' types.
     */
    function Forward(atomTypes: seq<int>, numLocalNodes: int): (r: Result<seq<seq<Factor>>, NormError>)
      ensures normShortcut ==> r == Success(scatterNormFactor)
      ensures !normShortcut ==> (r.Success? <==> AllInRange(Prefix(atomTypes, numLocalNodes), scatterNormFactor))
      ensures !normShortcut && r.Success? ==>
                && |r.value| == |Prefix(atomTypes, numLocalNodes)|
                && forall k | 0 <= k < |r.value| :: r.value[k] == scatterNormFactor[atomTypes[k]]
    {
      if normShortcut then Success(scatterNormFactor)
      else Embedding(Prefix(atomTypes, numLocalNodes), scatterNormFactor)
    }

    /** Row k of the output is 1/sqrt of the average of atom k's type. */
    lemma ForwardRowIsTypeFactor(atomTypes: seq<int>, numLocalNodes: int, k: nat)
      requires Valid() && !normShortcut
      requires Forward(atomTypes, numLocalNodes).Success?
      requires k < |Forward(atomTypes, numLocalNodes).value|
      ensures 0 <= atomTypes[k] < |typeNames|
      ensures Forward(atomTypes, numLocalNodes).value[k] == [InverseSqrt(Averages()[atomTypes[k]])]
    {
      var idx := Prefix(atomTypes, numLocalNodes);
      assert idx[k] == atomTypes[k];
    }

    /** With a per-type dict, row k is 1/sqrt of the dict's value for atom k's type name. */
    lemma ForwardUsesTypeName(atomTypes: seq<int>, numLocalNodes: int, k: nat)
      requires Valid() && !normShortcut && avgNumNeighbors.DictSpec?
      requires Forward(atomTypes, numLocalNodes).Success?
      requires k < |Forward(atomTypes, numLocalNodes).value|
      ensures 0 <= atomTypes[k] < |typeNames| && typeNames[atomTypes[k]] in avgNumNeighbors.perType
      ensures Forward(atomTypes, numLocalNodes).value[k]
           == [InverseSqrt(avgNumNeighbors.perType[typeNames[atomTypes[k]]])]
    {
      ForwardRowIsTypeFactor(atomTypes, numLocalNodes, k);
    }

    /** Without the shortcut, one output row per local atom (when there are that many atoms). */
    lemma ForwardRowCount(atomTypes: seq<int>, numLocalNodes: int)
      requires !normShortcut && Forward(atomTypes, numLocalNodes).Success?
      requires 0 <= numLocalNodes <= |atomTypes|
      ensures |Forward(atomTypes, numLocalNodes).value| == numLocalNodes
    {
    }

    /**
     * The shortcut is sound: with one type every valid lookup returns the
     * table's only row, which is what the shortcut returns.
     */
    lemma ShortcutMatchesLookup(atomTypes: seq<int>, numLocalNodes: int)
      requires Valid() && normShortcut
      requires AllInRange(Prefix(atomTypes, numLocalNodes), scatterNormFactor)
      ensures Forward(atomTypes, numLocalNodes) == Success(scatterNormFactor)
      ensures |scatterNormFactor| == 1
      ensures var rows := Embedding(Prefix(atomTypes, numLocalNodes), scatterNormFactor);
              rows.Success? && forall k | 0 <= k < |rows.value| :: rows.value[k] == scatterNormFactor[0]
    {
    }
  }

  /** A float and a dict giving that float to every type produce the same list. */
  lemma FloatMatchesUniformDict(typeNames: seq<TypeName>, v: real)
    ensures AvgNumNeighborsList(typeNames, FloatSpec(v))
         == AvgNumNeighborsList(typeNames, DictSpec(map n | n in typeNames :: v))
  {
    var a := AvgNumNeighborsList(typeNames, FloatSpec(v));
    var b := AvgNumNeighborsList(typeNames, DictSpec(map n | n in typeNames :: v));
    assert (map n | n in typeNames :: v).Keys == TypeSet(typeNames);
    assert a.value == b.value;
  }
}
