/**
 * The documented behaviour of the cutoff conversions on small concrete
 * configurations, stated as lemmas about the model.
 */
module CutoffExamples {
  import opened Wrappers
  import opened FloatText
  import opened Tokens
  import opened TypeNames
  import opened CutoffSpec

  /** n tenths, e.g. Tenths(45) is 4.5. */
  function Tenths(n: nat): Num
  {
    Decimal(n, 1)
  }

  /** Two types: a uniform source row, a per-target row, and the reload gives the same dictionary. */
  lemma TwoTypes()
    ensures var names := ["C", "O"];
            var partial := map["C" := Uniform(Tenths(50)), "O" := PerTarget(map["C" := Tenths(55), "O" := Tenths(60)])];
            var full := PartialDictToFullDict(partial, names, Tenths(60));
            && full["C"]["C"] == Tenths(50) && full["C"]["O"] == Tenths(50)
            && full["O"]["C"] == Tenths(55) && full["O"]["O"] == Tenths(60)
            && FullDictToTensor(full, names).Success?
            && StrToFullDict(Some(TensorToStr(FullDictToTensor(full, names).value)), names) == Success(Some(full))
  {
    var partial := map["C" := Uniform(Tenths(50)), "O" := PerTarget(map["C" := Tenths(55), "O" := Tenths(60)])];
    PipelineRoundTrip(partial, ["C", "O"], Tenths(60));
  }

  /** Three types with a mixed float and dict configuration: the reload gives the same dictionary. */
  lemma ThreeTypes()
    ensures var names := ["H", "C", "O"];
            var partial := map["H" := Uniform(Tenths(20)),
                               "C" := PerTarget(map["H" := Tenths(40), "C" := Tenths(35), "O" := Tenths(37)]),
                               "O" := Uniform(Tenths(39))];
            var full := PartialDictToFullDict(partial, names, Tenths(50));
            && FullDictToTensor(full, names).Success?
            && StrToFullDict(Some(TensorToStr(FullDictToTensor(full, names).value)), names) == Success(Some(full))
  {
    var partial := map["H" := Uniform(Tenths(20)),
                       "C" := PerTarget(map["H" := Tenths(40), "C" := Tenths(35), "O" := Tenths(37)]),
                       "O" := Uniform(Tenths(39))];
    PipelineRoundTrip(partial, ["H", "C", "O"], Tenths(50));
  }

  /** Source types absent from the configuration get r_max for every target. */
  lemma MissingSourcesDefault()
    ensures var full := PartialDictToFullDict(map["H" := Uniform(Tenths(20))], ["H", "C", "O"], Tenths(50));
            full.Keys == {"H", "C", "O"} && forall s | s in full :: full[s].Keys == {"H", "C", "O"}
    ensures var full := PartialDictToFullDict(map["H" := Uniform(Tenths(20))], ["H", "C", "O"], Tenths(50));
            && full["H"]["H"] == Tenths(20) && full["H"]["C"] == Tenths(20) && full["H"]["O"] == Tenths(20)
            && full["C"]["H"] == Tenths(50) && full["C"]["C"] == Tenths(50) && full["C"]["O"] == Tenths(50)
            && full["O"]["H"] == Tenths(50) && full["O"]["C"] == Tenths(50) && full["O"]["O"] == Tenths(50)
  {
    var names := ["H", "C", "O"];
    assert TypeSet(names) == {"H", "C", "O"} by {
      assert "H" in names && "C" in names && "O" in names;
    }
    assert "H" != "C" && "H" != "O" && "C" != "O";
  }

  /** Targets absent from a per-target entry get r_max; a fully listed row and a uniform row keep their values. */
  lemma MissingTargetsDefault()
    ensures var names := ["H", "C", "O"];
            var partial := map["H" := PerTarget(map["C" := Tenths(20)]),
                               "C" := PerTarget(map["H" := Tenths(30), "C" := Tenths(35), "O" := Tenths(37)]),
                               "O" := Uniform(Tenths(39))];
            var full := PartialDictToFullDict(partial, names, Tenths(40));
            && full["H"]["H"] == Tenths(40) && full["H"]["C"] == Tenths(20) && full["H"]["O"] == Tenths(40)
            && full["C"]["H"] == Tenths(30) && full["C"]["C"] == Tenths(35) && full["C"]["O"] == Tenths(37)
            && full["O"]["H"] == Tenths(39) && full["O"]["C"] == Tenths(39) && full["O"]["O"] == Tenths(39)
  {
    var names := ["H", "C", "O"];
    assert "H" in names && "C" in names && "O" in names;
    assert "H" != "C" && "H" != "O" && "C" != "O";
  }

  /** A single type, given as a float or as a one-entry dict, gives the same dictionary. */
  lemma SingleType()
    ensures PartialDictToFullDict(map["O" := Uniform(Tenths(20))], ["O"], Tenths(40))
         == map["O" := map["O" := Tenths(20)]]
    ensures PartialDictToFullDict(map["O" := PerTarget(map["O" := Tenths(20)])], ["O"], Tenths(40))
         == map["O" := map["O" := Tenths(20)]]
  {
    var names := ["O"];
    assert TypeSet(names) == {"O"} by {
      assert "O" in names;
    }
    var a := PartialDictToFullDict(map["O" := Uniform(Tenths(20))], names, Tenths(40));
    assert a.Keys == {"O"} && a["O"].Keys == {"O"};
    assert a["O"] == map["O" := Tenths(20)];
    var b := PartialDictToFullDict(map["O" := PerTarget(map["O" := Tenths(20)])], names, Tenths(40));
    assert b.Keys == {"O"} && b["O"].Keys == {"O"};
    assert b["O"] == map["O" := Tenths(20)];
  }

  /** A target type in the configuration but not in the type names does not appear in the result. */
  lemma ExtraTypesIgnored()
    ensures var names := ["H", "C", "O"];
            var partial := map["H" := Uniform(Tenths(20)),
                               "C" := PerTarget(map["H" := Tenths(40), "C" := Tenths(35), "O" := Tenths(37), "N" := Tenths(37)]),
                               "O" := Uniform(Tenths(39))];
            var full := PartialDictToFullDict(partial, names, Tenths(40));
            full.Keys == {"H", "C", "O"} && forall s | s in full :: full[s].Keys == {"H", "C", "O"}
  {
    var names := ["H", "C", "O"];
    assert TypeSet(names) == {"H", "C", "O"} by {
      assert "H" in names && "C" in names && "O" in names;
    }
  }

  /** The tensor is N by N with rows indexed by source type. */
  lemma TensorLayout()
    ensures var full := map["C" := map["C" := Tenths(50), "O" := Tenths(45)], "O" := map["C" := Tenths(45), "O" := Tenths(60)]];
            FullDictToTensor(full, ["C", "O"]) == Success(Matrix([[Tenths(50), Tenths(45)], [Tenths(45), Tenths(60)]]))
  {
    var names := ["C", "O"];
    var full := map["C" := map["C" := Tenths(50), "O" := Tenths(45)], "O" := map["C" := Tenths(45), "O" := Tenths(60)]];
    forall i, j | 0 <= i < |names| && 0 <= j < |names|
      ensures names[i] in full && names[j] in full[names[i]]
    {
    }
    assert HasAllPairs(full, names);
    var rows := FullDictToTensor(full, names).value.rows;
    assert rows[0] == [Tenths(50), Tenths(45)] by {
      assert rows[0][0] == full["C"]["C"] && rows[0][1] == full["C"]["O"];
    }
    assert rows[1] == [Tenths(45), Tenths(60)] by {
      assert rows[1][0] == full["O"]["C"] && rows[1][1] == full["O"]["O"];
    }
    assert rows == [[Tenths(50), Tenths(45)], [Tenths(45), Tenths(60)]];
  }

  /** A value below 10 with one decimal is written as its two digits around the point. */
  lemma FormatTenths(n: nat)
    requires n < 100
    ensures Format(Tenths(n)) == [DigitChar(n / 10), '.', DigitChar(n % 10)]
  {
    assert Pow10(1) == 10;
    assert WholePart(Tenths(n)) == n / 10;
    assert NumDigits(n / 10) == 1;
    assert FixedDigits(n / 10, 1) == [DigitChar(n / 10 % 10)];
  }

  /** The row-major entries of a two-by-two matrix. */
  lemma FlattenTwoByTwo(a: Num, b: Num, c: Num, e: Num)
    ensures Flatten([[a, b], [c, e]]) == [a, b, c, e]
  {
    var rows := [[a, b], [c, e]];
    assert Flatten(rows[1..]) == [c, e] + Flatten(rows[2..]);
  }

  /** Four tokens joined by single spaces. */
  lemma JoinFour(a: string, b: string, c: string, e: string)
    ensures Join([a, b, c, e]) == a + " " + b + " " + c + " " + e
  {
    var toks := [a, b, c, e];
    assert toks[1..][1..] == [c, e];
    assert toks[1..][1..][1..] == [e];
    assert Join([c, e]) == c + " " + e;
    assert Join([b, c, e]) == b + " " + (c + " " + e);
    assert Join(toks) == a + " " + (b + " " + (c + " " + e));
  }

  /** The string of a two-by-two matrix: its four entries' texts in row-major order. */
  lemma TwoByTwoToStr(a: Num, b: Num, c: Num, e: Num, ta: string, tb: string, tc: string, te: string)
    requires Format(a) == ta && Format(b) == tb && Format(c) == tc && Format(e) == te
    ensures TensorToStr(Matrix([[a, b], [c, e]])) == ta + " " + tb + " " + tc + " " + te
  {
    FlattenTwoByTwo(a, b, c, e);
    assert FormatAll([a, b, c, e]) == [ta, tb, tc, te];
    JoinFour(ta, tb, tc, te);
  }

  /** The string is the row-major entries separated by single spaces. */
  lemma StrFormat()
    ensures TensorToStr(Matrix([[Tenths(50), Tenths(45)], [Tenths(45), Tenths(60)]])) == "5.0 4.5 4.5 6.0"
  {
    var text := "5.0" + " " + "4.5" + " " + "4.5" + " " + "6.0";
    assert text == "5.0 4.5 4.5 6.0";
    assert TensorToStr(Matrix([[Tenths(50), Tenths(45)], [Tenths(45), Tenths(60)]])) == text by {
      assert Format(Tenths(50)) == "5.0" by { FormatTenths(50); }
      assert Format(Tenths(45)) == "4.5" by { FormatTenths(45); }
      assert Format(Tenths(60)) == "6.0" by { FormatTenths(60); }
      TwoByTwoToStr(Tenths(50), Tenths(45), Tenths(45), Tenths(60), "5.0", "4.5", "4.5", "6.0");
    }
  }

  /** A scalar is written as its one value. */
  lemma ScalarFormat()
    ensures TensorToStr(Scalar(Tenths(50))) == "5.0"
  {
    ScalarToStr(Tenths(50));
    FormatTenths(50);
  }

  /** An empty or absent string gives no dictionary. */
  lemma EmptyStrIsNone()
    ensures StrToFullDict(Some(""), ["C", "O"]) == Success(None)
    ensures StrToFullDict(None, ["C", "O"]) == Success(None)
  {
  }

  /** Three tokens joined by single spaces split back into those tokens. */
  lemma WordsOfThree(a: string, b: string, c: string)
    requires IsWord(a) && IsWord(b) && IsWord(c)
    ensures Words(a + " " + b + " " + c) == [a, b, c]
  {
    var toks := [a, b, c];
    assert toks[1..][1..] == [c];
    assert Join([b, c]) == b + " " + c;
    assert Join(toks) == a + " " + (b + " " + c);
    assert a + " " + (b + " " + c) == a + " " + b + " " + c;
    WordsJoin(toks);
  }

  /** Three values for two types is an error that names both counts. */
  lemma WrongCount()
    ensures StrToFullDict(Some("5.0 4.5 6.0"), ["C", "O"]) == Failure(CountMismatch(4, 3))
  {
    var s := "5.0 4.5 6.0";
    assert |Words(s)| == 3 by {
      assert IsWord("5.0") && IsWord("4.5") && IsWord("6.0");
      WordsOfThree("5.0", "4.5", "6.0");
      assert "5.0" + " " + "4.5" + " " + "6.0" == s;
    }
    assert s != "";
  }

  /** A C-C radius of 5.0 above r_max 4.0 is refused. */
  lemma ExceedsRMaxFails()
    ensures PartialDictToTensor(map["H" := Uniform(Tenths(20)), "C" := PerTarget(map["H" := Tenths(30), "C" := Tenths(50)])],
                                ["H", "C"], Tenths(40)).Failure?
  {
    var partial := map["H" := Uniform(Tenths(20)), "C" := PerTarget(map["H" := Tenths(30), "C" := Tenths(50)])];
    assert Pow10(1) == 10;
    assert Value(Resolve(partial, Tenths(40), "C", "C")) > Value(Tenths(40));
    assert "C" in ["H", "C"];
  }
}
