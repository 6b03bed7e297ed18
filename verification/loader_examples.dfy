/** Concrete cases of the loader's contracts, matching the cases that
    loader_test.go exercises, plus the two list cases that show how
    `LoadArray` treats blank pieces. */
module LoaderExamples {
  import opened Wrappers
  import opened Strings
  import opened Strconv
  import opened Loader

  const Key := "ENV"

  /** Splitting on a one-character separator at its first occurrence. */
  lemma SplitAtChar(s: string, sep: string, i: nat)
    requires |sep| == 1 && i < |s| && s[i] == sep[0]
    requires forall j :: 0 <= j < i ==> s[j] != sep[0]
    ensures Split(s, sep) == [s[..i]] + Split(s[i + 1..], sep)
  {
    assert sep == [sep[0]];
    IndexOfChar(s, sep[0], i);
  }

  /** Splitting on a one-character separator that does not occur. */
  lemma SplitWithoutChar(s: string, sep: string)
    requires |sep| == 1 && forall j :: 0 <= j < |s| ==> s[j] != sep[0]
    ensures Split(s, sep) == [s]
  {
    assert sep == [sep[0]];
    IndexOfAbsentChar(s, sep[0]);
  }

  /** A value with no surrounding white space is read as it is. */
  lemma ReadsAsIs(v: string)
    requires IsTrimmed(v)
    ensures LoadTrimmed(map[Key := v], Key) == v
  {
    TrimSpaceTrimmed(v);
  }

  lemma LoadTrimmedBlankExample()
    ensures LoadTrimmed(map[Key := ""], Key) == ""
  {
  }

  lemma LoadTrimmedValueExample()
    ensures LoadTrimmed(map[Key := "VALUE1"], Key) == "VALUE1"
  {
    ReadsAsIs("VALUE1");
  }

  /** `TrimSpace` keeps what lies between the white space at either end. */
  lemma TrimBetween(v: string, a: nat, b: nat)
    requires a < b <= |v| && SpaceBetween(v, 0, a) && SpaceBetween(v, b, |v|)
    requires !IsSpace(v[a]) && !IsSpace(v[b - 1])
    ensures TrimSpace(v) == v[a..b]
  {
    SkipSpaceUnique(v, 0, a);
    BackSpaceUnique(v, a, |v|, b);
  }

  lemma LoadTrimmedStripsExample()
    ensures LoadTrimmed(map[Key := "    VALUE2   "], Key) == "VALUE2"
  {
    var v := "    VALUE2   ";
    assert v[4..10] == "VALUE2";
    TrimBetween(v, 4, 10);
  }

  lemma LoadTrimmedOtherValueExample()
    ensures LoadTrimmed(map[Key := "    VALUE3   "], Key) != "VALUE2"
  {
    var v := "    VALUE3   ";
    TrimBetween(v, 4, 10);
    assert v[4..10][5] != "VALUE2"[5];
  }

  lemma LoadIntBlankExample()
    ensures LoadInt(map[Key := ""], Key, 20) == 20
  {
  }

  lemma LoadIntExample()
    ensures LoadInt(map[Key := "300"], Key, 20) == 300
  {
    assert FormatInt(300) == "300";
    LoadIntRoundTrip(map[], Key, 300, 20, "", "");
    assert "" + "300" + "" == "300";
    assert map[][Key := "300"] == map[Key := "300"];
  }

  lemma LoadIntMalformedExample()
    ensures LoadInt(map[Key := "A300"], Key, 20) == 20
  {
    ReadsAsIs("A300");
    assert !IsDigit("A300"[0]);
  }

  lemma LoadBoolBlankExample()
    ensures LoadBool(map[Key := ""], Key, true) == true
  {
  }

  lemma LoadBoolExample()
    ensures LoadBool(map[Key := "true"], Key, true) == true
  {
    ReadsAsIs("true");
  }

  /** The same value against the other default, so the result cannot be
      the default. */
  lemma LoadBoolOverridesDefaultExample()
    ensures LoadBool(map[Key := "true"], Key, false) == true
  {
    ReadsAsIs("true");
  }

  lemma LoadBoolMalformedExample()
    ensures LoadBool(map[Key := "t"], Key, true) == true
  {
    ReadsAsIs("t");
  }

  lemma LoadStringBlankExample()
    ensures LoadString(map[Key := ""], Key, "default") == "default"
  {
  }

  lemma LoadStringExample()
    ensures LoadString(map[Key := "environment_value"], Key, "default") == "environment_value"
  {
    ReadsAsIs("environment_value");
  }

  lemma LoadFloatBlankExample<F>(option: F, parseFloat: string -> Option<F>)
    ensures LoadFloat(map[Key := ""], Key, option, parseFloat) == option
  {
  }

  /** Whatever value the float parser gives "300", `LoadFloat` returns it. */
  lemma LoadFloatExample<F>(x: F, option: F, parseFloat: string -> Option<F>)
    requires parseFloat("300") == Some(x)
    ensures LoadFloat(map[Key := "300"], Key, option, parseFloat) == x
  {
    ReadsAsIs("300");
  }

  /** When the float parser rejects "A300", `LoadFloat` returns the default. */
  lemma LoadFloatMalformedExample<F>(option: F, parseFloat: string -> Option<F>)
    requires parseFloat("A300") == None
    ensures LoadFloat(map[Key := "A300"], Key, option, parseFloat) == option
  {
    ReadsAsIs("A300");
  }

  lemma SplitHello()
    ensures Split("hello, world", ",") == ["hello"] + Split(" world", ",")
  {
    var s := "hello, world";
    assert s[..5] == "hello" && s[6..] == " world";
    SplitAtChar(s, ",", 5);
  }

  lemma SplitHelloWorld()
    ensures Split("hello, world", ",") == ["hello", " world"]
  {
    assert Split(" world", ",") == [" world"] by {
      SplitWithoutChar(" world", ",");
    }
    SplitHello();
  }

  lemma TrimWorld()
    ensures TrimSpace(" world") == "world"
  {
    TrimBetween(" world", 1, 6);
    assert " world"[1..6] == "world";
  }

  lemma EntriesHelloWorld()
    ensures Entries(["hello", " world"]) == ["hello", "world"]
  {
    TrimSpaceTrimmed("hello");
    TrimWorld();
    var pieces := ["hello", " world"];
    assert pieces[..1] == ["hello"];
    assert Entries(["hello"]) == ["hello"];
  }

  /** "hello, world" split on "," gives ["hello", "world"]. */
  lemma LoadArrayExample()
    ensures ArrayValue(map[Key := "hello, world"], Key, ",", ["default", "value"]) == ["hello", "world"]
  {
    ReadsAsIs("hello, world");
    SplitHelloWorld();
    EntriesHelloWorld();
  }

  lemma SplitABlankB()
    ensures Split("a, ,b", ",") == ["a"] + Split(" ,b", ",")
  {
    SplitAtChar("a, ,b", ",", 1);
    assert "a, ,b"[..1] == "a" && "a, ,b"[2..] == " ,b";
  }

  lemma SplitBlankPiece()
    ensures Split("a, ,b", ",") == ["a", " ", "b"]
  {
    assert Split("b", ",") == ["b"] by {
      SplitWithoutChar("b", ",");
    }
    assert Split(" ,b", ",") == [" "] + Split("b", ",") by {
      SplitAtChar(" ,b", ",", 1);
      assert " ,b"[..1] == " " && " ,b"[2..] == "b";
    }
    SplitABlankB();
  }

  lemma EntriesBlankPiece()
    ensures Entries(["a", " ", "b"]) == ["a", "", "b"]
  {
    var pieces := ["a", " ", "b"];
    TrimSpaceTrimmed("a");
    TrimSpaceTrimmed("b");
    assert TrimSpace(" ") == "" by {
      assert AllSpace(" ");
    }
    assert pieces[..2] == ["a", " "];
    assert ["a", " "][..1] == ["a"];
  }

  /** A piece of white space only is kept, as "". */
  lemma LoadArrayKeepsBlankPiece()
    ensures ArrayValue(map[Key := "a, ,b"], Key, ",", ["default"]) == ["a", "", "b"]
  {
    ReadsAsIs("a, ,b");
    SplitBlankPiece();
    EntriesBlankPiece();
  }

  /** A separator that overlaps itself is cut at its leftmost occurrence. */
  lemma SplitOverlapping()
    ensures Split("a,,,b", ",,") == ["a", ",b"]
  {
    var s := "a,,,b";
    assert Index(s, ",,") == Some(1) by {
      assert s[1..3] == ",,";
      assert s[0..2][0] == 'a';
      IndexIs(s, ",,", 1);
    }
    assert s[..1] == "a" && s[3..] == ",b";
    assert Index(",b", ",,") == None by {
      assert ",b"[0..2][1] == 'b';
    }
  }

  /** "a,,,b" split on ",," loads as ["a", ",b"]: the first two commas
      separate, the third stays in the second entry. */
  lemma LoadArrayOverlappingSeparator()
    ensures ArrayValue(map[Key := "a,,,b"], Key, ",,", ["default"]) == ["a", ",b"]
  {
    ReadsAsIs("a,,,b");
    SplitOverlapping();
    TrimSpaceTrimmed("a");
    TrimSpaceTrimmed(",b");
    var pieces := ["a", ",b"];
    assert pieces[..1] == ["a"];
  }

  /** A value made only of separators gives the default. */
  lemma LoadArraySeparatorsOnly()
    ensures ArrayValue(map[Key := ",,"], Key, ",", ["default"]) == ["default"]
  {
    var v := ",,";
    ReadsAsIs(v);
    assert v == Repeat(",", 2);
    SplitRepeat(",", 2);
    EntriesEmpty(Split(v, ","));
  }
}
