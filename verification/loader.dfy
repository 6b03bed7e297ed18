/**
 * The environment loader of package `env`: one function per target type,
 * each of which looks a key up in the process environment, trims the
 * surrounding white space, tries a typed conversion and returns either the
 * converted value or the caller's default (its `option`). No loader ever
 * reports an error.
 *
 * The process environment is a parameter: a map from keys to values in
 * which a missing key reads as the empty string, as `os.Getenv` does.
 */
module Loader {
  import opened Wrappers
  import opened Strings
  import opened Strconv

  type Env = map<string, string>

  /** `os.Getenv`: the value of `key`, or "" when it is not set. */
  function Getenv(env: Env, key: string): (r: string)
    ensures key in env ==> r == env[key]
    ensures key !in env ==> r == ""
  {
    if key in env then env[key] else ""
  }

  /** `loadTrimmed`: the value of `key` with surrounding white space
      removed; an unset key reads as "". */
  function LoadTrimmed(env: Env, key: string): (r: string)
    ensures IsTrimmed(r)
    ensures key !in env ==> r == ""
  {
    TrimSpace(Getenv(env, key))
  }

  /** The trimmed value is empty exactly when the key is unset or its
      value is blank, and otherwise is the raw value stripped of the white
      space around it. */
  lemma LoadTrimmedStrips(env: Env, key: string, p: string, s: string, q: string)
    ensures LoadTrimmed(env, key) == "" <==> key !in env || AllSpace(env[key])
    ensures AllSpace(p) && AllSpace(q) && IsTrimmed(s) ==> LoadTrimmed(env[key := p + s + q], key) == s
  {
    if AllSpace(p) && AllSpace(q) && IsTrimmed(s) {
      TrimSpaceStripsPadding(p, s, q);
    }
  }

  /** `LoadInt`: the value of `key` read as a base-10 int64, or `option`
      when the trimmed value is blank, is not an optionally signed run of
      digits, or lies outside the int64 range. */
  function LoadInt(env: Env, key: string, option: int64): (r: int64)
    ensures LoadTrimmed(env, key) == "" ==> r == option
    ensures var v := LoadTrimmed(env, key);
      IsDecimal(v) && InInt64(DecimalValue(v)) ==> r as int == DecimalValue(v)
    ensures var v := LoadTrimmed(env, key);
      !(IsDecimal(v) && InInt64(DecimalValue(v))) ==> r == option
  {
    var envVar := LoadTrimmed(env, key);
    if envVar != "" then
      match ParseInt(envVar)
      case Err(_) => option
      case Ok(val) => val
    else
      option
  }

  /** `LoadFloat`, with `strconv.ParseFloat(s, 64)` given as the parameter
      `parseFloat` (`None` for an error): the parsed trimmed value, or
      `option` when the trimmed value is blank or does not parse. */
  function LoadFloat<F>(env: Env, key: string, option: F, parseFloat: string -> Option<F>): (r: F)
    ensures LoadTrimmed(env, key) == "" ==> r == option
    ensures var v := LoadTrimmed(env, key);
      v != "" && parseFloat(v).Some? ==> r == parseFloat(v).value
    ensures parseFloat(LoadTrimmed(env, key)).None? ==> r == option
  {
    var envVar := LoadTrimmed(env, key);
    if envVar != "" then
      match parseFloat(envVar)
      case None => option
      case Some(val) => val
    else
      option
  }

  /** `LoadBool`: true for exactly "true", false for exactly "false"
      (case-sensitive, after trimming), and `option` for anything else. */
  function LoadBool(env: Env, key: string, option: bool): (r: bool)
    ensures LoadTrimmed(env, key) == "true" ==> r
    ensures LoadTrimmed(env, key) == "false" ==> !r
    ensures LoadTrimmed(env, key) != "true" && LoadTrimmed(env, key) != "false" ==> r == option
  {
    var envVar := LoadTrimmed(env, key);
    assert "true" != "false" by { assert "true"[0] != "false"[0]; }
    if envVar != "" then
      if envVar == "true" then true
      else if envVar == "false" then false
      else option
    else
      option
  }

  /** `LoadString`: the trimmed value when it is not empty, `option`
      otherwise. Whatever comes from the environment is trimmed. */
  function LoadString(env: Env, key: string, option: string): (r: string)
    ensures LoadTrimmed(env, key) != "" ==> r == LoadTrimmed(env, key)
    ensures LoadTrimmed(env, key) == "" ==> r == option
    ensures r != option ==> r != "" && IsTrimmed(r)
  {
    var envVar := LoadTrimmed(env, key);
    if envVar != "" then envVar else option
  }

  // ---------------------------------------------------------------------
  // LoadArray

  /** The entries `LoadArray` collects from `pieces`: each non-empty piece,
      trimmed, in order. The emptiness test comes before the trimming, so a
      piece of white space only is kept, as "". */
  function Entries(pieces: seq<string>): (entries: seq<string>)
    ensures |entries| <= |pieces|
    ensures forall k :: 0 <= k < |entries| ==> IsTrimmed(entries[k])
  {
    if pieces == [] then []
    else
      var last := pieces[|pieces| - 1];
      Entries(pieces[..|pieces| - 1]) + (if last != "" then [TrimSpace(last)] else [])
  }

  /** The positions of the non-empty pieces, in increasing order: exactly
      the positions `j` with `pieces[j] != ""`, each once. */
  function NonEmptyPositions(pieces: seq<string>): (positions: seq<nat>)
    ensures forall k :: 0 <= k < |positions| ==> positions[k] < |pieces| && pieces[positions[k]] != ""
    ensures forall k, l :: 0 <= k < l < |positions| ==> positions[k] < positions[l]
    ensures forall j :: 0 <= j < |pieces| && pieces[j] != "" ==> j in positions
  {
    if pieces == [] then []
    else
      var n := |pieces| - 1;
      NonEmptyPositions(pieces[..n]) + (if pieces[n] != "" then [n] else [])
  }

  /** One more piece adds at most one entry at the end. */
  lemma EntriesStep(pieces: seq<string>, i: nat)
    requires i < |pieces|
    ensures Entries(pieces[..i + 1])
         == Entries(pieces[..i]) + (if pieces[i] != "" then [TrimSpace(pieces[i])] else [])
  {
    assert pieces[..i + 1][..i] == pieces[..i];
  }

  /** What `LoadArray` returns: the entries of the split trimmed value when
      there is at least one, `option` otherwise. */
  function ArrayValue(env: Env, key: string, separator: string, option: seq<string>): (r: seq<string>)
    ensures r == option || |r| > 0
    ensures r != option ==> forall k :: 0 <= k < |r| ==> IsTrimmed(r[k])
  {
    var entries := Entries(Split(LoadTrimmed(env, key), separator));
    if |entries| > 0 then entries else option
  }

  /** `LoadArray`: splits the trimmed value on `separator` and appends each
      non-empty piece, trimmed, to the entries. */
  method LoadArray(env: Env, key: string, separator: string, option: seq<string>)
      returns (r: seq<string>)
    ensures r == ArrayValue(env, key, separator, option)
  {
    var val := Split(LoadTrimmed(env, key), separator);
    var entries: seq<string> := [];
    for i := 0 to |val|
      invariant entries == Entries(val[..i])
    {
      EntriesStep(val, i);
      if val[i] != "" {
        entries := entries + [TrimSpace(val[i])];
      }
    }
    assert val[..|val|] == val;
    if |entries| > 0 {
      return entries;
    }
    return option;
  }

  // ---------------------------------------------------------------------
  // Properties of LoadArray

  /** Element `k` of the entries is the `k`-th non-empty piece, trimmed;
      there are as many entries as non-empty pieces. */
  lemma {:induction false} EntriesAreTrimmedPieces(pieces: seq<string>)
    ensures |Entries(pieces)| == |NonEmptyPositions(pieces)|
    ensures forall k :: 0 <= k < |Entries(pieces)| ==>
      Entries(pieces)[k] == TrimSpace(pieces[NonEmptyPositions(pieces)[k]])
  {
    if pieces != [] {
      var n := |pieces| - 1;
      var init := pieces[..n];
      EntriesAreTrimmedPieces(init);
      var entries, positions := Entries(pieces), NonEmptyPositions(pieces);
      forall k | 0 <= k < |entries|
        ensures entries[k] == TrimSpace(pieces[positions[k]])
      {
        if k < |Entries(init)| {
          var j := NonEmptyPositions(init)[k];
          assert positions[k] == j && init[j] == pieces[j];
        }
      }
    }
  }

  /** There are no entries exactly when every piece is empty. */
  lemma {:induction false} EntriesEmpty(pieces: seq<string>)
    ensures Entries(pieces) == [] <==> AllEmpty(pieces)
  {
    if pieces != [] {
      var n := |pieces| - 1;
      var init := pieces[..n];
      EntriesEmpty(init);
      assert Entries(pieces) == Entries(init) + (if pieces[n] != "" then [TrimSpace(pieces[n])] else []);
      assert AllEmpty(pieces) <==> AllEmpty(init) && pieces[n] == "" by {
        assert forall j :: 0 <= j < n ==> init[j] == pieces[j];
      }
    }
  }

  /** `LoadArray` returns its default exactly when every piece of the split
      trimmed value is empty. */
  lemma ArrayValueDefaultIffEmptyPieces(env: Env, key: string, separator: string)
    ensures Entries(Split(LoadTrimmed(env, key), separator)) == []
        <==> AllEmpty(Split(LoadTrimmed(env, key), separator))
  {
    EntriesEmpty(Split(LoadTrimmed(env, key), separator));
  }

  /** Equivalently, exactly when the trimmed value is nothing but
      separators, one fewer than there are pieces (none at all included). */
  lemma ArrayValueDefaultIffSeparators(env: Env, key: string, separator: string)
    requires separator != []
    ensures var pieces := Split(LoadTrimmed(env, key), separator);
      Entries(pieces) == [] <==> LoadTrimmed(env, key) == Repeat(separator, |pieces| - 1)
  {
    var v := LoadTrimmed(env, key);
    var pieces := Split(v, separator);
    EntriesEmpty(pieces);
    SplitAllEmpty(v, separator);
    assert Entries(pieces) == [] <==> AllEmpty(pieces);
    assert AllEmpty(pieces) <==> v == Repeat(separator, |pieces| - 1);
  }

  /** An unset or blank variable gives the default list: splitting ""
      yields the single piece "", which is dropped, or, on an empty
      separator, no piece at all. */
  lemma ArrayValueBlank(env: Env, key: string, separator: string, option: seq<string>)
    requires LoadTrimmed(env, key) == ""
    ensures ArrayValue(env, key, separator, option) == option
  {
    if separator == [] {
      assert Split("", separator) == [];
    } else {
      assert Split("", separator) == [""];
    }
  }

  /** `Entries` of a concatenation: the entries of each part, in order. */
  lemma {:induction false} EntriesConcat(a: seq<string>, b: seq<string>)
    ensures Entries(a + b) == Entries(a) + Entries(b)
    decreases |b|
  {
    if b == [] {
      assert a + b == a;
    } else {
      var n := |b| - 1;
      var kept := if b[n] != "" then [TrimSpace(b[n])] else [];
      EntriesConcat(a, b[..n]);
      assert (a + b)[..|a + b| - 1] == a + b[..n];
      assert (a + b)[|a + b| - 1] == b[n];
      assert Entries(a + b) == Entries(a + b[..n]) + kept;
      assert Entries(b) == Entries(b[..n]) + kept;
      assert Entries(a) + Entries(b[..n]) + kept == Entries(a) + (Entries(b[..n]) + kept);
    }
  }

  /** A single character, as a piece of its own, is one entry. */
  lemma EntriesOfChar(c: char)
    ensures Entries([[c]]) == [TrimSpace([c])]
  {
    assert [[c]][..0] == [];
  }

  /** Each character, as a piece of its own, is an entry. */
  lemma {:induction false} EntriesExplode(s: string)
    ensures |Entries(Explode(s))| == |s|
    ensures forall k :: 0 <= k < |s| ==> Entries(Explode(s))[k] == TrimSpace([s[k]])
    decreases |s|
  {
    if s != [] {
      var rest := s[1..];
      EntriesExplode(rest);
      var tail := Entries(Explode(rest));
      assert Explode(s) == [[s[0]]] + Explode(rest);
      EntriesConcat([[s[0]]], Explode(rest));
      EntriesOfChar(s[0]);
      var entries := Entries(Explode(s));
      assert entries == [TrimSpace([s[0]])] + tail;
      forall k | 0 <= k < |s|
        ensures entries[k] == TrimSpace([s[k]])
      {
        if k > 0 {
          assert entries[k] == tail[k - 1];
          assert s[k] == rest[k - 1];
        }
      }
    }
  }

  /** With an empty separator, as with `strings.Split`, every character of
      a non-blank value is an entry of its own, trimmed, so a white-space
      character becomes "". */
  lemma ArrayValueCharacters(env: Env, key: string, option: seq<string>)
    requires LoadTrimmed(env, key) != ""
    ensures |ArrayValue(env, key, "", option)| == |LoadTrimmed(env, key)|
    ensures forall k :: 0 <= k < |LoadTrimmed(env, key)| ==>
      ArrayValue(env, key, "", option)[k] == TrimSpace([LoadTrimmed(env, key)[k]])
  {
    EntriesExplode(LoadTrimmed(env, key));
  }

  // ---------------------------------------------------------------------
  // Independence from surrounding white space, and round trips

  /** Every loader reads the same value whether or not the raw value
      carries extra white space around it. */
  lemma LoadersIgnorePadding(env: Env, key: string, p: string, s: string, q: string,
                             intOption: int64, boolOption: bool, stringOption: string)
    requires AllSpace(p) && AllSpace(q)
    ensures LoadTrimmed(env[key := p + s + q], key) == LoadTrimmed(env[key := s], key)
    ensures LoadInt(env[key := p + s + q], key, intOption) == LoadInt(env[key := s], key, intOption)
    ensures LoadBool(env[key := p + s + q], key, boolOption) == LoadBool(env[key := s], key, boolOption)
    ensures LoadString(env[key := p + s + q], key, stringOption)
         == LoadString(env[key := s], key, stringOption)
  {
    TrimSpacePadded(p, s, q);
  }

  lemma LoadFloatIgnoresPadding<F>(env: Env, key: string, p: string, s: string, q: string,
                                   option: F, parseFloat: string -> Option<F>)
    requires AllSpace(p) && AllSpace(q)
    ensures LoadFloat(env[key := p + s + q], key, option, parseFloat)
         == LoadFloat(env[key := s], key, option, parseFloat)
  {
    TrimSpacePadded(p, s, q);
  }

  lemma LoadArrayIgnoresPadding(env: Env, key: string, p: string, s: string, q: string,
                                separator: string, option: seq<string>)
    requires AllSpace(p) && AllSpace(q)
    ensures ArrayValue(env[key := p + s + q], key, separator, option)
         == ArrayValue(env[key := s], key, separator, option)
  {
    TrimSpacePadded(p, s, q);
  }

  /** Setting a variable to the decimal rendering of any int64, padded with
      any white space, makes `LoadInt` return that integer. */
  lemma LoadIntRoundTrip(env: Env, key: string, n: int64, option: int64, p: string, q: string)
    requires AllSpace(p) && AllSpace(q)
    ensures LoadInt(env[key := p + FormatInt(n) + q], key, option) == n
  {
    var s := FormatInt(n);
    FormatIntIsDecimal(n);
    assert IsTrimmed(s) by {
      var u := Unsigned(s);
      assert !IsSpace(s[|s| - 1]) by {
        assert s[|s| - 1] == u[|u| - 1];
      }
    }
    TrimSpaceStripsPadding(p, s, q);
  }

  /** Setting a variable to the rendering of a boolean, padded with any
      white space, makes `LoadBool` return it. */
  lemma LoadBoolRoundTrip(env: Env, key: string, b: bool, option: bool, p: string, q: string)
    requires AllSpace(p) && AllSpace(q)
    ensures LoadBool(env[key := p + FormatBool(b) + q], key, option) == b
  {
    TrimSpaceStripsPadding(p, FormatBool(b), q);
  }

  /** A non-empty trimmed string stored with any white-space padding is
      what `LoadString` returns. */
  lemma LoadStringRoundTrip(env: Env, key: string, s: string, option: string, p: string, q: string)
    requires AllSpace(p) && AllSpace(q) && s != "" && IsTrimmed(s)
    ensures LoadString(env[key := p + s + q], key, option) == s
  {
    TrimSpaceStripsPadding(p, s, q);
  }

  /** A float that `parseFloat` reads from a trimmed text is what
      `LoadFloat` returns for any white-space padding of that text. */
  lemma LoadFloatRoundTrip<F>(env: Env, key: string, s: string, x: F, option: F,
                              parseFloat: string -> Option<F>, p: string, q: string)
    requires AllSpace(p) && AllSpace(q) && s != "" && IsTrimmed(s) && parseFloat(s) == Some(x)
    ensures LoadFloat(env[key := p + s + q], key, option, parseFloat) == x
  {
    TrimSpaceStripsPadding(p, s, q);
  }
}
