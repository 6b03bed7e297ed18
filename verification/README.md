# Environment loader (package `env`)

A Dafny model of the Go package `env` (`loader.go`). The package reads
configuration from process environment variables. For each target type it
has one loader: `LoadInt`, `LoadFloat`, `LoadBool`, `LoadString` and
`LoadArray`. Each one does the same steps:

1. Look the key up.
2. Trim the white space around the value with `strings.TrimSpace`.
3. Try the typed conversion.
4. Return the converted value, or the caller's default (`option`).

No loader ever reports an error.

The project has five modules:

- `Wrappers`: the `Option` and `Result` datatypes.
- `Strings`: the parts of Go's `strings` package the loader uses, and two functions that exist only to state properties of `Split`.
  - `TrimSpace`, written as the same two index scans Go makes. White space is Go's `unicode.IsSpace`.
  - `Index`.
  - `Split`: `genSplit` on a non-empty separator, and `explode` on an empty one.
  - `Join` and `Repeat` are never called by the loader. `Join` is the inverse of `Split`, and `Repeat` describes a run of separators.
- `Strconv`: base-10, 64-bit `ParseUint` and `ParseInt`.
  - Go's cutoff and overflow tests are written out on unbounded integers.
  - The functions are proved against a positional reference meaning of decimal literals.
  - `FormatInt` and `FormatBool` are there to state round trips.
- `Loader`: the five loaders and `loadTrimmed`, over an environment given as a map.
  - An unset key reads as "", as with `os.Getenv`.
  - `LoadArray` is a method with the source's loop. It is proved equal to the specification function `ArrayValue`.
- `LoaderExamples`: each case of `loader_test.go` as a lemma, plus three list cases: a blank piece, a self-overlapping separator, and a value made only of separators.

Two details of the list loader matter:

- `LoadArray` trims the whole value before splitting it (`loader.go:82`).
- `LoadArray` tests each piece for emptiness *before* trimming it (`loader.go:85-86`). So a piece of white space only, such as the middle of `"a, ,b"`, is kept as `""` rather than discarded. `Loader.EntriesAreTrimmedPieces` and `LoaderExamples.LoadArrayKeepsBlankPiece` state this.

## Model

| member | source | states |
|---|---|---|
| Strings.IsSpace | loader.go:98 | white space as Go's `unicode.IsSpace`: its switch on the eight Latin-1 space characters (tab, line feed, vertical tab, form feed, carriage return, space, U+0085, U+00A0), then Unicode's White_Space table above Latin-1 |
| Strings.SkipSpace | loader.go:98 | the start scan of `TrimSpace` stops at the first non-space at or after `k`, having passed only white space |
| Strings.BackSpace | loader.go:98 | the stop scan of `TrimSpace` stops just after the last non-space above `start`, having passed only white space |
| Strings.TrimSpace | loader.go:98 | the result is no longer than the input, has no white space at either end, and is empty exactly when the input is all white space |
| Strings.TrimSpaceFramed | loader.go:98 | trimming a string that is another string surrounded by white space gives the same result as trimming that other string |
| Strings.TrimSpacePadded | loader.go:98 | adding white space on either side of a value does not change what `TrimSpace` gives |
| Strings.TrimSpaceTrimmed | loader.go:98 | a string with no white space at either end is its own trim |
| Strings.TrimSpaceStripsPadding | loader.go:98 | trimming white space padding around a trimmed string gives that string back |
| Strings.TrimSpaceIdempotent | loader.go:98 | trimming twice is trimming once |
| Strings.IndexFrom | loader.go:82 | finds an occurrence of the separator at or after `k` with none before it, or reports that there is none |
| Strings.Index | loader.go:82 | the leftmost occurrence of the separator, or none at all |
| Strings.IndexIs | loader.go:82 | `Index` gives `i` exactly when the separator occurs at `i` and nowhere before |
| Strings.IndexOfPrefix | loader.go:82 | a prefix reaching past an occurrence at `i` agrees with the whole string on whether `i` is the leftmost occurrence |
| Strings.IndexOfChar | loader.go:82 | with a one-character separator, `Index` is the first position holding that character |
| Strings.IndexOfAbsentChar | loader.go:82 | a character that does not occur is not found |
| Strings.Explode | loader.go:82 | splitting on an empty separator gives one piece per character, the `k`-th being that character |
| Strings.SplitOn | loader.go:82 | splitting on a non-empty separator always gives at least one piece; `SplitUnique` shows these pieces are the only ones that rejoin to the input, hold no separator and are cut at leftmost occurrences |
| Strings.Split | loader.go:82 | on a non-empty separator there is at least one piece; an empty separator gives one piece per character (`Explode`), a non-empty one the pieces of `SplitOn` |
| Strings.JoinExplode | loader.go:82 | the characters of a string joined with nothing between them are the string |
| Strings.JoinSplit | loader.go:82 | joining the pieces of any split with the separator gives the input back, whatever the separator |
| Strings.JoinSplitOn | loader.go:82 | the same round trip for a non-empty separator |
| Strings.SplitPiecesFree | loader.go:82 | no piece of a split on a non-empty separator contains that separator |
| Strings.SplitCutsLeftmost | loader.go:82 | every piece but the last ends where the leftmost occurrence of the separator begins, so a separator that overlaps itself is cut as early as possible |
| Strings.SplitUnique | loader.go:82 | any pieces that join back to the input, hold no separator and are each cut at the leftmost occurrence are exactly the pieces of the split |
| Strings.Repeat | loader.go:89-94 | helper describing a run of `k` separators, used to state when the list loader falls back to its default; its length is `k` times the separator's |
| Strings.SplitRepeat | loader.go:82 | a run of `k` separators splits into `k + 1` empty pieces |
| Strings.JoinEmpties | loader.go:82 | joining `n` empty pieces gives `n - 1` separators |
| Strings.SplitAllEmpty | loader.go:82 | every piece is empty exactly when the input is a run of separators, one fewer than the pieces |
| Strconv.ParseUintFrom | loader.go:16 | the digit loop of `ParseUint` never yields a value below its accumulator or above 2^64 - 1 |
| Strconv.AccumulateIsDigitsValue | loader.go:16 | reading digits left to right from zero gives their positional value |
| Strconv.ParseUintFromAgrees | loader.go:16 | the bounded digit loop succeeds exactly on digit strings whose unbounded value fits in 64 bits, and then returns that value |
| Strconv.ParseUint | loader.go:16 | `ParseUint` accepts exactly the non-empty digit strings up to 2^64 - 1, and returns their value |
| Strconv.ParseInt | loader.go:16 | `ParseInt` accepts exactly the optionally signed decimal literals whose value is in the int64 range, and returns that value; everything else is an error |
| Strconv.FormatUint | loader.go:16 | the decimal rendering is a non-empty digit string with no leading zero |
| Strconv.FormatUintValue | loader.go:16 | the rendering of `m` denotes `m` |
| Strconv.FormatIntIsDecimal | loader.go:16 | the rendering of any int64 is a decimal literal that denotes it |
| Strconv.ParseFormatInt | loader.go:16 | parsing the rendering of any int64 gives it back |
| Loader.Getenv | loader.go:98 | a set key reads as its value, and an unset key reads as "" |
| Loader.LoadTrimmed | loader.go:97-99 | the value has no white space at either end, and an unset key gives "" |
| Loader.LoadTrimmedStrips | loader.go:97-99 | the value is "" exactly when the key is unset or its value is all white space; otherwise it is the raw value with its padding removed |
| Loader.LoadInt | loader.go:14-27 | a blank value gives `option`; a decimal literal in the int64 range gives its value; anything else gives `option` |
| Loader.LoadFloat | loader.go:31-44 | a blank value gives `option`; a value the float parser accepts gives the parsed number; a value it rejects gives `option` |
| Loader.LoadBool | loader.go:48-65 | exactly "true" gives true, exactly "false" gives false, and anything else, blank included, gives `option` |
| Loader.LoadString | loader.go:69-76 | a non-blank value is returned trimmed, and a blank one gives `option` |
| Loader.Entries | loader.go:84-88 | there are no more entries than pieces, and each entry has no white space at either end |
| Loader.NonEmptyPositions | loader.go:85 | the increasing positions of exactly the non-empty pieces |
| Loader.EntriesStep | loader.go:84-88 | each loop iteration appends at most one entry, the trimmed piece, and only when the piece is non-empty |
| Loader.ArrayValue | loader.go:81-95 | the list loader's result is either the default or a non-empty list, and when it is not the default every entry has no white space at either end |
| Loader.LoadArray | loader.go:81-95 | the loop collects exactly `ArrayValue`: the trimmed non-empty pieces of the split trimmed value, or `option` when there are none |
| Loader.EntriesAreTrimmedPieces | loader.go:84-88 | entry `k` is the `k`-th non-empty piece, trimmed, and there are as many entries as non-empty pieces |
| Loader.EntriesEmpty | loader.go:89 | there are no entries exactly when every piece is empty |
| Loader.ArrayValueDefaultIffEmptyPieces | loader.go:89-94 | the list loader falls back to the default exactly when every piece of the split value is empty |
| Loader.ArrayValueDefaultIffSeparators | loader.go:89-94 | the list loader falls back to the default exactly when the trimmed value is nothing but separators (none included) |
| Loader.ArrayValueBlank | loader.go:81-95 | an unset or blank variable gives the default list, for every separator |
| Loader.EntriesConcat | loader.go:84-88 | the entries of two runs of pieces are the entries of each, in order |
| Loader.EntriesExplode | loader.go:84-88 | when each character is a piece, each one becomes an entry, trimmed |
| Loader.ArrayValueCharacters | loader.go:81-95 | with an empty separator, every character of a non-blank value is an entry of its own, trimmed, so a white-space character becomes "" |
| Loader.LoadersIgnorePadding | loader.go:97-99 | `loadTrimmed`, `LoadInt`, `LoadBool` and `LoadString` read the same whether or not the raw value has white space around it |
| Loader.LoadFloatIgnoresPadding | loader.go:31-44 | the same for `LoadFloat` |
| Loader.LoadArrayIgnoresPadding | loader.go:81-95 | the same for `LoadArray` |
| Loader.LoadIntRoundTrip | loader.go:14-27 | a variable set to the decimal rendering of any int64, with any padding, loads as that integer |
| Loader.LoadBoolRoundTrip | loader.go:48-65 | a variable set to "true" or "false", with any padding, loads as that boolean |
| Loader.LoadStringRoundTrip | loader.go:69-76 | a variable set to a non-empty trimmed string, with any padding, loads as that string |
| Loader.LoadFloatRoundTrip | loader.go:31-44 | a variable set to a text the float parser reads as `x`, with any padding, loads as `x` |
| LoaderExamples.LoadTrimmedBlankExample | loader_test.go:13-16 | a variable set to "" reads as "" |
| LoaderExamples.LoadTrimmedValueExample | loader_test.go:18-22 | "VALUE1" reads as itself |
| LoaderExamples.LoadTrimmedStripsExample | loader_test.go:24-29 | `"    VALUE2   "` reads as "VALUE2" |
| LoaderExamples.LoadTrimmedOtherValueExample | loader_test.go:31-36 | `"    VALUE3   "` does not read as "VALUE2" |
| LoaderExamples.LoadIntBlankExample | loader_test.go:41-45 | a blank variable gives the default 20 |
| LoaderExamples.LoadIntExample | loader_test.go:47-51 | "300" loads as 300 |
| LoaderExamples.LoadIntMalformedExample | loader_test.go:53-57 | "A300" gives the default 20 |
| LoaderExamples.LoadBoolBlankExample | loader_test.go:62-66 | a blank variable gives the default |
| LoaderExamples.LoadBoolExample | loader_test.go:68-72 | "true" with the default true loads as true |
| LoaderExamples.LoadBoolOverridesDefaultExample | loader_test.go:68-72 | "true" with the default false also loads as true, so the value comes from the environment and not from the default |
| LoaderExamples.LoadBoolMalformedExample | loader_test.go:74-78 | "t" gives the default |
| LoaderExamples.LoadStringBlankExample | loader_test.go:83-87 | a blank variable gives the default |
| LoaderExamples.LoadStringExample | loader_test.go:89-93 | "environment_value" loads as itself |
| LoaderExamples.LoadFloatBlankExample | loader_test.go:98-102 | a blank variable gives the default |
| LoaderExamples.LoadFloatExample | loader_test.go:104-108 | "300" loads as whatever the float parser reads from it |
| LoaderExamples.LoadFloatMalformedExample | loader_test.go:110-114 | "A300", which the float parser rejects, gives the default |
| LoaderExamples.LoadArrayExample | loader_test.go:117-133 | "hello, world" split on "," loads as ["hello", "world"] |
| LoaderExamples.LoadArrayKeepsBlankPiece | loader.go:85-86 | "a, ,b" split on "," loads as ["a", "", "b"] |
| LoaderExamples.SplitOverlapping | loader.go:82 | "a,,,b" split on ",," gives ["a", ",b"] |
| LoaderExamples.LoadArrayOverlappingSeparator | loader.go:81-95 | "a,,,b" split on ",," loads as ["a", ",b"]: the first two commas separate, and the third stays in the second entry |
| LoaderExamples.LoadArraySeparatorsOnly | loader.go:89-94 | ",," split on "," gives the default |

## Left out

- Logging (`log.Printf` at every return) is left out. It is a side effect that does not change what a loader returns.
- The process environment is a map passed as a parameter, and `Loader.Getenv` reads a key's value from it, with "" for a missing key.
  - `os.Setenv` is left out, and so is mutation of the environment by other goroutines or processes. The loaders only read it.
- Loader.Getenv: the map may bind keys that no process environment exposes, such as the empty key or a key containing '='. `os.Getenv` never finds those and returns "", but the model returns the bound value.
- Loader.LoadFloat: `strconv.ParseFloat(s, 64)` is a parameter `parseFloat` of the model. IEEE 754 parsing, rounding and range errors are not modelled.
  - The contracts hold for whatever parser is given.
- Strings are sequences of Unicode code points. Go strings are UTF-8 bytes, so invalid UTF-8 is not modelled. Go's `TrimSpace` treats an invalid byte as a non-space, which the model does not capture.
- Strconv.ParseInt models only the `Err` field of Go's `*NumError` (syntax or range). The error message and the echoed input are left out, since the loaders discard the error.
- `strconv.ParseInt` with bases other than 10, bit sizes other than 64, and base prefixes or underscores is not modelled. The loader never asks for those.
