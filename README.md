# rust_dotenv in Dafny

A model of the `rust_dotenv` crate, a small `.env` loader. It covers:

- **`parse_var`** (`Vars`). It strips one layer of surrounding double quotes from a value.
- **The `DotEnv` store** (`Dotenv`).
  - `DotEnv::new` picks `.env` or `.env.<env>`, and prefers `<base>.local` when that file exists. Only the current directory is checked.
  - `load_env` reads the chosen file line by line into a map. Empty lines and lines starting with `#` are skipped. Each other line is split at its first `=`, both sides are trimmed, and the value goes through `parse_var`. Keys keep the case they have in the file.
  - `get_var`, `has_var`, `all_vars` and `set_var` work over that map. `get_var`, `has_var` and `set_var` upper-case the key they are given; `all_vars` returns the whole map. `set_var` inserts only when the upper-cased key is absent.
- **The Rust string operations the loader relies on** (`Text`): `str::trim`, `str::to_uppercase` and `str::splitn(2, '=')`.
- **`Result`** (`Wrappers`), with its `unwrap_or_else`.

The filesystem becomes two inputs:

- `existing` is the set of names for which `Path::exists` holds.
- `files` maps each name that `File::open` can open to the lines `BufRead::lines` yields for it. A name outside `files` cannot be opened.

`DotEnv` is a class whose field `vars` is the map. `set_var` is a method that changes it. `load_env` is a static method whose `for` loop builds the map. Its loop invariant ties the partial map to `Loaded`, the specification function of the whole file. The lemmas about `Loaded` describe what the loaded map holds:

- A key is present exactly when some line defines it.
- Its value comes from the last line that defines it.
- Skipped lines add nothing.

The map the constructor starts with is `InitialVars`.

Behaviour worth knowing:

- Only the current directory is checked for the files.
- An existing `<base>.local` always wins over `<base>`.
- Keys keep the case they have in the file, so a key written in lower case is stored but unreachable (`ReachableKeys`, `LowercaseFileKeyUnreachable`).
- A value that is a lone `"` makes `parse_var` panic (see Findings).

## Model

| member | source | states |
|---|---|---|
| Wrappers.Result.UnwrapOr | rust_dotenv/src/dotenv.rs:31-34 | `unwrap_or_else`: the Ok value, or the fallback on Err |
| Text.IsWhitespace | rust_dotenv/src/dotenv.rs:50-51 | the characters `trim` removes, Rust's `char::is_whitespace`: exactly the 25 Unicode White_Space code points; no visible ASCII character (so no `=`, `#` or `"`) is among them |
| Text.LeadingSpace | rust_dotenv/src/dotenv.rs:50-51 | counts the whitespace `s` starts with: all counted characters are whitespace and the next one is not |
| Text.TrailingSpace | rust_dotenv/src/dotenv.rs:50-51 | counts the whitespace `s` ends with, in the same sense |
| Text.Trim | rust_dotenv/src/dotenv.rs:50-51 | `trim`: the result is a contiguous slice of `s`, everything cut on either side is whitespace, and the result neither starts nor ends with whitespace |
| Text.TrimOfTrimmed | rust_dotenv/src/dotenv.rs:50-51 | a string without surrounding whitespace trims to itself |
| Text.LeadingSpaceOfPadded | rust_dotenv/src/dotenv.rs:50 | whitespace put before a string that does not start with whitespace is exactly the leading whitespace counted |
| Text.TrimOfPadded | rust_dotenv/src/dotenv.rs:50 | trimming removes leading whitespace put before a trimmed string |
| Text.TrimIdempotent | rust_dotenv/src/dotenv.rs:50-51 | trimming twice equals trimming once |
| Text.UpperChar | rust_dotenv/src/dotenv.rs:65 | a lower-case ASCII letter moves down by 32 code points; every other character is kept; the result is never a lower-case letter |
| Text.Upper | rust_dotenv/src/dotenv.rs:65 | `to_uppercase`: same length, character by character UpperChar, and no lower-case letter is left |
| Text.UpperFixesNoLower | rust_dotenv/src/dotenv.rs:78-80 | a key with no lower-case letter is its own upper-case form |
| Text.UpperIdempotent | rust_dotenv/src/dotenv.rs:78-80 | upper-casing twice equals upper-casing once, so `has_var(key_upper)` in `set_var` looks up `key_upper` itself |
| Text.LowerNotInUpperRange | rust_dotenv/src/dotenv.rs:65-69 | a string holding a lower-case letter is the upper-case form of no string |
| Text.FindFirst | rust_dotenv/src/dotenv.rs:47 | the index of the first `c`, with no `c` before it; None exactly when `s` holds no `c` |
| Text.SplitOnce | rust_dotenv/src/dotenv.rs:47-48 | `splitn(2, c)`: one part, equal to `s`, exactly when `s` holds no `c`; otherwise two parts that rejoin with `c` to `s`, the first holding no `c` |
| Text.SplitAtFirstUnique | rust_dotenv/src/dotenv.rs:47 | a split at the first `c` is unique: the same string cannot split two ways |
| Text.SplitOnceAt | rust_dotenv/src/dotenv.rs:47 | `pre + c + post` with no `c` in `pre` splits into exactly `[pre, post]`, whatever `post` holds |
| Vars.QuotedAtBothEnds | rust_dotenv/src/vars.rs:6 | `starts_with('"') && ends_with('"')`; among one-character values it holds of `"` alone, the value the slice after it cannot handle |
| Vars.ParseVarAsWritten | rust_dotenv/src/vars.rs:4-11 | `parse_var` as written: panics (None) exactly on the lone `"`; a value quoted at both ends is the result wrapped in quotes; any other value is returned unchanged |
| Vars.LoneQuotePanics | rust_dotenv/src/vars.rs:6-7 | `"` passes both the starts-with and ends-with tests, the slice `1..0` is out of range, and the source panics |
| Vars.ParseVar | rust_dotenv/src/vars.rs:4-11 | with the length guard: a value of two or more characters quoted at both ends is the result wrapped in quotes; every other value is returned unchanged; the result is `|s|` or `|s| - 2` long |
| Vars.ParseVarAgreesWithSource | rust_dotenv/src/vars.rs:6-10 | on every value except `"`, the corrected function returns what the source returns |
| Vars.ParseVarLoneQuote | rust_dotenv/src/vars.rs:6-10 | the corrected function returns `"` unchanged |
| Vars.ParseVarRoundTrip | rust_dotenv/src/vars.rs:6-7 | quoting any text and parsing it gives the text back |
| Vars.ParseVarNeverLonger | rust_dotenv/src/vars.rs:7-10 | the result is never longer than the value |
| Vars.ParseVarNotIdempotent | rust_dotenv/src/vars.rs:7 | only one layer is stripped: `""a""` becomes `"a"`, which parses again to `a` |
| Dotenv.BaseFilename | rust_dotenv/src/dotenv.rs:17-22 | `.env` for the empty environment name, `.env.` followed by the name otherwise |
| Dotenv.LocalFilename | rust_dotenv/src/dotenv.rs:24 | the local override is the base filename followed by `.local` |
| Dotenv.BaseFilenameInjective | rust_dotenv/src/dotenv.rs:17-22 | two environment names with the same base filename are equal |
| Dotenv.DefaultLocalIsBaseOfLocal | rust_dotenv/src/dotenv.rs:17-24 | `.env.local` is both the override of the empty environment and the base file of the environment `local` |
| Dotenv.ResolveFilename | rust_dotenv/src/dotenv.rs:25-29 | the local filename is chosen if and only if it exists; otherwise the base filename |
| Dotenv.ParseLine | rust_dotenv/src/dotenv.rs:46-54 | a line yields an entry exactly when it is non-empty, its first character (before any trimming) is not `#`, and it holds an `=` |
| Dotenv.ParseLineAt | rust_dotenv/src/dotenv.rs:47-52 | a non-comment line `pre=post`, with no `=` in `pre`, yields key `trim(pre)` and value `parse_var(trim(post))`; `post` may hold more `=` |
| Dotenv.ParseLineAgreesWithSource | rust_dotenv/src/dotenv.rs:47-52 | for a line whose trimmed value is not a lone `"`, the source's `parse_var` does not panic and the line parses to the same entry as with it |
| Dotenv.ParseLineTrimmed | rust_dotenv/src/dotenv.rs:47-52 | the same, when `pre` and `post` carry no surrounding whitespace: key `pre`, value `parse_var(post)` |
| Dotenv.IndentedHashIsAKey | rust_dotenv/src/dotenv.rs:46-52 | the `#` test comes before trimming: an indented line `#name=value` loads the key `#name` |
| Dotenv.IndentedLineSplits | rust_dotenv/src/dotenv.rs:46-52 | an indented `#name=value` line is not skipped and splits before `value` |
| Dotenv.IndentedKeyTrims | rust_dotenv/src/dotenv.rs:50 | trimming an indented `#name` leaves `#name` |
| Dotenv.EmptyKeyAccepted | rust_dotenv/src/dotenv.rs:47-54 | the line `=v` loads the empty key with value `v` |
| Dotenv.LaterEqualsStayInValue | rust_dotenv/src/dotenv.rs:47-51 | only the first `=` splits: `A=b=c` loads `b=c` for `A` |
| Dotenv.Fold | rust_dotenv/src/dotenv.rs:41-54 | the in-order `insert` of parsed entries into an empty map; no contract of its own, its meaning is FoldKeys and FoldLastWins |
| Dotenv.FoldKeys | rust_dotenv/src/dotenv.rs:44-58 | inserting parsed lines in order: a key ends up in the map exactly when some parsed line carries it |
| Dotenv.FoldLastWins | rust_dotenv/src/dotenv.rs:54 | the value kept for a key is the one of the last parsed line carrying it |
| Dotenv.Parsed | rust_dotenv/src/dotenv.rs:44-47 | one parse result per line of the file: the same length as the file, and entry `i` is ParseLine of line `i` |
| Dotenv.Loaded | rust_dotenv/src/dotenv.rs:41-61 | the map `load_env` builds from a file's lines; no contract of its own, its meaning is LoadedKeys, LoadedLastWins and LoadedSnoc, and LoadEnv's loop is proved to compute it |
| Dotenv.LoadedKeys | rust_dotenv/src/dotenv.rs:44-58 | a key is loaded from a file exactly when some line of it defines that key |
| Dotenv.LoadedLastWins | rust_dotenv/src/dotenv.rs:44-58 | a later line with an identical key overwrites an earlier one: the loaded value is that of the last defining line |
| Dotenv.LoadedSnoc | rust_dotenv/src/dotenv.rs:44-58 | loading one more line applies that line to the map loaded so far |
| Dotenv.LoadedOneLine | rust_dotenv/src/dotenv.rs:44-58 | a one-line file loads that line's entry, or nothing |
| Dotenv.SkippedLineAddsNothing | rust_dotenv/src/dotenv.rs:46-48 | an empty line, a line starting with `#` or a line without `=` leaves the loaded map unchanged |
| Dotenv.LoadedOneEntry | rust_dotenv/src/dotenv.rs:46-54 | the one-line file `key=value` loads exactly `key`, as written, with value `parse_var(value)` |
| Dotenv.InitialVars | rust_dotenv/src/dotenv.rs:17-36 | the map `new` stores: the local file's lines loaded when the local file exists and opens; the base file's lines loaded when no local file exists and the base file opens |
| Dotenv.MissingFileLoadsNothing | rust_dotenv/src/dotenv.rs:31-43 | when the chosen file cannot be opened the store starts empty |
| Dotenv.LocalOverrideShadowsBase | rust_dotenv/src/dotenv.rs:25-29 | when the local file exists, the contents of the base file do not matter |
| Dotenv.LocalOverrideEndToEnd | rust_dotenv/src/dotenv.rs:15-36 | with `.env.test` holding `A=1` and `.env.test.local` holding `A=2`, environment `test` loads `{A: 2}` |
| Dotenv.LoadedLocalTestFile | rust_dotenv/src/dotenv.rs:46-54 | the file `A=2` loads `{A: 2}` |
| Dotenv.DotEnv.constructor | rust_dotenv/src/dotenv.rs:15-37 | the store holds the chosen file's lines loaded, or the empty map when that file cannot be opened |
| Dotenv.DotEnv.LoadEnv | rust_dotenv/src/dotenv.rs:39-62 | always Ok, so the fallback of `new` never runs; a file that cannot be opened gives the empty map; otherwise the map is `Loaded` of the file's lines |
| Dotenv.DotEnv.GetVar | rust_dotenv/src/dotenv.rs:64-66 | Some exactly when the upper-cased key is stored, and then its stored value |
| Dotenv.DotEnv.HasVar | rust_dotenv/src/dotenv.rs:68-70 | holds exactly when `get_var` of the same key is Some |
| Dotenv.DotEnv.AllVars | rust_dotenv/src/dotenv.rs:72-74 | the store's whole map |
| Dotenv.DotEnv.SetVar | rust_dotenv/src/dotenv.rs:76-87 | returns true exactly when the upper-cased key was absent; then it adds `upper(k) ↦ parse_var(v)` and leaves every other entry alone; otherwise the map is unchanged; afterwards `get_var(k)` is the new value or the old one |
| Dotenv.GetVarIgnoresCase | rust_dotenv/src/dotenv.rs:64-66 | a key and its upper-case form find the same value |
| Dotenv.ReachableKeys | rust_dotenv/src/dotenv.rs:54-70 | a stored key is reachable through `has_var` if and only if it holds no lower-case letter |
| Dotenv.LowercaseFileKeyUnreachable | rust_dotenv/src/dotenv.rs:54-70 | a key such as `foo` from the line `foo=bar` is stored as written, yet `get_var` finds nothing for any key |
| Dotenv.QuotedUppercaseKeyFound | rust_dotenv/src/dotenv.rs:50-66 | a line `KEY="text"` with an upper-case key is found as `text` under every spelling whose upper-case is `KEY` |
| Dotenv.SetVarFirstWriteWins | rust_dotenv/src/dotenv.rs:76-87 | on a store without `NEW`: `set_var("NEW", "x")` is true, `set_var("new", "y")` is false, and `get_var("new")` is `x` |

## Findings

| source | as written | input that shows it | evidently intended | confidence | as-written member | corrected member |
|---|---|---|---|---|---|---|
| rust_dotenv/src/vars.rs:6-7 | tests only that the value starts and ends with `"`, then slices `value[1..len-1]` | the one-character value `"`, from a line such as `A="`; the slice is `1..0` and Rust panics, so `DotEnv::new` aborts | a value shorter than two characters is returned unchanged | high; not executed | Vars.ParseVarAsWritten, Vars.LoneQuotePanics | Vars.ParseVar, Vars.ParseVarLoneQuote |

## Left out

- Filesystem access (`File::open`, `Path::exists`, `BufReader::lines`) is not modelled. It is replaced by the `existing` and `files` inputs.
- Line splitting is left out, because it happens in the I/O layer. This covers `\n`/`\r\n` handling and the silent skipping of lines that are not valid UTF-8. A file is given as its sequence of already-decoded lines.
- The `eprintln!` diagnostic in `new` is not modelled. It is output only, and `LoadEnv` shows it can never run.
- `HashMap` iteration order, visible through `all_vars`, is not modelled. The store is an unordered `map`.
- Text.Upper: upper-cases only the ASCII letters `a`–`z`. Rust's `to_uppercase` also maps non-ASCII letters, and it can change a string's length (`ß` becomes `SS`). Checks for the absence of lower-case letters (`NoLower`, `ReachableKeys`) likewise look at ASCII letters only.
- Dotenv.DotEnv.LoadEnv: uses the corrected `ParseVar`. A file with a line whose trimmed value is exactly `"` panics in the source, and the model instead loads `"` for that key. `ParseLineAgreesWithSource` shows the two agree on every other line.
- Dotenv.ParseLine: uses the corrected `ParseVar`, and so do Dotenv.Loaded, Dotenv.InitialVars and Dotenv.DotEnv.constructor, which are built on it. On a line whose trimmed value is exactly `"` the source panics and `DotEnv::new` aborts; the model loads `"` for that key. `ParseLineAgreesWithSource` shows the line parse is the source's on every other line.
- Dotenv.Loaded: see Dotenv.ParseLine.
- Dotenv.InitialVars: see Dotenv.ParseLine.
- Dotenv.DotEnv.constructor: see Dotenv.ParseLine.
- Dotenv.DotEnv.SetVar: uses the corrected `ParseVar`. When `upper(k)` is not stored, `set_var(k, "\"")` panics in the source (`parse_var` runs only at dotenv.rs:84), while the model stores `"`. When the key is present, both return false and leave the map unchanged.
- Byte offsets are not modelled. Rust slices strings by byte, and the model indexes by character. The only slice is `vars.rs:7`, which cuts one-byte `"` characters at both ends, so the two coincide.
- The demo program rust_dotenv/examples/example.rs only prints, so it is not part of this model. Its comment at line 5 calls the local file a fallback. The code at `dotenv.rs:25-29` contradicts that: it prefers the local file whenever it exists.
- An upward directory search is not modelled: the code checks only the current directory.
- The derived `Debug` and `Clone` implementations of `DotEnv` are not modelled.
