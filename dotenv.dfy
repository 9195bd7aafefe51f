/**
 * The `DotEnv` store: choosing the file to read, parsing its lines into a
 * map, and the case-normalising accessors over that map.
 *
 * The filesystem is a pair of inputs: `existing` is the set of names for which
 * `Path::exists` holds, and `files` maps each name that `File::open` can open
 * to the lines that `BufRead::lines` yields for it.
 */
module Dotenv {
  import opened Wrappers
  import opened Text
  import opened Vars

  /** The error type of `load_env`'s signature. No path of `load_env` produces it. */
  datatype IoError = CannotOpen(filename: string)

  /** One `KEY=VALUE` pair read from a line. */
  datatype Entry = Entry(key: string, value: string)

  // ---------------------------------------------------------------------------
  // Filename resolution

  /** `.env` for the empty environment name, `.env.<env>` otherwise. */
  function BaseFilename(env: string): (r: string)
    ensures env == [] ==> r == ".env"
    ensures env != [] ==> r == ".env." + env
  {
    if env == [] then ".env" else ".env." + env
  }

  /** The local override: the base name followed by `.local`. */
  function LocalFilename(env: string): (r: string)
    ensures r == BaseFilename(env) + ".local"
  {
    BaseFilename(env) + ".local"
  }

  /** Different environment names never share a base filename. */
  lemma BaseFilenameInjective(env: string, env': string)
    requires BaseFilename(env) == BaseFilename(env')
    ensures env == env'
  {
    if env != [] && env' != [] {
      assert env == BaseFilename(env)[5..] == BaseFilename(env')[5..] == env';
    }
  }

  /** The local override of the default environment is the base file of the environment named `local`. */
  lemma DefaultLocalIsBaseOfLocal()
    ensures LocalFilename("") == BaseFilename("local")
  {
  }

  /** The file `new` loads: the local override exactly when it exists, the base file otherwise. */
  function ResolveFilename(env: string, existing: set<string>): (r: string)
    ensures r == LocalFilename(env) <==> LocalFilename(env) in existing
    ensures r != LocalFilename(env) ==> r == BaseFilename(env)
  {
    assert |LocalFilename(env)| > |BaseFilename(env)|;
    if LocalFilename(env) in existing then LocalFilename(env) else BaseFilename(env)
  }

  // ---------------------------------------------------------------------------
  // Line parsing

  /**
   * One line of the file: skipped when empty or starting with `#` (before any
   * trimming) or holding no `=`; otherwise split at the first `=`, both sides
   * trimmed, and the value passed through ParseVar.
   */
  function ParseLine(line: string): (r: Option<Entry>)
    ensures r.Some? <==> line != [] && line[0] != '#' && '=' in line
  {
    if line == [] || line[0] == '#' then None
    else
      var parts := SplitOnce(line, '=');
      if |parts| == 2 then Some(Entry(Trim(parts[0]), ParseVar(Trim(parts[1])))) else None
  }

  /** A line that is not a comment is cut at its first `=`; the text after it may hold more `=`. */
  lemma ParseLineAt(line: string, pre: string, post: string)
    requires line == pre + "=" + post && '=' !in pre
    requires line[0] != '#'
    ensures ParseLine(line) == Some(Entry(Trim(pre), ParseVar(Trim(post))))
  {
    SplitOnceAt(pre, post, '=');
  }

  /** True when the `i`-th parsed line is an entry for `key`. */
  predicate Sets(es: seq<Option<Entry>>, i: int, key: string)
    requires 0 <= i < |es|
  {
    es[i].Some? && es[i].value.key == key
  }

  /** Inserts the parsed lines into an empty map in order, keys as they are. */
  function Fold(es: seq<Option<Entry>>): map<string, string>
  {
    if es == [] then map[]
    else
      var m := Fold(es[..|es| - 1]);
      match es[|es| - 1]
      case None => m
      case Some(e) => m[e.key := e.value]
  }

  /** A key is in the folded map exactly when some parsed line sets it. */
  lemma {:induction false} FoldKeys(es: seq<Option<Entry>>, key: string)
    ensures key in Fold(es) <==> exists i :: 0 <= i < |es| && Sets(es, i, key)
  {
    if es != [] {
      var n := |es| - 1;
      var init := es[..n];
      FoldKeys(init, key);
      if key in Fold(es) && !Sets(es, n, key) {
        var i :| 0 <= i < |init| && Sets(init, i, key);
        assert Sets(es, i, key);
      }
      if exists i :: 0 <= i < |es| && Sets(es, i, key) {
        var i :| 0 <= i < |es| && Sets(es, i, key);
        if i < n {
          assert Sets(init, i, key);
        }
      }
    }
  }

  /** The folded value of a key is the one from the last parsed line that sets it. */
  lemma {:induction false} FoldLastWins(es: seq<Option<Entry>>, i: int, key: string)
    requires 0 <= i < |es| && Sets(es, i, key)
    requires forall j :: i < j < |es| ==> !Sets(es, j, key)
    ensures key in Fold(es) && Fold(es)[key] == es[i].value.value
  {
    var n := |es| - 1;
    var init := es[..n];
    if i < n {
      assert !Sets(es, n, key);
      forall j | i < j < |init| ensures !Sets(init, j, key) {
        assert !Sets(es, j, key);
      }
      assert Sets(init, i, key);
      FoldLastWins(init, i, key);
    }
  }

  /** Every line of `lines`, parsed. */
  function Parsed(lines: seq<string>): (es: seq<Option<Entry>>)
    ensures |es| == |lines|
    ensures forall i :: 0 <= i < |lines| ==> es[i] == ParseLine(lines[i])
  {
    seq(|lines|, i requires 0 <= i < |lines| => ParseLine(lines[i]))
  }

  /** The map `load_env` builds from `lines`: each parsed line in order, inserted without changing the key's case. */
  function Loaded(lines: seq<string>): map<string, string>
  {
    Fold(Parsed(lines))
  }

  /** True when line `i` of `lines` yields an entry for `key`. */
  predicate Defines(lines: seq<string>, i: int, key: string)
    requires 0 <= i < |lines|
  {
    ParseLine(lines[i]).Some? && ParseLine(lines[i]).value.key == key
  }

  /** A key is loaded exactly when some line of the file defines it. */
  lemma LoadedKeys(lines: seq<string>, key: string)
    ensures key in Loaded(lines) <==> exists i :: 0 <= i < |lines| && Defines(lines, i, key)
  {
    var es := Parsed(lines);
    FoldKeys(es, key);
    assert forall i :: 0 <= i < |lines| ==> (Defines(lines, i, key) <==> Sets(es, i, key));
  }

  /** The value loaded for a key comes from the last line that defines it: later lines overwrite earlier ones. */
  lemma LoadedLastWins(lines: seq<string>, i: int, key: string)
    requires 0 <= i < |lines| && Defines(lines, i, key)
    requires forall j :: i < j < |lines| ==> !Defines(lines, j, key)
    ensures key in Loaded(lines)
    ensures Loaded(lines)[key] == ParseLine(lines[i]).value.value
  {
    var es := Parsed(lines);
    assert forall j :: 0 <= j < |lines| ==> (Defines(lines, j, key) <==> Sets(es, j, key));
    FoldLastWins(es, i, key);
  }

  /** Loading one more line applies that line to the map loaded so far. */
  lemma LoadedSnoc(lines: seq<string>, line: string)
    ensures Loaded(lines + [line]) == match ParseLine(line)
      case None => Loaded(lines)
      case Some(e) => Loaded(lines)[e.key := e.value]
  {
    var es := Parsed(lines + [line]);
    assert es[..|lines|] == Parsed(lines);
  }

  /** A file of one line loads that line's entry, or nothing. */
  lemma LoadedOneLine(line: string)
    ensures Loaded([line]) == match ParseLine(line)
      case None => map[]
      case Some(e) => map[e.key := e.value]
  {
    LoadedSnoc([], line);
    assert [] + [line] == [line];
  }

  /** Comment lines, empty lines and lines without `=` add nothing to the map. */
  lemma SkippedLineAddsNothing(lines: seq<string>, line: string)
    requires line == [] || line[0] == '#' || '=' !in line
    ensures Loaded(lines + [line]) == Loaded(lines)
  {
    LoadedSnoc(lines, line);
  }

  /** True when `s` neither starts nor ends with whitespace. */
  predicate Trimmed(s: string) {
    s != [] ==> !IsWhitespace(s[0]) && !IsWhitespace(s[|s| - 1])
  }

  /**
   * Away from the lone-quote value, the corrected line parse gives what the
   * source's line parse gives, with parse_var as written.
   */
  lemma ParseLineAgreesWithSource(line: string, pre: string, post: string)
    requires line == pre + "=" + post && '=' !in pre && line[0] != '#'
    requires Trim(post) != [Quote]
    ensures ParseVarAsWritten(Trim(post)).Some?
    ensures ParseLine(line) == Some(Entry(Trim(pre), ParseVarAsWritten(Trim(post)).value))
  {
    ParseLineAt(line, pre, post);
    ParseVarAgreesWithSource(Trim(post));
  }

  /** ParseLineAt for a key and a value that carry no surrounding whitespace. */
  lemma ParseLineTrimmed(line: string, pre: string, post: string)
    requires line == pre + "=" + post && '=' !in pre && line[0] != '#'
    requires Trimmed(pre) && Trimmed(post)
    ensures ParseLine(line) == Some(Entry(pre, ParseVar(post)))
  {
    ParseLineAt(line, pre, post);
    TrimOfTrimmed(pre);
    TrimOfTrimmed(post);
  }

  /**
   * The `#` test looks at the raw line, before trimming: a `#` after leading
   * whitespace is part of the key.
   */
  lemma IndentedHashIsAKey(ws: string, name: string, value: string)
    requires ws != [] && forall i :: 0 <= i < |ws| ==> IsWhitespace(ws[i])
    requires '=' !in name && Trimmed(name) && Trimmed(value)
    ensures ParseLine(ws + "#" + name + "=" + value) == Some(Entry("#" + name, ParseVar(value)))
  {
    IndentedLineSplits(ws, name, value);
    IndentedKeyTrims(ws, name);
    TrimOfTrimmed(value);
  }

  /** Trimming an indented `#name` leaves `#name`. */
  lemma IndentedKeyTrims(ws: string, name: string)
    requires forall i :: 0 <= i < |ws| ==> IsWhitespace(ws[i])
    requires Trimmed(name)
    ensures Trim(ws + ("#" + name)) == "#" + name
  {
    TrimOfPadded(ws, "#" + name);
  }

  /** An indented `#name=value` line is not skipped and splits after `name`. */
  lemma IndentedLineSplits(ws: string, name: string, value: string)
    requires ws != [] && forall i :: 0 <= i < |ws| ==> IsWhitespace(ws[i])
    requires '=' !in name
    ensures ParseLine(ws + "#" + name + "=" + value)
         == Some(Entry(Trim(ws + ("#" + name)), ParseVar(Trim(value))))
  {
    var line := ws + "#" + name + "=" + value;
    assert line == (ws + ("#" + name)) + "=" + value;
    assert line[0] == ws[0];
    assert '=' !in ws;
    ParseLineAt(line, ws + ("#" + name), value);
  }

  /** The line `=v` loads the empty key. */
  lemma EmptyKeyAccepted()
    ensures ParseLine("=v") == Some(Entry("", "v"))
  {
    ParseLineTrimmed("=v", "", "v");
  }

  /** Only the first `=` splits: `A=b=c` loads `b=c` for `A`. */
  lemma LaterEqualsStayInValue()
    ensures ParseLine("A=b=c") == Some(Entry("A", "b=c"))
  {
    ParseLineTrimmed("A=b=c", "A", "b=c");
  }

  /** The map `new` starts with: the resolved file's lines loaded, or nothing if it cannot be opened. */
  function InitialVars(env: string, existing: set<string>, files: map<string, seq<string>>): (m: map<string, string>)
    ensures LocalFilename(env) in existing && LocalFilename(env) in files ==> m == Loaded(files[LocalFilename(env)])
    ensures LocalFilename(env) !in existing && BaseFilename(env) in files ==> m == Loaded(files[BaseFilename(env)])
  {
    var filename := ResolveFilename(env, existing);
    if filename in files then Loaded(files[filename]) else map[]
  }

  /** When the resolved file cannot be opened the store starts empty. */
  lemma MissingFileLoadsNothing(env: string, existing: set<string>, files: map<string, seq<string>>)
    requires ResolveFilename(env, existing) !in files
    ensures InitialVars(env, existing, files) == map[]
  {
  }

  /** An existing local override shadows the base file, whatever the base file holds. */
  lemma LocalOverrideShadowsBase(env: string, existing: set<string>, files: map<string, seq<string>>, base: seq<string>)
    requires LocalFilename(env) in existing
    ensures InitialVars(env, existing, files) == InitialVars(env, existing, files[BaseFilename(env) := base])
  {
    assert LocalFilename(env) != BaseFilename(env) by {
      assert |LocalFilename(env)| > |BaseFilename(env)|;
    }
  }

  /** `.env.test` holding `A=1` and `.env.test.local` holding `A=2`: the store loads the local file. */
  lemma LocalOverrideEndToEnd()
    ensures InitialVars("test", {".env.test", ".env.test.local"},
                        map[".env.test" := ["A=1"], ".env.test.local" := ["A=2"]]) == map["A" := "2"]
  {
    var existing := {".env.test", ".env.test.local"};
    assert ResolveFilename("test", existing) == ".env.test.local" by {
      assert LocalFilename("test") == ".env.test.local";
    }
    LoadedLocalTestFile();
  }

  /** The local file of the end-to-end example, `A=2`, loads `A` as `2`. */
  lemma LoadedLocalTestFile()
    ensures Loaded(["A=2"]) == map["A" := "2"]
  {
    assert ParseLine("A=2") == Some(Entry("A", "2")) by {
      ParseLineTrimmed("A=2", "A", "2");
    }
    LoadedOneLine("A=2");
  }

  // ---------------------------------------------------------------------------
  // The store

  class DotEnv {
    var vars: map<string, string>

    /** `DotEnv::new`: resolve the filename, load it, fall back to an empty map on error. */
    constructor (env: string, existing: set<string>, files: map<string, seq<string>>)
      ensures vars == InitialVars(env, existing, files)
    {
      var filename := ResolveFilename(env, existing);
      var loaded := LoadEnv(filename, files);
      vars := loaded.UnwrapOr(map[]);
    }

    /**
     * `load_env`: always Ok. A file that cannot be opened gives the empty map;
     * otherwise each line is parsed in order and inserted.
     */
    static method LoadEnv(filename: string, files: map<string, seq<string>>)
      returns (r: Result<map<string, string>, IoError>)
      ensures r.Ok?
      ensures filename !in files ==> r.value == map[]
      ensures filename in files ==> r.value == Loaded(files[filename])
    {
      var vars: map<string, string> := map[];
      if filename in files {
        var lines := files[filename];
        for i := 0 to |lines|
          invariant vars == Loaded(lines[..i])
        {
          var line := lines[i];
          assert lines[..i + 1] == lines[..i] + [line];
          LoadedSnoc(lines[..i], line);
          if !(line != [] && line[0] == '#') && line != [] {
            var parts := SplitOnce(line, '=');
            if |parts| == 2 {
              var key := Trim(parts[0]);
              var value := Trim(parts[1]);
              var valueParsed := ParseVar(value);
              vars := vars[key := valueParsed];
            }
          }
        }
        assert lines[..|lines|] == lines;
      }
      r := Ok(vars);
    }

    /** `get_var`: the value stored under the upper-cased key, if any. */
    function GetVar(k: string): (r: Option<string>)
      reads this
      ensures r.Some? <==> Upper(k) in vars
      ensures r.Some? ==> r.value == vars[Upper(k)]
    {
      var m := AllVars();
      if Upper(k) in m then Some(m[Upper(k)]) else None
    }

    /** `has_var`: holds exactly when `get_var` finds a value. */
    function HasVar(k: string): (b: bool)
      reads this
      ensures b <==> GetVar(k).Some?
    {
      Upper(k) in AllVars()
    }

    /** `all_vars`: the whole map, as loaded and set. */
    function AllVars(): (m: map<string, string>)
      reads this
      ensures m == vars
    {
      vars
    }

    /**
     * `set_var`: inserts the parsed value under the upper-cased key only when
     * that key is absent; reports whether it inserted.
     */
    method SetVar(k: string, v: string) returns (added: bool)
      modifies this`vars
      ensures added <==> Upper(k) !in old(vars)
      ensures added ==> vars == old(vars)[Upper(k) := ParseVar(v)]
      ensures !added ==> vars == old(vars)
      ensures GetVar(k) == if added then Some(ParseVar(v)) else old(GetVar(k))
    {
      var keyUpper := Upper(k);
      UpperIdempotent(k);
      if HasVar(keyUpper) {
        added := false;
      } else {
        vars := vars[keyUpper := ParseVar(v)];
        added := true;
      }
    }
  }

  /** Lookups ignore case: a key and its upper-case form find the same value. */
  lemma GetVarIgnoresCase(d: DotEnv, k: string)
    ensures d.GetVar(k) == d.GetVar(Upper(k))
  {
    UpperIdempotent(k);
  }

  /** A stored key is reachable through `has_var` exactly when it holds no lower-case letter. */
  lemma ReachableKeys(d: DotEnv, key: string)
    ensures (exists k :: Upper(k) == key && d.HasVar(k)) <==> key in d.vars && NoLower(key)
  {
    if key in d.vars && NoLower(key) {
      UpperFixesNoLower(key);
      assert d.HasVar(key);
    }
  }

  /** A file of the one line `key=value`, both sides without surrounding whitespace, loads `key` as written. */
  lemma LoadedOneEntry(key: string, value: string)
    requires '=' !in key && (key != [] ==> key[0] != '#')
    requires Trimmed(key) && Trimmed(value)
    ensures Loaded([key + "=" + value]) == map[key := ParseVar(value)]
  {
    var line := key + "=" + value;
    assert line[0] != '#' by {
      if key == [] { assert line[0] == '='; } else { assert line[0] == key[0]; }
    }
    ParseLineTrimmed(line, key, value);
    LoadedOneLine(line);
  }

  /** A key loaded with a lower-case letter in it (`foo=bar`) is stored, yet no lookup reaches it. */
  lemma LowercaseFileKeyUnreachable(d: DotEnv, key: string, value: string)
    requires '=' !in key && (key != [] ==> key[0] != '#')
    requires Trimmed(key) && Trimmed(value) && !NoLower(key)
    requires d.vars == Loaded([key + "=" + value])
    ensures d.vars == map[key := ParseVar(value)]
    ensures forall k :: d.GetVar(k) == None
  {
    LoadedOneEntry(key, value);
    LowerNotInUpperRange(key);
  }

  /** A line `KEY="text"` with an upper-case key is found, quotes stripped, under every spelling of the key. */
  lemma QuotedUppercaseKeyFound(d: DotEnv, key: string, text: string, k: string)
    requires '=' !in key && (key != [] ==> key[0] != '#')
    requires Trimmed(key) && NoLower(key)
    requires d.vars == Loaded([key + "=" + ([Quote] + text + [Quote])])
    requires Upper(k) == key
    ensures d.GetVar(k) == Some(text)
  {
    LoadedOneEntry(key, [Quote] + text + [Quote]);
    ParseVarRoundTrip(text);
  }

  /** The first `set_var` of a new key wins; a second one for the same key is refused. */
  method SetVarFirstWriteWins(env: string, existing: set<string>, files: map<string, seq<string>>)
    returns (first: bool, second: bool, got: Option<string>)
    requires "NEW" !in InitialVars(env, existing, files)
    ensures first && !second && got == Some("x")
  {
    var d := new DotEnv(env, existing, files);
    assert Upper("NEW") == "NEW" by { UpperFixesNoLower("NEW"); }
    first := d.SetVar("NEW", "x");
    assert Upper("new") == "NEW";
    second := d.SetVar("new", "y");
    got := d.GetVar("new");
  }
}
