/** `load_dotenv`: each line of a `.env` file either is skipped or yields a
    key/value pair, and pairs are added to the environment with `setdefault`,
    so neither a variable that is already set nor an earlier line is ever
    overridden. The environment is a map; reading the file is the parameter
    `file` (None when the file does not exist). */
module Dotenv {
  import opened Results
  import opened Text

  predicate IsDoubleQuote(c: char) { c == '"' }

  predicate IsSingleQuote(c: char) { c == '\'' }

  /** `value.strip().strip('"').strip("'")`. */
  function Unquote(value: string): (r: string)
    ensures r == [] || (!IsSingleQuote(r[0]) && !IsSingleQuote(r[|r| - 1]))
  {
    Trim(Trim(Strip(value), IsDoubleQuote), IsSingleQuote)
  }

  /** The assignment a line carries, or None for a skipped line: blank, a
      comment, or without `=`. */
  function ParseLine(raw: string): (r: Option<(string, string)>)
    ensures var line := Strip(raw);
            r.None? <==> line == [] || line[0] == '#' || '=' !in line
    ensures r.Some? ==> '=' !in r.value.0
    ensures r.Some? ==> var key := r.value.0;
                        key == [] || (!IsSpace(key[0]) && !IsSpace(key[|key| - 1]))
  {
    var line := Strip(raw);
    if line == [] || line[0] == '#' || '=' !in line then None
    else
      var i := Find(line, '=').value;
      var key := Strip(line[..i]);
      assert '=' !in key by {
        assert forall k :: 0 <= k < |key| ==> key[k] in line[..i];
      }
      Some((key, Unquote(line[i + 1..])))
  }

  /** What `os.environ` cannot hold: CPython raises an exception for a NUL
      character in the name or the value (ValueError) and for an empty name
      (OSError from `setenv`). */
  predicate Storable(key: string, value: string) {
    key != [] && '\0' !in key && '\0' !in value
  }

  /** The exception of a refused `setdefault` (ValueError or OSError), which
      ends the run. */
  datatype EnvError = Unstorable(key: string, value: string)

  /** `os.environ.setdefault(key, value)`: a variable that is set keeps its
      value, and an unset one is added unless `os.environ` refuses it. */
  function SetDefault(env: map<string, string>, key: string, value: string): (r: Result<map<string, string>, EnvError>)
    ensures r.Ok? ==> forall k :: k in env ==> k in r.value && r.value[k] == env[k]
    ensures r.Ok? ==> forall k :: k in r.value && k !in env ==> k == key && r.value[k] == value
    ensures r.Err? <==> key !in env && !Storable(key, value)
    ensures r.Err? ==> r.error == Unstorable(key, value)
  {
    if key in env then Ok(env)
    else if !Storable(key, value) then Err(Unstorable(key, value))
    else Ok(env[key := value])
  }

  /** One line of the file: skipped, or a `setdefault` of its assignment. */
  function Apply(env: map<string, string>, raw: string): (r: Result<map<string, string>, EnvError>)
    ensures r.Ok? ==> forall k :: k in env ==> k in r.value && r.value[k] == env[k]
    ensures r.Ok? ==> forall k :: k in r.value && k !in env ==> ParseLine(raw) == Some((k, r.value[k]))
    ensures r.Err? ==> ParseLine(raw) == Some((r.error.key, r.error.value))
    ensures r.Err? ==> r.error.key !in env && !Storable(r.error.key, r.error.value)
  {
    match ParseLine(raw)
    case None => Ok(env)
    case Some((key, value)) => SetDefault(env, key, value)
  }

  /** The loop over the file's lines, in order, stopping at a refused assignment. */
  function Load(env: map<string, string>, lines: seq<string>): (r: Result<map<string, string>, EnvError>)
    ensures r.Ok? ==> forall k :: k in env ==> k in r.value && r.value[k] == env[k]
    ensures r.Err? ==> r.error.key !in env && !Storable(r.error.key, r.error.value)
    decreases |lines|
  {
    if lines == [] then Ok(env)
    else match Apply(env, lines[0])
      case Err(e) => Err(e)
      case Ok(env') => Load(env', lines[1..])
  }

  /** `load_dotenv(path)`. */
  function LoadDotenv(file: Option<string>, env: map<string, string>): (r: Result<map<string, string>, EnvError>)
    ensures file.None? ==> r == Ok(env)
    ensures r.Ok? ==> forall k :: k in env ==> k in r.value && r.value[k] == env[k]
    ensures r.Err? ==> r.error.key !in env && !Storable(r.error.key, r.error.value)
  {
    match file
    case None => Ok(env)
    case Some(text) =>
      LoadCharacterized(env, SplitLines(text));
      Load(env, SplitLines(text))
  }

  /** The value the first assignment to `key` among `lines` gives it. */
  function FirstValue(lines: seq<string>, key: string): Option<string>
    decreases |lines|
  {
    if lines == [] then None
    else match ParseLine(lines[0])
      case Some((k, v)) => if k == key then Some(v) else FirstValue(lines[1..], key)
      case None => FirstValue(lines[1..], key)
  }

  /** `m` is `env` extended with the first assignment of every key `env` lacks. */
  ghost predicate Extends(m: map<string, string>, env: map<string, string>, lines: seq<string>) {
    forall k ::
      && (k in m <==> k in env || FirstValue(lines, k).Some?)
      && (k in m ==> m[k] == if k in env then env[k] else FirstValue(lines, k).value)
  }

  /** Every variable the file would newly set can be stored. */
  ghost predicate AllStorable(env: map<string, string>, lines: seq<string>) {
    forall k :: k !in env && FirstValue(lines, k).Some? ==> Storable(k, FirstValue(lines, k).value)
  }

  /** Loading succeeds exactly when every variable the file newly sets can be
      stored; it then keeps every variable already set and otherwise takes the
      first assignment in the file, so later assignments to the same key are
      ignored. A refusal names the first assignment of a variable that was unset. */
  lemma {:induction false} LoadCharacterized(env: map<string, string>, lines: seq<string>)
    ensures Load(env, lines).Ok? <==> AllStorable(env, lines)
    ensures Load(env, lines).Ok? ==> Extends(Load(env, lines).value, env, lines)
    ensures Load(env, lines).Err? ==>
              var e := Load(env, lines).error;
              e.key !in env && FirstValue(lines, e.key) == Some(e.value) && !Storable(e.key, e.value)
    decreases |lines|
  {
    if lines != [] {
      var rest := lines[1..];
      match ParseLine(lines[0])
      case None =>
        LoadCharacterized(env, rest);
        assert Load(env, lines) == Load(env, rest);
        assert forall k :: FirstValue(lines, k) == FirstValue(rest, k);
      case Some((k0, v0)) =>
        assert forall k :: k != k0 ==> FirstValue(lines, k) == FirstValue(rest, k);
        assert FirstValue(lines, k0) == Some(v0);
        if k0 in env {
          LoadCharacterized(env, rest);
          assert Load(env, lines) == Load(env, rest);
          assert AllStorable(env, lines) <==> AllStorable(env, rest) by {
            StorableSame(env, lines, k0);
          }
          if Load(env, rest).Ok? {
            assert Extends(Load(env, rest).value, env, lines) by {
              ExtendsSame(Load(env, rest).value, env, lines, k0);
            }
          }
        } else if Storable(k0, v0) {
          var env' := env[k0 := v0];
          LoadCharacterized(env', rest);
          assert Load(env, lines) == Load(env', rest) by {
            assert Apply(env, lines[0]) == Ok(env');
          }
          assert AllStorable(env, lines) <==> AllStorable(env', rest) by {
            StorableStep(env, lines, k0, v0);
          }
          if Load(env', rest).Ok? {
            assert Extends(Load(env', rest).value, env, lines) by {
              ExtendsStep(Load(env', rest).value, env, lines, k0, v0);
            }
          }
        }
    }
  }

  /** A first line assigning a key already set changes which keys are newly set by nothing. */
  lemma StorableSame(env: map<string, string>, lines: seq<string>, k0: string)
    requires lines != [] && k0 in env
    requires forall k :: k != k0 ==> FirstValue(lines, k) == FirstValue(lines[1..], k)
    ensures AllStorable(env, lines) <==> AllStorable(env, lines[1..])
  {
    forall k | k !in env
      ensures FirstValue(lines, k) == FirstValue(lines[1..], k)
    {
    }
  }

  /** A first line newly setting `k0` to a storable value moves it into the environment. */
  lemma StorableStep(env: map<string, string>, lines: seq<string>, k0: string, v0: string)
    requires lines != [] && k0 !in env && Storable(k0, v0) && FirstValue(lines, k0) == Some(v0)
    requires forall k :: k != k0 ==> FirstValue(lines, k) == FirstValue(lines[1..], k)
    ensures AllStorable(env, lines) <==> AllStorable(env[k0 := v0], lines[1..])
  {
    var env' := env[k0 := v0];
    forall k | k != k0
      ensures (k !in env <==> k !in env') && FirstValue(lines, k) == FirstValue(lines[1..], k)
    {
    }
  }

  /** Extends carries over a first line that assigns a key already set. */
  lemma ExtendsSame(m: map<string, string>, env: map<string, string>, lines: seq<string>, k0: string)
    requires lines != [] && k0 in env
    requires forall k :: k != k0 ==> FirstValue(lines, k) == FirstValue(lines[1..], k)
    requires Extends(m, env, lines[1..])
    ensures Extends(m, env, lines)
  {
    forall k
      ensures && (k in m <==> k in env || FirstValue(lines, k).Some?)
              && (k in m ==> m[k] == if k in env then env[k] else FirstValue(lines, k).value)
    {
      assert && (k in m <==> k in env || FirstValue(lines[1..], k).Some?)
             && (k in m ==> m[k] == if k in env then env[k] else FirstValue(lines[1..], k).value);
    }
  }

  /** Extends carries over a first line that newly sets `k0`. */
  lemma ExtendsStep(m: map<string, string>, env: map<string, string>, lines: seq<string>, k0: string, v0: string)
    requires lines != [] && k0 !in env && FirstValue(lines, k0) == Some(v0)
    requires forall k :: k != k0 ==> FirstValue(lines, k) == FirstValue(lines[1..], k)
    requires Extends(m, env[k0 := v0], lines[1..])
    ensures Extends(m, env, lines)
  {
    var env' := env[k0 := v0];
    forall k
      ensures && (k in m <==> k in env || FirstValue(lines, k).Some?)
              && (k in m ==> m[k] == if k in env then env[k] else FirstValue(lines, k).value)
    {
      assert && (k in m <==> k in env' || FirstValue(lines[1..], k).Some?)
             && (k in m ==> m[k] == if k in env' then env'[k] else FirstValue(lines[1..], k).value);
    }
  }

  /** A `.env` file holding only `=value` cannot be loaded into an environment
      without an empty-named variable: the empty name is refused. */
  lemma EmptyNameRefused(env: map<string, string>, value: string)
    requires "" !in env
    requires value != [] && !IsSpace(value[0]) && !IsSpace(value[|value| - 1])
    requires value[0] != '"' && value[0] != '\'' && value[|value| - 1] != '"' && value[|value| - 1] != '\''
    requires '\n' !in value
    ensures LoadDotenv(Some("=" + value), env) == Err(Unstorable("", value))
  {
    var line := "=" + value;
    assert SplitLines(line) == [line] by {
      assert line[|line| - 1] == value[|value| - 1];
      assert '\n' !in line by {
        assert forall k :: 1 <= k < |line| ==> line[k] == value[k - 1];
      }
    }
    assert ParseLine(line) == Some(("", value)) by {
      ParseKeyValueFree(value);
    }
    assert Load(env, [line]) == Err(Unstorable("", value));
  }

  /** `=value` parses to the empty name and the value itself. */
  lemma ParseKeyValueFree(value: string)
    requires value != [] && !IsSpace(value[0]) && !IsSpace(value[|value| - 1])
    requires value[0] != '"' && value[0] != '\'' && value[|value| - 1] != '"' && value[|value| - 1] != '\''
    ensures ParseLine("=" + value) == Some(("", value))
  {
    var line := "=" + value;
    assert line[0] == '=' && line[|line| - 1] == value[|value| - 1];
    StripUnpadded(line);
    NamelessLine(line);
    assert line[1..] == value;
    UnquotePlain(value);
  }

  /** A stripped line starting with `=` has the empty name. */
  lemma NamelessLine(line: string)
    requires Strip(line) == line && line != [] && line[0] == '='
    ensures ParseLine(line) == Some(("", Unquote(line[1..])))
  {
    ParseLineAt(line, 0);
    assert line[..0] == [];
  }

  /** A stripped, non-comment line whose first `=` is at `i`. */
  lemma ParseLineAt(line: string, i: nat)
    requires Strip(line) == line && line != [] && line[0] != '#'
    requires i < |line| && line[i] == '=' && '=' !in line[..i]
    ensures ParseLine(line) == Some((Strip(line[..i]), Unquote(line[i + 1..])))
  {
    FindIs(line, '=', i);
  }

  /** A stripped, non-comment line `a=b` where `a` has no `=`. */
  lemma ParseSplit(line: string, a: string, b: string)
    requires line == a + ("=" + b)
    requires line != [] && line[0] != '#'
    requires Strip(line) == line && '=' !in a
    ensures ParseLine(line) == Some((Strip(a), Unquote(b)))
  {
    Around(a, '=', b);
    ParseLineAt(line, |a|);
  }

  /** A plain `KEY = value` line parses back to its key and value; the value
      may itself contain `=`. */
  lemma ParseAssignment(key: string, w1: string, w2: string, value: string)
    requires key != [] && !IsSpace(key[0]) && !IsSpace(key[|key| - 1]) && key[0] != '#'
    requires '=' !in key
    requires AllSpace(w1) && AllSpace(w2)
    requires value != [] && !IsSpace(value[0]) && !IsSpace(value[|value| - 1])
    requires value[0] != '"' && value[0] != '\''
    requires value[|value| - 1] != '"' && value[|value| - 1] != '\''
    ensures ParseLine(key + w1 + "=" + w2 + value) == Some((key, value))
  {
    var line := key + w1 + "=" + w2 + value;
    var a, b := key + w1, w2 + value;
    assert line == a + ("=" + b);
    PaddedSplit(key, w1, w2, value);
    assert Strip(a) == key by {
      StripKeyPadding(key, w1);
    }
    assert Unquote(b) == value by {
      StripPaddedValue(w2, value);
      StripUnpadded(value);
      UnquotePlain(value);
    }
  }

  /** `KEY<spaces>=<spaces>value` splits at its only `=` before the value. */
  lemma PaddedSplit(key: string, w1: string, w2: string, value: string)
    requires key != [] && !IsSpace(key[0]) && key[0] != '#' && '=' !in key
    requires AllSpace(w1)
    requires value != [] && !IsSpace(value[|value| - 1])
    ensures ParseLine(key + w1 + "=" + w2 + value) == Some((Strip(key + w1), Unquote(w2 + value)))
  {
    var line := key + w1 + "=" + w2 + value;
    var a, b := key + w1, w2 + value;
    assert line == a + ("=" + b);
    EndChars(a, b);
    StripUnpadded(line);
    assert forall k :: 0 <= k < |w1| ==> w1[k] != '=';
    assert '=' !in a;
    ParseSplit(line, a, b);
  }

  /** The same line with the value wrapped in double or single quotes. */
  lemma ParseQuotedAssignment(key: string, q: char, value: string)
    requires key != [] && !IsSpace(key[0]) && !IsSpace(key[|key| - 1]) && key[0] != '#'
    requires '=' !in key
    requires q == '"' || q == '\''
    requires value == [] || (value[0] != '"' && value[0] != '\'')
    requires value == [] || (value[|value| - 1] != '"' && value[|value| - 1] != '\'')
    ensures ParseLine(key + "=" + [q] + value + [q]) == Some((key, value))
  {
    var b := [q] + value + [q];
    assert key + "=" + [q] + value + [q] == key + ("=" + b);
    assert b[|b| - 1] == q;
    ParseKeyValue(key, b);
    UnquoteQuoted(q, value);
  }

  /** `KEY=rest` with an unpadded key and a rest ending in a non-space. */
  lemma ParseKeyValue(key: string, b: string)
    requires key != [] && !IsSpace(key[0]) && !IsSpace(key[|key| - 1]) && key[0] != '#'
    requires '=' !in key
    requires b != [] && !IsSpace(b[|b| - 1])
    ensures ParseLine(key + ("=" + b)) == Some((key, Unquote(b)))
  {
    var line := key + ("=" + b);
    EndChars(key, b);
    StripUnpadded(line);
    ParseSplit(line, key, b);
    StripKeyPadding(key, []);
    assert key + [] == key;
  }

  lemma EndChars(a: string, b: string)
    requires a != [] && b != []
    ensures var s := a + ("=" + b);
            s != [] && s[0] == a[0] && s[|s| - 1] == b[|b| - 1]
  {
  }

  lemma Around(a: string, c: char, b: string)
    ensures var s := a + ([c] + b);
            s[..|a|] == a && s[|a|] == c && s[|a| + 1..] == b
  {
  }

  lemma StripKeyPadding(key: string, w: string)
    requires key != [] && !IsSpace(key[0]) && !IsSpace(key[|key| - 1])
    requires AllSpace(w)
    ensures Strip(key + w) == key
  {
    TrimStartKept(key, w, IsSpace);
    TrimEndAppend(key, w, IsSpace);
    SpacesTrimToNothing(w);
    TrimEndKeeps(key, IsSpace);
  }

  lemma StripPaddedValue(w: string, value: string)
    requires AllSpace(w)
    requires value == [] || (!IsSpace(value[0]) && !IsSpace(value[|value| - 1]))
    ensures Strip(w + value) == value
  {
    TrimStartDropped(w, value, IsSpace);
    TrimEndKeeps(value, IsSpace);
    if value != [] {
      TrimStartKept(value, [], IsSpace);
      assert value + [] == value;
    }
  }

  lemma UnquotePlain(value: string)
    requires value == [] || (!IsSpace(value[0]) && !IsSpace(value[|value| - 1]))
    requires value == [] || (value[0] != '"' && value[0] != '\'')
    requires value == [] || (value[|value| - 1] != '"' && value[|value| - 1] != '\'')
    ensures Unquote(value) == value
  {
    StripPaddedValue([], value);
    assert [] + value == value;
    KeptByTrim(value, IsDoubleQuote);
    KeptByTrim(value, IsSingleQuote);
  }

  lemma KeptByTrim(s: string, drop: char -> bool)
    requires s == [] || (!drop(s[0]) && !drop(s[|s| - 1]))
    ensures Trim(s, drop) == s
  {
    TrimEndKeeps(s, drop);
    if s != [] {
      TrimStartKept(s, [], drop);
      assert s + [] == s;
    }
  }

  lemma UnquoteQuoted(q: char, value: string)
    requires q == '"' || q == '\''
    requires value == [] || (value[0] != '"' && value[0] != '\'')
    requires value == [] || (value[|value| - 1] != '"' && value[|value| - 1] != '\'')
    ensures Unquote([q] + value + [q]) == value
  {
    var quoted := [q] + value + [q];
    assert quoted[0] == q && quoted[|quoted| - 1] == q;
    KeptByTrim(quoted, IsSpace);
    assert Strip(quoted) == quoted;
    if q == '"' {
      TrimQuotes(q, value, IsDoubleQuote);
      KeptByTrim(value, IsSingleQuote);
    } else {
      KeptByTrim(quoted, IsDoubleQuote);
      TrimQuotes(q, value, IsSingleQuote);
    }
  }

  /** Stripping a quote character drops exactly one matching pair around a value
      that neither starts nor ends with it. */
  lemma TrimQuotes(q: char, value: string, drop: char -> bool)
    requires drop(q)
    requires value == [] || (!drop(value[0]) && !drop(value[|value| - 1]))
    ensures Trim([q] + value + [q], drop) == value
  {
    var quoted := [q] + value + [q];
    var vq := value + [q];
    assert TrimStart(quoted, drop) == TrimStart(vq, drop) by {
      assert quoted == [q] + vq;
      TrimStartDropped([q], vq, drop);
    }
    if value == [] {
      assert vq == [q];
      assert TrimStart([q], drop) == [] by {
        assert [q][1..] == [];
      }
    } else {
      assert TrimStart(vq, drop) == vq by {
        TrimStartKeeps(value, drop);
        TrimStartKept(value, [q], drop);
      }
      assert TrimEnd(vq, drop) == value by {
        assert TrimEnd([q], drop) == [] by {
          assert [q][..0] == [];
        }
        TrimEndAppend(value, [q], drop);
        TrimEndKeeps(value, drop);
      }
    }
  }
}
