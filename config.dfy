/** src/config.py: the `.env` loader, the Gemini credential check and the
    configuration constants. The process environment (`os.environ`) is a
    `map<string, string>` passed in and returned. */
module Config {
  import opened Wrappers
  import opened PyStr
  import opened Seqs

  /** Model used for file analysis and transcription. */
  const AUDIO_MODEL: string := "gemini-3-flash-preview"

  /** Model used for real-time audio. */
  const LIVE_MODEL: string := "gemini-2.5-flash-native-audio-preview-12-2025"

  /** Files strictly smaller than this many bytes are sent inline. */
  const INLINE_SIZE_THRESHOLD: nat := 20 * 1024 * 1024

  const GEMINI_API_KEY: string := "GEMINI_API_KEY"

  type Environment = map<string, string>

  datatype ConfigurationError = ConfigurationError(message: string)

  const MISSING_GEMINI_KEY_MESSAGE: string :=
    "GEMINI_API_KEY environment variable is not set.\n"
    + "Please set it in your .env file or environment:\n"
    + "  export GEMINI_API_KEY='your-api-key-here'\n"
    + "Or add it to your .env file:\n"
    + "  GEMINI_API_KEY=your-api-key-here"

  /** `os.environ.get(name)` followed by Python's truthiness test: the value
      when the variable is set to a non-empty string, None otherwise. */
  function NonEmptyVariable(env: Environment, name: string): (r: Option<string>)
    ensures r.Some? <==> name in env && env[name] != ""
    ensures r.Some? ==> r.value == env[name]
  {
    if name in env && env[name] != "" then Some(env[name]) else None
  }

  /** `get_api_key`: the Gemini key, or ConfigurationError when it is absent
      or empty. */
  function GetApiKey(env: Environment): (r: Result<string, ConfigurationError>)
    ensures r.Ok? <==> GEMINI_API_KEY in env && env[GEMINI_API_KEY] != ""
    ensures r.Ok? ==> r.value == env[GEMINI_API_KEY]
    ensures r.Err? ==> r.error == ConfigurationError(MISSING_GEMINI_KEY_MESSAGE)
  {
    match NonEmptyVariable(env, GEMINI_API_KEY)
    case Some(key) => Ok(key)
    case None => Err(ConfigurationError(MISSING_GEMINI_KEY_MESSAGE))
  }

  /** The value part of a `.env` line after the first `=`: whitespace is
      stripped, then every leading and trailing `"`, then every leading and
      trailing `'`; whitespace uncovered by removing quotes stays. */
  function CleanValue(raw: string): (r: string)
    ensures r == [] || (r[0] != '\'' && r[|r| - 1] != '\'')
  {
    var unquoted := StripChars(Strip(raw), iset{'"'});
    StripCharsSpec(unquoted, iset{'\''});
    StripChars(unquoted, iset{'\''})
  }

  /** A value in double or single quotes loses exactly its quotes; whitespace
      inside the quotes stays, because `strip()` ran before the quotes went. */
  lemma QuotedValueKept(v: string)
    requires v != [] && v[0] != '"' && v[0] != '\'' && v[|v| - 1] != '"' && v[|v| - 1] != '\''
    ensures CleanValue("\"" + v + "\"") == v
    ensures CleanValue("'" + v + "'") == v
  {
    var dq := "\"" + v + "\"";
    StripCharsNoop(dq, Whitespace);
    StripOneEach(v, '"', iset{'"'});
    StripCharsNoop(v, iset{'\''});
    var sq := "'" + v + "'";
    StripCharsNoop(sq, Whitespace);
    StripCharsNoop(sq, iset{'"'});
    StripOneEach(v, '\'', iset{'\''});
  }

  /** A line already stripped of surrounding whitespace, split at its first
      `=` into a trimmed key and a cleaned value. */
  function SplitEntry(s: string): (string, string)
    requires '=' in s
  {
    var i := IndexOf(s, '=');
    (Strip(s[..i]), CleanValue(s[i + 1..]))
  }

  /** One line of a `.env` file: None for blank lines, `#` comments and
      lines without `=`; otherwise the pair (key, value) split at the first `=`. */
  function ParseLine(line: string): (r: Option<(string, string)>)
    ensures var s := Strip(line); r.None? <==> (s == [] || s[0] == '#' || !Contains(s, '='))
  {
    var s := Strip(line);
    if s == [] || s[0] == '#' then None
    else if !Contains(s, '=') then None
    else Some(SplitEntry(s))
  }

  /** The key ParseLine returns holds no `=` and no surrounding whitespace. */
  lemma ParsedKeyIsClean(line: string)
    requires ParseLine(line).Some?
    ensures var key := ParseLine(line).value.0; '=' !in key && Strip(key) == key
  {
    var s := Strip(line);
    var i := IndexOf(s, '=');
    StripKeepsOut(s[..i], '=');
    StripIdempotent(s[..i]);
  }

  /** SplitEntry cuts at the FIRST `=`: the key comes from the text before
      it, which holds no `=`, the value from all the text after it, which may
      itself contain `=`. */
  lemma SplitEntryAtFirstEquals(s: string)
    requires '=' in s
    ensures exists before, after :: (s == before + "=" + after && '=' !in before
      && SplitEntry(s) == (Strip(before), CleanValue(after)))
  {
    var i := IndexOf(s, '=');
    SplitAround(s, i);
    var before, after := s[..i], s[i + 1..];
    assert '=' !in before;
    assert SplitEntry(s) == (Strip(before), CleanValue(after));
  }

  /** ParseLine splits the stripped line at its first `=` (see SplitEntryAtFirstEquals). */
  lemma SplitAtFirstEquals(line: string)
    requires ParseLine(line).Some?
    ensures var s := Strip(line); var (key, value) := ParseLine(line).value;
      exists before, after :: (s == before + "=" + after && '=' !in before
        && key == Strip(before) && value == CleanValue(after))
  {
    SplitEntryAtFirstEquals(Strip(line));
  }

  /** A trimmed key followed by `=` and a trimmed value needs no stripping. */
  lemma FormattedLineIsTrimmed(key: string, value: string)
    requires Strip(key) == key && Strip(value) == value
    ensures Strip(key + "=" + value) == key + "=" + value
  {
    var line := key + "=" + value;
    assert line[0] !in Whitespace by {
      if key == [] { assert line[0] == '='; } else { assert line[0] == key[0]; }
    }
    assert line[|line| - 1] !in Whitespace by {
      if value == [] { assert line[|line| - 1] == '='; } else { assert line[|line| - 1] == value[|value| - 1]; }
    }
    StripCharsNoop(line, Whitespace);
  }

  /** In `key=value` with no `=` in the key, the first `=` follows the key. */
  lemma FormattedLineSplits(key: string, value: string)
    requires '=' !in key
    ensures SplitEntry(key + "=" + value) == (Strip(key), CleanValue(value))
  {
    var line := key + "=" + value;
    assert line[|key|] == '=';
    assert forall k :: 0 <= k < |key| ==> line[k] == key[k];
    assert IndexOf(line, '=') == |key|;
    assert line[..|key|] == key;
    assert line[|key| + 1..] == value;
  }

  /** A line with no surrounding whitespace that does not start with `#`
      and holds an `=` is split at its first `=`. */
  lemma ParseTrimmedLine(s: string)
    requires Strip(s) == s && s != [] && s[0] != '#' && '=' in s
    ensures ParseLine(s) == Some(SplitEntry(s))
  {
  }

  /** Writing `key=value` and reading it back gives the same pair, whenever
      the key is already trimmed, has no `=` and does not start a comment, and
      the value is already trimmed of whitespace and quotes. */
  lemma ParseFormattedLine(key: string, value: string)
    requires '=' !in key && Strip(key) == key && (key == [] || key[0] != '#')
    requires Strip(value) == value && CleanValue(value) == value
    ensures ParseLine(key + "=" + value) == Some((key, value))
  {
    var line := key + "=" + value;
    FormattedLineIsTrimmed(key, value);
    FormattedLineSplits(key, value);
    assert line[|key|] == '=';
    assert line[0] != '#' by {
      if key == [] { assert line[0] == '='; } else { assert line[0] == key[0]; }
    }
    ParseTrimmedLine(line);
  }

  /** One parsed line, or None for a line that assigns nothing. */
  type Entry = Option<(string, string)>

  /** The entries of a file, line by line. */
  function ParseLines(lines: seq<string>): (entries: seq<Entry>)
    ensures |entries| == |lines|
    ensures forall k :: 0 <= k < |lines| ==> entries[k] == ParseLine(lines[k])
  {
    MapSeq(ParseLine, lines)
  }

  /** The environment after storing `entries` in order, as the assignment
      `os.environ[key] = value` in the loop body of `load_env_file` does. */
  function Store(env: Environment, entries: seq<Entry>): Environment
  {
    if entries == [] then env
    else
      var previous := Store(env, entries[..|entries| - 1]);
      match entries[|entries| - 1]
      case None => previous
      case Some((key, value)) => previous[key := value]
  }

  /** The environment after loading the lines of an existing `.env` file. */
  function ApplyLines(env: Environment, lines: seq<string>): Environment
  {
    Store(env, ParseLines(lines))
  }

  /** Whether `line` assigns the variable `key`. */
  predicate Assigns(line: string, key: string)
  {
    ParseLine(line).Some? && ParseLine(line).value.0 == key
  }

  /** Whether `os.environ[key] = value` accepts an entry: the name must be
      non-empty and neither name nor value may hold a NUL character;
      otherwise the assignment raises. */
  predicate Accepted(entry: Entry)
  {
    entry.None? || (entry.value.0 != "" && '\0' !in entry.value.0 && '\0' !in entry.value.1)
  }

  /** The index of the first entry the environment rejects, or the number of
      entries when it accepts them all (see FirstRejectedSpec). */
  function FirstRejected(entries: seq<Entry>): (i: nat)
    ensures i <= |entries|
  {
    if entries == [] then 0
    else if !Accepted(entries[0]) then 0
    else 1 + FirstRejected(entries[1..])
  }

  /** Every entry before the first rejected one is accepted, and the first
      rejected one is not. */
  lemma {:induction false} FirstRejectedSpec(entries: seq<Entry>)
    ensures forall k :: 0 <= k < FirstRejected(entries) ==> Accepted(entries[k])
    ensures FirstRejected(entries) < |entries| ==> !Accepted(entries[FirstRejected(entries)])
  {
    if entries != [] && Accepted(entries[0]) {
      FirstRejectedSpec(entries[1..]);
    }
  }

  /** The first rejected entry is the one after a run of accepted ones. */
  lemma FirstRejectedAt(entries: seq<Entry>, i: nat)
    requires i <= |entries|
    requires forall k :: 0 <= k < i ==> Accepted(entries[k])
    requires i < |entries| ==> !Accepted(entries[i])
    ensures FirstRejected(entries) == i
  {
    FirstRejectedSpec(entries);
  }

  /** Scanning entries in order: at an index not past the first rejected
      entry, an accepted entry means the first rejected one lies further on,
      and a rejected one is the first. */
  lemma FirstRejectedStep(entries: seq<Entry>, i: nat)
    requires i < |entries| && i <= FirstRejected(entries)
    ensures Accepted(entries[i]) ==> i + 1 <= FirstRejected(entries)
    ensures !Accepted(entries[i]) ==> FirstRejected(entries) == i
  {
    FirstRejectedSpec(entries);
  }

  /** Whether every assignment in the file is accepted, so that loading it
      does not raise. */
  predicate Loads(lines: seq<string>)
  {
    FirstRejected(ParseLines(lines)) == |lines|
  }

  /** For any line parser, the entries of a file are all accepted exactly
      when each line's entry is. */
  lemma AllAcceptedWith(parse: string -> Entry, lines: seq<string>)
    ensures FirstRejected(MapSeq(parse, lines)) == |lines| <==> forall k :: 0 <= k < |lines| ==> Accepted(parse(lines[k]))
  {
    FirstRejectedSpec(MapSeq(parse, lines));
    if forall k :: 0 <= k < |lines| ==> Accepted(parse(lines[k])) {
      FirstRejectedAt(MapSeq(parse, lines), |lines|);
    }
  }

  /** A file loads exactly when each of its lines is ignored or assigns a
      non-empty, NUL-free name a NUL-free value. */
  lemma LoadsIffAllAccepted(lines: seq<string>)
    ensures Loads(lines) <==> forall k :: 0 <= k < |lines| ==> Accepted(ParseLine(lines[k]))
  {
    AllAcceptedWith(ParseLine, lines);
  }

  /** A line `=value` assigns the empty name, which the environment rejects. */
  lemma EmptyNameRejected(value: string)
    requires Strip(value) == value && CleanValue(value) == value
    ensures ParseLine("=" + value) == Some(("", value)) && !Accepted(ParseLine("=" + value))
  {
    var line := "=" + value;
    assert line == "" + "=" + value;
    ParseFormattedLine("", value);
  }

  /** The loop of `load_env_file`, for any line parser: the entries are
      stored in order up to the first one the environment rejects, whose
      index is then `rejected`. */
  method StoreLines(parse: string -> Entry, env: Environment, lines: seq<string>)
    returns (result: Environment, rejected: Option<nat>)
    ensures result == Store(env, MapSeq(parse, lines[..FirstRejected(MapSeq(parse, lines))]))
    ensures rejected == None <==> FirstRejected(MapSeq(parse, lines)) == |lines|
    ensures rejected.Some? ==>
      rejected.value == FirstRejected(MapSeq(parse, lines)) < |lines| && !Accepted(parse(lines[rejected.value]))
  {
    result, rejected := env, None;
    for i := 0 to |lines|
      invariant result == Store(env, MapSeq(parse, lines[..i]))
      invariant i <= FirstRejected(MapSeq(parse, lines))
    {
      MapSeqPrefix(parse, lines, i);
      var parsed := parse(lines[i]);
      FirstRejectedStep(MapSeq(parse, lines), i);
      if !Accepted(parsed) {
        return result, Some(i);
      }
      if parsed.Some? {
        var (key, value) := parsed.value;
        result := result[key := value];
      }
    }
    assert lines[..|lines|] == lines;
  }

  /** `load_env_file`: when the file does not exist, the environment is
      returned unchanged. Otherwise its lines are parsed and stored in order
      until an assignment the environment rejects, which raises out of the
      function: `rejected` is then the index of that line, and `result` the
      environment holding the assignments before it. */
  method LoadEnvFile(env: Environment, fileExists: bool, lines: seq<string>)
    returns (result: Environment, rejected: Option<nat>)
    ensures !fileExists ==> result == env && rejected == None
    ensures fileExists ==> result == ApplyLines(env, lines[..FirstRejected(ParseLines(lines))])
    ensures fileExists ==> (rejected == None <==> Loads(lines))
    ensures fileExists && Loads(lines) ==> result == ApplyLines(env, lines)
    ensures rejected.Some? ==>
      rejected.value == FirstRejected(ParseLines(lines)) < |lines| &&
      ParseLine(lines[rejected.value]).Some? && !Accepted(ParseLine(lines[rejected.value]))
  {
    if !fileExists {
      return env, None;
    }
    result, rejected := StoreLines(ParseLine, env, lines);
    assert lines[..|lines|] == lines;
  }

  lemma StoreSnoc(env: Environment, entries: seq<Entry>, entry: Entry)
    ensures Store(env, entries + [entry]) ==
      match entry
      case None => Store(env, entries)
      case Some((key, value)) => Store(env, entries)[key := value]
  {
    assert (entries + [entry])[..|entries|] == entries;
  }

  /** An entry that assigns nothing leaves the stored result unchanged
      wherever it appears. */
  lemma {:induction false} StoreSkipsNone(env: Environment, front: seq<Entry>, back: seq<Entry>)
    ensures Store(env, front + [None] + back) == Store(env, front + back)
  {
    if back == [] {
      StoreSnoc(env, front, None);
      assert front + [None] + back == front + [None];
      assert front + back == front;
    } else {
      var n := |back| - 1;
      StoreSkipsNone(env, front, back[..n]);
      StoreSnoc(env, front + [None] + back[..n], back[n]);
      StoreSnoc(env, front + back[..n], back[n]);
      assert front + [None] + back == (front + [None] + back[..n]) + [back[n]];
      assert front + back == (front + back[..n]) + [back[n]];
    }
  }

  /** For any line parser, a line it maps to None leaves the stored result
      unchanged wherever it appears. */
  lemma StoreSkipsIgnoredLine(parse: string -> Entry, env: Environment, front: seq<string>, line: string, back: seq<string>)
    requires parse(line).None?
    ensures Store(env, MapSeq(parse, front + [line] + back)) == Store(env, MapSeq(parse, front + back))
  {
    MapSeqConcat(parse, front + [line], back);
    MapSeqConcat(parse, front, [line]);
    MapSeqConcat(parse, front, back);
    assert MapSeq(parse, [line]) == [None];
    StoreSkipsNone(env, MapSeq(parse, front), MapSeq(parse, back));
  }

  /** A line that parses to nothing (blank, comment, no `=`) leaves the
      result of loading unchanged wherever it appears in the file. */
  lemma IgnoredLineContributesNothing(env: Environment, front: seq<string>, line: string, back: seq<string>)
    requires var s := Strip(line); s == [] || s[0] == '#' || !Contains(s, '=')
    ensures ApplyLines(env, front + [line] + back) == ApplyLines(env, front + back)
  {
    StoreSkipsIgnoredLine(ParseLine, env, front, line, back);
  }

  /** A variable that no entry assigns keeps its prior presence and value. */
  lemma {:induction false} StoreKeepsUnassigned(env: Environment, entries: seq<Entry>, key: string)
    requires forall j :: 0 <= j < |entries| ==> entries[j].None? || entries[j].value.0 != key
    ensures key in Store(env, entries) <==> key in env
    ensures key in env ==> Store(env, entries)[key] == env[key]
  {
    if entries != [] {
      StoreKeepsUnassigned(env, entries[..|entries| - 1], key);
    }
  }

  /** A variable that no line assigns keeps its prior presence and value. */
  lemma UnassignedVariableUnchanged(env: Environment, lines: seq<string>, key: string)
    requires forall j :: 0 <= j < |lines| ==> !Assigns(lines[j], key)
    ensures key in ApplyLines(env, lines) <==> key in env
    ensures key in env ==> ApplyLines(env, lines)[key] == env[key]
  {
    StoreKeepsUnassigned(env, ParseLines(lines), key);
  }

  /** The last entry assigning a variable decides its stored value. */
  lemma {:induction false} StoreLastWins(env: Environment, entries: seq<Entry>, j: nat, key: string, value: string)
    requires j < |entries| && entries[j] == Some((key, value))
    requires forall j' :: j < j' < |entries| ==> entries[j'].None? || entries[j'].value.0 != key
    ensures key in Store(env, entries) && Store(env, entries)[key] == value
  {
    var n := |entries| - 1;
    if j < n {
      StoreLastWins(env, entries[..n], j, key, value);
    }
  }

  /** For a variable assigned on several lines, the last assigning line wins. */
  lemma LastAssignmentWins(env: Environment, lines: seq<string>, j: nat, key: string, value: string)
    requires j < |lines| && ParseLine(lines[j]) == Some((key, value))
    requires forall j' :: j < j' < |lines| ==> !Assigns(lines[j'], key)
    ensures key in ApplyLines(env, lines) && ApplyLines(env, lines)[key] == value
  {
    StoreLastWins(env, ParseLines(lines), j, key, value);
  }

  /** Loading a file whose last `GEMINI_API_KEY=` line carries a non-empty key
      makes `get_api_key` return exactly that key. */
  lemma LoadedKeyIsReturned(env: Environment, lines: seq<string>, j: nat, key: string)
    requires j < |lines| && ParseLine(lines[j]) == Some((GEMINI_API_KEY, key)) && key != ""
    requires forall j' :: j < j' < |lines| ==> !Assigns(lines[j'], GEMINI_API_KEY)
    ensures GetApiKey(ApplyLines(env, lines)) == Ok(key)
  {
    LastAssignmentWins(env, lines, j, GEMINI_API_KEY, key);
  }
}
