/** src/audio_understanding.py: MIME-type resolution for audio files, the
    choice between sending a file inline and uploading it, the transcription
    prompt, and the wait for an uploaded file to finish processing.
    `os.path.exists`, `os.path.getsize`, `mimetypes.guess_type` and the state
    reports of the Files API are inputs; the request that would be sent to
    the model is the result. */
module AudioUnderstanding {
  import opened Wrappers
  import opened PyStr
  import opened Config

  /** The errors the module raises, with their messages. */
  datatype AudioError =
    | FileNotFound(message: string)          // FileNotFoundError
    | UnsupportedFormat(message: string)     // ValueError
    | Configuration(cause: ConfigurationError)
    | ProcessingTimedOut(message: string)    // TimeoutError
    | ProcessingFailed(message: string)      // RuntimeError

  /** `AUDIO_MIME_TYPES`, in its declaration order. */
  const AUDIO_MIME_TYPES: seq<(string, string)> := [
    (".mp3", "audio/mp3"),
    (".wav", "audio/wav"),
    (".aiff", "audio/aiff"),
    (".aif", "audio/aiff"),
    (".aac", "audio/aac"),
    (".ogg", "audio/ogg"),
    (".flac", "audio/flac"),
    (".m4a", "audio/m4a"),
    (".opus", "audio/opus"),
    (".weba", "audio/webm"),
    (".webm", "audio/webm")
  ]

  /** `AUDIO_MIME_TYPES.keys()`, in order. */
  function SupportedExtensions(): (keys: seq<string>)
    ensures |keys| == |AUDIO_MIME_TYPES|
    ensures forall k :: 0 <= k < |keys| ==> keys[k] == AUDIO_MIME_TYPES[k].0
  {
    seq(|AUDIO_MIME_TYPES|, k requires 0 <= k < |AUDIO_MIME_TYPES| => AUDIO_MIME_TYPES[k].0)
  }

  /** `table.get(ext)` on a list of pairs, searching from index `i`: the
      value of the first pair whose key is `ext`. */
  function Lookup(table: seq<(string, string)>, ext: string, i: nat := 0): Option<string>
    requires i <= |table|
    decreases |table| - i
  {
    if i == |table| then None
    else if table[i].0 == ext then Some(table[i].1)
    else Lookup(table, ext, i + 1)
  }

  /** Lookup finds a value exactly when some key is `ext`, and then it is
      the value paired with the first such key. */
  lemma {:induction false} LookupFindsFirst(table: seq<(string, string)>, ext: string, i: nat := 0)
    requires i <= |table|
    ensures Lookup(table, ext, i).None? <==> forall k :: i <= k < |table| ==> table[k].0 != ext
    ensures Lookup(table, ext, i).Some? ==>
      exists k :: i <= k < |table| && table[k] == (ext, Lookup(table, ext, i).value)
        && forall j :: i <= j < k ==> table[j].0 != ext
    decreases |table| - i
  {
    if i < |table| && table[i].0 != ext {
      LookupFindsFirst(table, ext, i + 1);
    }
  }

  /** Every value in the table is an audio type. */
  lemma TableValuesAreAudio(ext: string)
    requires Lookup(AUDIO_MIME_TYPES, ext).Some?
    ensures StartsWith(Lookup(AUDIO_MIME_TYPES, ext).value, "audio/")
  {
    LookupFindsFirst(AUDIO_MIME_TYPES, ext);
    var v := Lookup(AUDIO_MIME_TYPES, ext).value;
    var k :| 0 <= k < |AUDIO_MIME_TYPES| && AUDIO_MIME_TYPES[k] == (ext, v);
  }

  /** `.aif` and `.aiff` share their type. */
  lemma AiffAliases()
    ensures Lookup(AUDIO_MIME_TYPES, ".aif") == Lookup(AUDIO_MIME_TYPES, ".aiff") == Some("audio/aiff")
  {
    assert Lookup(AUDIO_MIME_TYPES, ".aiff", 2) == Some("audio/aiff");
    assert Lookup(AUDIO_MIME_TYPES, ".aif", 3) == Some("audio/aiff");
  }

  /** `.weba` and `.webm` share their type. */
  lemma WebmAliases()
    ensures Lookup(AUDIO_MIME_TYPES, ".weba") == Lookup(AUDIO_MIME_TYPES, ".webm") == Some("audio/webm")
  {
    assert Lookup(AUDIO_MIME_TYPES, ".weba", 9) == Some("audio/webm");
    assert Lookup(AUDIO_MIME_TYPES, ".webm", 10) == Some("audio/webm");
  }

  /** `pathlib.Path(path).name`: the last component, where empty components
      (from repeated or trailing `/`) and `.` components do not count. */
  function BaseName(path: string): (name: string)
    ensures '/' !in name
    decreases |path|
  {
    var j := LastIndexOf(path, '/');
    var tail := path[j + 1..];
    if tail != "" && tail != "." then tail
    else if j < 0 then ""
    else BaseName(path[..j])
  }

  /** `pathlib.PurePath.suffix` of a final component: from its last `.`,
      provided that dot is neither the first nor the last character. */
  function Suffix(name: string): (ext: string)
    ensures ext == [] || (ext[0] == '.' && '.' !in ext[1..] && |ext| >= 2)
    ensures ext == [] <==> !(0 < LastIndexOf(name, '.') < |name| - 1)
    ensures ext != [] ==> ext == name[LastIndexOf(name, '.')..]
  {
    var i := LastIndexOf(name, '.');
    if 0 < i < |name| - 1 then
      assert name[i..][1..] == name[i + 1..];
      name[i..]
    else ""
  }

  /** `Path(file_path).suffix.lower()`. */
  function Extension(path: string): string
  {
    Lower(Suffix(BaseName(path)))
  }

  /** The ValueError message of `get_audio_mime_type`. */
  function UnsupportedFormatMessage(ext: string): string
  {
    "Unsupported audio format: '" + ext + "'. Supported formats: " + Join(", ", SupportedExtensions())
  }

  /** `get_audio_mime_type`: the table entry for the lower-cased extension;
      else the guess of `mimetypes.guess_type(path)` when it is an audio type;
      else the ValueError. */
  function GetAudioMimeType(path: string, guess: string -> Option<string>): (r: Result<string, AudioError>)
    ensures r.Ok? ==> StartsWith(r.value, "audio/")
    ensures r.Err? ==> r == Err(UnsupportedFormat(UnsupportedFormatMessage(Extension(path))))
  {
    var ext := Extension(path);
    match Lookup(AUDIO_MIME_TYPES, ext)
    case Some(mime) =>
      TableValuesAreAudio(ext);
      Ok(mime)
    case None =>
      match guess(path)
      case Some(mime) =>
        if StartsWith(mime, "audio/") then Ok(mime) else Err(UnsupportedFormat(UnsupportedFormatMessage(ext)))
      case None => Err(UnsupportedFormat(UnsupportedFormatMessage(ext)))
  }

  /** A table extension decides the type whatever `mimetypes` would guess:
      the fallback is not consulted. */
  lemma TableHitIgnoresGuess(path: string, guess1: string -> Option<string>, guess2: string -> Option<string>)
    requires Lookup(AUDIO_MIME_TYPES, Extension(path)).Some?
    ensures GetAudioMimeType(path, guess1) == GetAudioMimeType(path, guess2)
      == Ok(Lookup(AUDIO_MIME_TYPES, Extension(path)).value)
  {
  }

  /** For an extension outside the table, the guess is the answer exactly
      when it is present and starts with `audio/`; otherwise the error names
      the extension. */
  lemma FallbackAcceptsOnlyAudio(path: string, guess: string -> Option<string>)
    requires Lookup(AUDIO_MIME_TYPES, Extension(path)).None?
    ensures GetAudioMimeType(path, guess).Ok? <==> guess(path).Some? && StartsWith(guess(path).value, "audio/")
    ensures GetAudioMimeType(path, guess).Ok? ==> GetAudioMimeType(path, guess).value == guess(path).value
  {
  }

  /** The last component of `dir + file` is `file` when `dir` is empty or
      ends with `/`, and `file` is a proper name. */
  lemma BaseNameOfFile(dir: string, file: string)
    requires dir == [] || dir[|dir| - 1] == '/'
    requires file != [] && file != "." && '/' !in file
    ensures BaseName(dir + file) == file
  {
    var path := dir + file;
    var j := LastIndexOf(path, '/');
    assert forall k :: 0 <= k < |file| ==> path[|dir| + k] == file[k];
    if dir != [] {
      assert path[|dir| - 1] == '/';
    }
    assert j == |dir| - 1;
    assert path[j + 1..] == file;
  }

  /** A stem followed by `.` and a dot-free word has that dot and word as its suffix. */
  lemma SuffixOfDottedName(stem: string, word: string)
    requires stem != [] && word != [] && '.' !in word
    ensures Suffix(stem + "." + word) == "." + word
  {
    var name := stem + "." + word;
    var i := LastIndexOf(name, '.');
    assert name[|stem|] == '.';
    assert forall k :: 0 <= k < |word| ==> name[|stem| + 1 + k] == word[k];
    assert i == |stem|;
    assert name[i..] == "." + word;
  }

  /** Names with no suffix: no dot at all, a single leading dot (`.bashrc`),
      or a trailing dot (`a.`). */
  lemma NoSuffix(name: string)
    ensures '.' !in name ==> Suffix(name) == ""
    ensures name != [] && name[0] == '.' && '.' !in name[1..] ==> Suffix(name) == ""
    ensures name != [] && name[|name| - 1] == '.' ==> Suffix(name) == ""
  {
    if name != [] && name[0] == '.' && '.' !in name[1..] {
      var i := LastIndexOf(name, '.');
      if i > 0 {
        assert name[1..][i - 1] == name[i];
      }
    }
  }

  /** Trailing `/` and `/.` components do not change the final name. */
  lemma BaseNameIgnoresTrailing(p: string)
    ensures BaseName(p + "/") == BaseName(p)
    ensures BaseName(p + "/.") == BaseName(p)
  {
    assert (p + "/")[..|p|] == p;
    assert (p + "/.")[..|p|] == p;
    assert LastIndexOf((p + "/.")[..|p| + 1], '/') == |p|;
  }

  lemma LowerDotted(word: string)
    ensures Lower("." + word) == "." + Lower(word)
  {
  }

  /** For a file `dir + stem + "." + word`, the table is matched on the
      lower-cased `"." + word`, so letter case in the extension does not
      matter, and the guess is not consulted. */
  lemma ExtensionMatchedCaseInsensitively(dir: string, stem: string, word: string, guess: string -> Option<string>)
    requires dir == [] || dir[|dir| - 1] == '/'
    requires stem != [] && '/' !in stem && word != [] && '.' !in word && '/' !in word
    requires Lookup(AUDIO_MIME_TYPES, "." + Lower(word)).Some?
    ensures GetAudioMimeType(dir + stem + "." + word, guess) == Ok(Lookup(AUDIO_MIME_TYPES, "." + Lower(word)).value)
  {
    var file := stem + "." + word;
    assert file[|stem|] == '.';
    assert dir + stem + "." + word == dir + file;
    BaseNameOfFile(dir, file);
    SuffixOfDottedName(stem, word);
    LowerDotted(word);
  }

  /** How `analyze_audio` sends a file: inline bytes or a Files API upload. */
  datatype Route = Inline | Upload

  /** The method choice in `analyze_audio`. */
  function ChooseRoute(size: nat): Route
  {
    if size < INLINE_SIZE_THRESHOLD then Inline else Upload
  }

  /** Inline exactly below 20 MiB; a file of exactly 20 MiB is uploaded, and
      a file smaller than an inline one is also inline. */
  lemma RouteThreshold(size: nat, smaller: nat)
    ensures ChooseRoute(size) == Inline <==> size < 20 * 1024 * 1024
    ensures ChooseRoute(20 * 1024 * 1024) == Upload && ChooseRoute(20 * 1024 * 1024 - 1) == Inline
    ensures smaller <= size && ChooseRoute(size) == Inline ==> ChooseRoute(smaller) == Inline
  {
  }

  /** `uploaded_file.state.name`. */
  datatype FileState = StateUnspecified | Processing | Active | Failed

  /** How the wait for an uploaded file ends. */
  datatype WaitOutcome = Ready(state: FileState) | Stopped(error: AudioError)

  /** How long `analyze_audio` lets `analyze_audio_upload` wait, in seconds. */
  const MAX_WAIT_SECONDS: int := 120

  /** What the wait of `analyze_audio_upload` ends with, from the `k`-th state
      report on: still PROCESSING past the budget is a TimeoutError, FAILED a
      RuntimeError, any other state is ready. */
  function WaitFrom(states: nat -> FileState, elapsed: nat -> real, maxWaitSeconds: int, fileName: string, k: nat): WaitOutcome
    requires forall j: nat :: elapsed(j) >= 2.0 * j as real
    decreases maxWaitSeconds - 2 * k
  {
    if states(k) == Processing then
      if elapsed(k) > maxWaitSeconds as real then
        Stopped(ProcessingTimedOut("File processing timed out after " + IntToString(maxWaitSeconds) + "s"))
      else WaitFrom(states, elapsed, maxWaitSeconds, fileName, k + 1)
    else if states(k) == Failed then Stopped(ProcessingFailed("File processing failed: " + fileName))
    else Ready(states(k))
  }

  /** The wait loop of `analyze_audio_upload`. `states(0)` is the state the
      upload reports and `states(k)` the one reported by the k-th
      `files.get`; `elapsed(k)` is `time.time() - start_time` at the k-th
      check. Each round sleeps two seconds, so `elapsed(k) >= 2 * k`. The
      loop returns after `polls` state reports past the first. */
  method AwaitProcessing(waitForProcessing: bool, states: nat -> FileState, elapsed: nat -> real,
                         maxWaitSeconds: int, fileName: string) returns (outcome: WaitOutcome, polls: nat)
    requires forall k: nat :: elapsed(k) >= 2.0 * k as real
    ensures !waitForProcessing ==> outcome == Ready(states(0)) && polls == 0
    ensures waitForProcessing ==> outcome == WaitFrom(states, elapsed, maxWaitSeconds, fileName, 0)
    ensures waitForProcessing ==> forall k :: 0 <= k < polls ==> states(k) == Processing && elapsed(k) <= maxWaitSeconds as real
    ensures waitForProcessing && outcome.Ready? ==>
      outcome.state == states(polls) && outcome.state != Processing && outcome.state != Failed
    ensures waitForProcessing && states(polls) == Failed ==>
      outcome == Stopped(ProcessingFailed("File processing failed: " + fileName))
    ensures waitForProcessing && outcome.Stopped? && outcome.error.ProcessingTimedOut? ==>
      states(polls) == Processing && elapsed(polls) > maxWaitSeconds as real
    ensures waitForProcessing && outcome.Stopped? && outcome.error.ProcessingFailed? ==> states(polls) == Failed
    ensures waitForProcessing && states(polls) == Processing ==>
      outcome.Stopped? && outcome.error.ProcessingTimedOut?
    ensures outcome.Stopped? ==> outcome.error.ProcessingTimedOut? || outcome.error.ProcessingFailed?
    ensures outcome.Stopped? && outcome.error.ProcessingTimedOut? ==>
      outcome.error.message == "File processing timed out after " + IntToString(maxWaitSeconds) + "s"
  {
    polls := 0;
    if !waitForProcessing {
      return Ready(states(0)), 0;
    }
    while states(polls) == Processing
      invariant forall k :: 0 <= k < polls ==> states(k) == Processing && elapsed(k) <= maxWaitSeconds as real
      invariant WaitFrom(states, elapsed, maxWaitSeconds, fileName, polls) == WaitFrom(states, elapsed, maxWaitSeconds, fileName, 0)
      decreases maxWaitSeconds - 2 * polls
    {
      if elapsed(polls) > maxWaitSeconds as real {
        return Stopped(ProcessingTimedOut("File processing timed out after " + IntToString(maxWaitSeconds) + "s")), polls;
      }
      polls := polls + 1;
    }
    if states(polls) == Failed {
      return Stopped(ProcessingFailed("File processing failed: " + fileName)), polls;
    }
    outcome := Ready(states(polls));
  }

  /** The request `analyze_audio` sends to the model. */
  datatype Request =
    | InlineRequest(model: string, prompt: string, mimeType: string)
    | UploadRequest(model: string, prompt: string, path: string)

  const DEFAULT_PROMPT: string := "Describe this audio clip"

  /** `analyze_audio`: the file must exist, then a client is created unless
      one was given (which needs the Gemini key), then the size picks the
      route. Only the inline route resolves the MIME type; the upload route
      hands the path to the Files API whatever its extension, then waits up
      to `MAX_WAIT_SECONDS` for the uploaded file, named `uploadedName` by
      the service, to be processed (`states` and `elapsed` as for
      `AwaitProcessing`). */
  function AnalyzeAudio(path: string, prompt: string, fileExists: bool, size: nat, clientGiven: bool,
                        env: Environment, guess: string -> Option<string>,
                        states: nat -> FileState, elapsed: nat -> real, uploadedName: string): (r: Result<Request, AudioError>)
    requires forall k: nat :: elapsed(k) >= 2.0 * k as real
    ensures !fileExists ==> r == Err(FileNotFound("Audio file not found: " + path))
    ensures fileExists && !clientGiven && GetApiKey(env).Err? ==> r == Err(Configuration(GetApiKey(env).error))
    ensures fileExists && (clientGiven || GetApiKey(env).Ok?) ==>
      (r.Ok? <==> if size < INLINE_SIZE_THRESHOLD then GetAudioMimeType(path, guess).Ok?
                  else WaitFrom(states, elapsed, MAX_WAIT_SECONDS, uploadedName, 0).Ready?)
    ensures fileExists && (clientGiven || GetApiKey(env).Ok?) && size < INLINE_SIZE_THRESHOLD && r.Err? ==>
      r == Err(GetAudioMimeType(path, guess).error)
    ensures fileExists && (clientGiven || GetApiKey(env).Ok?) && size >= INLINE_SIZE_THRESHOLD && r.Err? ==>
      r == Err(WaitFrom(states, elapsed, MAX_WAIT_SECONDS, uploadedName, 0).error)
    ensures r.Ok? ==> (r.value.InlineRequest? <==> size < INLINE_SIZE_THRESHOLD)
    ensures r.Ok? ==> r.value.model == AUDIO_MODEL && r.value.prompt == prompt
    ensures r.Ok? && r.value.InlineRequest? ==> GetAudioMimeType(path, guess) == Ok(r.value.mimeType)
    ensures r.Ok? && r.value.UploadRequest? ==> r.value.path == path
  {
    if !fileExists then Err(FileNotFound("Audio file not found: " + path))
    else if !clientGiven && GetApiKey(env).Err? then Err(Configuration(GetApiKey(env).error))
    else match ChooseRoute(size)
      case Inline =>
        (match GetAudioMimeType(path, guess)
         case Ok(mime) => Ok(InlineRequest(AUDIO_MODEL, prompt, mime))
         case Err(e) => Err(e))
      case Upload =>
        (match WaitFrom(states, elapsed, MAX_WAIT_SECONDS, uploadedName, 0)
         case Ready(_) => Ok(UploadRequest(AUDIO_MODEL, prompt, path))
         case Stopped(e) => Err(e))
  }

  /** A missing file is reported before any client is created: the key, the
      given client, the size and the guess play no part. */
  lemma MissingFileReportedFirst(path: string, prompt: string, size1: nat, size2: nat, given1: bool, given2: bool,
                                 env1: Environment, env2: Environment, guess1: string -> Option<string>, guess2: string -> Option<string>,
                                 states1: nat -> FileState, states2: nat -> FileState, elapsed: nat -> real, name1: string, name2: string)
    requires forall k: nat :: elapsed(k) >= 2.0 * k as real
    ensures AnalyzeAudio(path, prompt, false, size1, given1, env1, guess1, states1, elapsed, name1)
      == AnalyzeAudio(path, prompt, false, size2, given2, env2, guess2, states2, elapsed, name2)
  {
  }

  /** A file of at least 20 MiB is uploaded even when its type is
      unsupported, and is sent once its processing is done. */
  lemma LargeFileSkipsFormatCheck(path: string, prompt: string, size: nat, env: Environment, guess: string -> Option<string>,
                                  states: nat -> FileState, elapsed: nat -> real, name: string)
    requires forall k: nat :: elapsed(k) >= 2.0 * k as real
    requires size >= INLINE_SIZE_THRESHOLD && GetApiKey(env).Ok?
    requires WaitFrom(states, elapsed, MAX_WAIT_SECONDS, name, 0).Ready?
    ensures AnalyzeAudio(path, prompt, true, size, false, env, guess, states, elapsed, name) == Ok(UploadRequest(AUDIO_MODEL, prompt, path))
  {
  }

  /** A wait that keeps seeing PROCESSING, from report `j` to report `k`,
      within the 120-second budget until report `k` is past it, ends in the
      timeout naming that budget. */
  lemma {:induction false} StalledWaitTimesOut(states: nat -> FileState, elapsed: nat -> real, name: string, j: nat, k: nat)
    requires forall i: nat :: elapsed(i) >= 2.0 * i as real
    requires j <= k
    requires forall i :: j <= i <= k ==> states(i) == Processing
    requires forall i :: j <= i < k ==> elapsed(i) <= 120.0
    requires elapsed(k) > 120.0
    ensures WaitFrom(states, elapsed, MAX_WAIT_SECONDS, name, j)
      == Stopped(ProcessingTimedOut("File processing timed out after 120s"))
    decreases k - j
  {
    if j == k {
      assert IntToString(MAX_WAIT_SECONDS) == NatToString(120) == "120";
      assert "File processing timed out after " + IntToString(MAX_WAIT_SECONDS) + "s"
        == "File processing timed out after 120s";
    } else {
      assert states(j) == Processing && elapsed(j) <= 120.0;
      StalledWaitTimesOut(states, elapsed, name, j + 1, k);
    }
  }

  /** An upload polled while PROCESSING until the two minutes have passed
      fails with the timeout message naming the 120-second budget. */
  lemma StalledUploadTimesOut(path: string, prompt: string, size: nat, clientGiven: bool, env: Environment,
                              guess: string -> Option<string>, states: nat -> FileState, elapsed: nat -> real,
                              name: string, k: nat)
    requires forall i: nat :: elapsed(i) >= 2.0 * i as real
    requires size >= INLINE_SIZE_THRESHOLD && (clientGiven || GetApiKey(env).Ok?)
    requires forall i :: 0 <= i <= k ==> states(i) == Processing
    requires forall i :: 0 <= i < k ==> elapsed(i) <= 120.0
    requires elapsed(k) > 120.0
    ensures AnalyzeAudio(path, prompt, true, size, clientGiven, env, guess, states, elapsed, name)
      == Err(ProcessingTimedOut("File processing timed out after 120s"))
  {
    StalledWaitTimesOut(states, elapsed, name, 0, k);
  }

  const TRANSCRIBE_PREFIX: string := "Transcribe this audio. "
  const TRANSCRIBE_SUFFIX: string := "Only output the transcription, no other text."

  /** The prompt of `transcribe_audio`: the language is named only when it
      is given and non-empty. */
  function TranscribePrompt(language: Option<string>): string
  {
    if language.Some? && language.value != "" then
      TRANSCRIBE_PREFIX + "The language is " + language.value + ". " + TRANSCRIBE_SUFFIX
    else TRANSCRIBE_PREFIX + TRANSCRIBE_SUFFIX
  }

  /** Without a language, or with an empty one, the prompt is the fixed one. */
  lemma TranscribePromptWithoutLanguage(language: Option<string>)
    requires language.None? || language.value == ""
    ensures TranscribePrompt(language) == TranscribePrompt(None)
      == TRANSCRIBE_PREFIX + TRANSCRIBE_SUFFIX
  {
  }

  /** The language can be read back out of the prompt: distinct non-empty
      languages give distinct prompts, and no language prompt equals the
      fixed one. */
  lemma TranscribePromptNamesLanguage(language: Option<string>, other: Option<string>)
    requires language.Some? && language.value != ""
    ensures var p := TranscribePrompt(language);
      var start := |TRANSCRIBE_PREFIX + "The language is "|;
      |p| == start + |language.value| + |". " + TRANSCRIBE_SUFFIX|
      && p[start..start + |language.value|] == language.value
    ensures TranscribePrompt(language) != TranscribePrompt(None)
    ensures other.Some? && other.value != "" && TranscribePrompt(other) == TranscribePrompt(language) ==> other == language
  {
    var head := TRANSCRIBE_PREFIX + "The language is ";
    var tail := ". " + TRANSCRIBE_SUFFIX;
    var p := TranscribePrompt(language);
    assert p == head + language.value + tail;
    assert p[|head|..|head| + |language.value|] == language.value;
    assert |p| > |TranscribePrompt(None)|;
    if other.Some? && other.value != "" && TranscribePrompt(other) == p {
      var q := TranscribePrompt(other);
      assert q == head + other.value + tail;
      assert q[|head|..|head| + |other.value|] == other.value;
    }
  }

  /** `transcribe_audio`: `analyze_audio` with the transcription prompt. */
  function TranscribeAudio(path: string, language: Option<string>, fileExists: bool, size: nat, clientGiven: bool,
                           env: Environment, guess: string -> Option<string>,
                           states: nat -> FileState, elapsed: nat -> real, uploadedName: string): (r: Result<Request, AudioError>)
    requires forall k: nat :: elapsed(k) >= 2.0 * k as real
    ensures r.Ok? ==> r.value.prompt == TranscribePrompt(language)
    ensures var a := AnalyzeAudio(path, DEFAULT_PROMPT, fileExists, size, clientGiven, env, guess, states, elapsed, uploadedName);
      (r.Err? <==> a.Err?) && (r.Err? ==> r == a) && (r.Ok? ==> r.value == a.value.(prompt := TranscribePrompt(language)))
  {
    AnalyzeAudio(path, TranscribePrompt(language), fileExists, size, clientGiven, env, guess, states, elapsed, uploadedName)
  }
}
