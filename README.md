# kopichat-ai, modelled in Dafny

kopichat-ai is a command-line audio assistant. It does three things:

- it sends audio files to Gemini for analysis or transcription;
- it transcribes the microphone live, through Groq Whisper or the Gemini Live API;
- it records WAV files.

This project models the logic that decides what the program does. Every
call into the services, the microphone and the file system is an input
instead:

- **Configuration** (`src/config.py`). The `.env` loader is a method over an
  environment map. It is specified by a fold of a per-line parser, up to
  the first assignment the environment rejects.
  `get_api_key` returns either the key or `ConfigurationError`.
- **Audio understanding** (`src/audio_understanding.py`). This covers:
  - the MIME lookup, with its `pathlib` suffix rule and the `mimetypes`
    fallback;
  - the inline-or-upload choice at 20 MiB;
  - the request `analyze_audio` would send, and its error order;
  - the transcription prompt;
  - the wait loop for uploaded files, which the upload route goes through.
- **Live transcription** (`src/live_interaction.py`). This covers:
  - the Groq key check and the frame loop of `record_chunk`;
  - what the Groq loop prints per window;
  - the backend dispatch;
  - the Gemini receive handler. It is the class `LiveTranscript`, whose
    fields are the handler's `text_buffer` and `last_line_length`. It is
    specified by a fold `Run` over the responses.
- **Recording** (`src/audio_recorder.py`). This covers the chunk loop with
  its progress bar, and the countdown.
- **Command line** (`main.py`). This covers:
  - the option loops of `live` and `live_file`;
  - the argument rules of the other handlers;
  - the read–dispatch loop of the interactive prompt, specified by `Session`,
    which ends at a quit word or at a handler that raises past the loop;
  - the dispatch of `run_command_line`.

`PyStr` defines the Python `str` behaviour the code relies on: `strip`,
`strip(chars)`, `split`, `join`, `lower`, `find`/`rfind` and `c * n`.
`Wrappers` defines `Option` and `Result`. An exception is an `Err` value,
and printed output is a returned string.

A missing Groq key is not reported up front: `get_groq_client` runs inside
the per-window `try` (`src/live_interaction.py:214-223`), so every window
records its audio, prints `❌ Error: GROQ_API_KEY ...` and the loop goes on;
see `LiveInteraction.MissingGroqKeyEveryWindowFails`.

## Model

| member | source | states |
|---|---|---|
| Config.NonEmptyVariable | src/config.py:54-56 | `os.environ.get` plus the truthiness test: Some exactly when the variable is set and non-empty, and then its value |
| Config.GetApiKey | src/config.py:54-65 | Ok exactly when `GEMINI_API_KEY` is set and non-empty, with that value; otherwise ConfigurationError with the fixed message |
| Config.CleanValue | src/config.py:105 | the value is stripped of whitespace, then of `"`, then of `'`, so it neither starts nor ends with `'`; `QuotedValueKept` and `ParseFormattedLine` give its effect on quoted and clean values |
| Config.QuotedValueKept | src/config.py:104-105 | a value in double or in single quotes loses exactly its quotes, and whitespace inside the quotes stays, because whitespace is not stripped again |
| Config.SplitEntry | src/config.py:103-105 | the split of a line at its first `=` into the stripped key and the cleaned value (its contract is in `SplitEntryAtFirstEquals` and `ParsedKeyIsClean`) |
| Config.ParseLine | src/config.py:97-105 | None exactly when the stripped line is empty, starts with `#` or holds no `=`; any other line gives its entry, split as `SplitAtFirstEquals`, `ParseTrimmedLine` and `ParseFormattedLine` state |
| Config.ParsedKeyIsClean | src/config.py:102-104 | a parsed key holds no `=` and no surrounding whitespace |
| Config.SplitEntryAtFirstEquals | src/config.py:102-105 | the line is cut at its FIRST `=`: the key comes from the `=`-free text before it, the value from everything after it |
| Config.SplitAtFirstEquals | src/config.py:97-105 | a line that parses is, after stripping, `before + "=" + after` with no `=` in `before`, key = strip(before), value = cleaned `after` |
| Config.FormattedLineIsTrimmed | src/config.py:97 | `key=value` built from trimmed parts needs no stripping |
| Config.FormattedLineSplits | src/config.py:103-105 | in `key=value` with no `=` in the key, the split yields the stripped key and the cleaned value |
| Config.ParseTrimmedLine | src/config.py:99-105 | a trimmed, non-comment line holding `=` is not skipped and is split at its first `=` |
| Config.ParseFormattedLine | src/config.py:97-106 | round trip: writing a clean `key=value` line and parsing it returns exactly `(key, value)` |
| Config.ParseLines | src/config.py:96-105 | one entry per line, element k being the parse of line k |
| Config.Store | src/config.py:106 | the environment after assigning the entries in order (its contract is in `StoreSnoc`, `StoreKeepsUnassigned` and `StoreLastWins`) |
| Config.ApplyLines | src/config.py:96-106 | `Store` over the parsed lines of a file |
| Config.Accepted | src/config.py:106 | `os.environ[key] = value` accepts a non-empty, NUL-free name with a NUL-free value, and an ignored line |
| Config.FirstRejected | src/config.py:96-106 | the index of the first rejected entry, at most the number of entries |
| Config.FirstRejectedSpec | src/config.py:96-106 | every entry before the first rejected one is accepted, and that one is not |
| Config.FirstRejectedAt | src/config.py:96-106 | after a run of accepted entries, a rejected entry or the end is the first rejection |
| Config.FirstRejectedStep | src/config.py:96-106 | scanning in order, an accepted entry moves on and a rejected one is the first |
| Config.AllAcceptedWith | src/config.py:96-106 | for any line parser, no rejection exactly when every line's entry is accepted |
| Config.LoadsIffAllAccepted | src/config.py:96-106 | a file loads without raising exactly when every line is ignored or assigns an accepted pair |
| Config.EmptyNameRejected | src/config.py:103-106 | `=value` parses to the empty name, which the environment rejects |
| Config.StoreLines | src/config.py:96-106 | for any line parser, the entries are stored in order up to the first rejected one, whose index is reported |
| Config.LoadEnvFile | src/config.py:90-106 | a missing file leaves the environment unchanged. Otherwise the lines are stored in order up to the first rejected assignment: with none the result is the whole file applied, and with one its index is reported and the result is the lines before it applied |
| Config.StoreSnoc | src/config.py:106 | one more entry stores its pair on top of the previous result, or changes nothing |
| Config.StoreSkipsNone | src/config.py:99-100 | an entry that assigns nothing can be removed from anywhere in the sequence |
| Config.StoreSkipsIgnoredLine | src/config.py:96-106 | for any line parser, a line it ignores can be removed from anywhere in the file |
| Config.IgnoredLineContributesNothing | src/config.py:98-102 | a line whose stripped text is empty, starts with `#` or holds no `=` leaves the loaded environment unchanged wherever it appears |
| Config.StoreKeepsUnassigned | src/config.py:106 | a variable no entry assigns keeps its presence and value |
| Config.UnassignedVariableUnchanged | src/config.py:96-106 | a variable no line assigns keeps its presence and value |
| Config.StoreLastWins | src/config.py:106 | the last entry assigning a variable decides its value |
| Config.LastAssignmentWins | src/config.py:96-106 | for a variable assigned on several lines, the last assigning line wins |
| Config.LoadedKeyIsReturned | src/config.py:96-106 | after loading a file whose last `GEMINI_API_KEY=` line is non-empty, `get_api_key` returns exactly that key |
| PyStr.StripStart | src/config.py:97 | the start index of `strip` lies between the search start and the end |
| PyStr.StripEnd | src/config.py:97 | the end index of `strip` lies between the start and the search end |
| PyStr.StripStartSkips | src/config.py:97 | the start index skips exactly a run of stripped characters and stops at the first other one |
| PyStr.StripEndSkips | src/config.py:97 | the end index skips exactly a run of stripped characters and stops after the last other one |
| PyStr.StripChars | src/config.py:105 | `strip(chars)`: the slice between the two indices (its contract is in `StripCharsSpec`) |
| PyStr.Strip | src/config.py:97 | `strip()` with the whitespace set (its contract is in `StripIdempotent` and `StripKeepsOut`) |
| PyStr.StripCharsSpec | src/config.py:105 | `strip(chars)` keeps a slice whose removed ends are all in `chars` and whose own ends are not |
| PyStr.StripCharsNoop | src/config.py:105 | a string with neither end in `chars` is unchanged by `strip(chars)` |
| PyStr.StripOneEach | src/config.py:105 | `strip(chars)` of `v` wrapped in one character of `chars` on each side is `v`, when `v`'s ends are not in `chars` |
| PyStr.StripIdempotent | src/config.py:97-104 | `strip(strip(s)) == strip(s)` |
| PyStr.StripKeepsOut | src/config.py:104 | `strip` introduces no character |
| PyStr.IndexOf | src/config.py:103 | the index of the first occurrence: the character is there and not before |
| PyStr.LastIndexOf | src/audio_understanding.py:65 | the index of the last occurrence, or -1 when there is none |
| PyStr.LowerChar | src/audio_understanding.py:65 | an ASCII capital maps to its small letter, every other character to itself |
| PyStr.Lower | src/audio_understanding.py:65 | same length, each character lower-cased |
| PyStr.Repeat | src/audio_recorder.py:108 | `c * n` has length n and every character c |
| PyStr.NatToString | src/audio_understanding.py:161 | a non-empty string of decimal digits with no leading zero |
| PyStr.DigitsValue | src/audio_understanding.py:161 | the number a string of decimal digits denotes |
| PyStr.NatToStringValue | src/audio_understanding.py:161 | the digits of `str(n)` denote `n` |
| PyStr.Join | main.py:94 | `sep.join(parts)` (its contract is in `SplitJoin` and `JoinHead`) |
| PyStr.TokenLength | main.py:249 | the length of the longest whitespace-free prefix |
| PyStr.Split | main.py:249 | every word `split()` returns is non-empty and whitespace-free (what the words are is in `SplitAtSpace` and `SplitWord`) |
| PyStr.TokenLengthBeforeSpace | main.py:249 | a word stops at the first whitespace character whatever follows it |
| PyStr.SplitAtSpace | main.py:249 | `split()` cuts at every whitespace character: the words of `a + c + b` are those of `a`, then those of `b` |
| PyStr.SplitWord | main.py:249 | a non-empty whitespace-free word splits into itself |
| PyStr.SplitEmptyIffBlank | main.py:244-249 | `split()` is empty exactly when `strip()` is, so a non-blank line always has a first word |
| PyStr.StripBlankTail | main.py:246-249 | a leading whitespace character does not change whether the line is blank |
| PyStr.SplitJoin | main.py:94 | `" ".join(words).split() == words` for whitespace-free words |
| AudioUnderstanding.SupportedExtensions | src/audio_understanding.py:78 | the table's keys, in declaration order |
| AudioUnderstanding.Lookup | src/audio_understanding.py:68-69 | the dictionary lookup over the table (its contract is in `LookupFindsFirst`) |
| AudioUnderstanding.LookupFindsFirst | src/audio_understanding.py:68-69 | lookup fails exactly when no key matches; otherwise it returns the value of the first matching pair |
| AudioUnderstanding.TableValuesAreAudio | src/audio_understanding.py:37-49 | every table value starts with `audio/` |
| AudioUnderstanding.AiffAliases | src/audio_understanding.py:40-41 | `.aif` and `.aiff` both map to `audio/aiff` |
| AudioUnderstanding.WebmAliases | src/audio_understanding.py:47-48 | `.weba` and `.webm` both map to `audio/webm` |
| AudioUnderstanding.BaseName | src/audio_understanding.py:65 | the final path component holds no `/`; `BaseNameOfFile` and `BaseNameIgnoresTrailing` say which component it is |
| AudioUnderstanding.Suffix | src/audio_understanding.py:65 | the suffix is the text from the last `.` (`rfind`) when that dot is neither the first nor the last character, and empty otherwise; a non-empty suffix is a `.` followed by at least one dot-free character |
| AudioUnderstanding.Extension | src/audio_understanding.py:65 | `Path(file_path).suffix.lower()` |
| AudioUnderstanding.UnsupportedFormatMessage | src/audio_understanding.py:76-79 | the ValueError text naming the extension and the supported extensions joined by `, ` |
| AudioUnderstanding.GetAudioMimeType | src/audio_understanding.py:52-79 | any type returned is an `audio/` type; any error is the ValueError naming the lower-cased extension and the supported list |
| AudioUnderstanding.TableHitIgnoresGuess | src/audio_understanding.py:67-69 | a table extension decides the type whatever `mimetypes` would guess |
| AudioUnderstanding.FallbackAcceptsOnlyAudio | src/audio_understanding.py:71-79 | off the table, the guess is accepted exactly when present and `audio/`, and is then the answer |
| AudioUnderstanding.BaseNameOfFile | src/audio_understanding.py:65 | the final component of `dir/ + file` is `file` |
| AudioUnderstanding.SuffixOfDottedName | src/audio_understanding.py:65 | `stem.word` has suffix `.word` |
| AudioUnderstanding.NoSuffix | src/audio_understanding.py:65 | a name with no dot, with a single leading dot (`.bashrc`) or with a trailing dot (`a.`) has no suffix |
| AudioUnderstanding.BaseNameIgnoresTrailing | src/audio_understanding.py:65 | a trailing `/` or `/.` does not change the final component |
| AudioUnderstanding.LowerDotted | src/audio_understanding.py:65 | lower-casing keeps the leading dot |
| AudioUnderstanding.ExtensionMatchedCaseInsensitively | src/audio_understanding.py:65-69 | for `dir/stem.WoRd`, the table is matched on the lower-cased `.word`, and the guess is not consulted |
| AudioUnderstanding.ChooseRoute | src/audio_understanding.py:231-236 | inline below the threshold, upload otherwise (its contract is in `RouteThreshold`) |
| AudioUnderstanding.RouteThreshold | src/audio_understanding.py:231-236 | inline exactly below 20 MiB, 20 MiB itself is uploaded, and the choice is monotone in size |
| AudioUnderstanding.WaitFrom | src/audio_understanding.py:156-170 | the outcome of the wait from the k-th report on (its contract is in `AwaitProcessing`) |
| AudioUnderstanding.AwaitProcessing | src/audio_understanding.py:156-170 | without waiting, the upload's own state. Otherwise the outcome is `WaitFrom`; every report before the last was PROCESSING within the budget; a RuntimeError comes exactly from a FAILED report, a TimeoutError with its message exactly from a PROCESSING one past the budget, and Ready otherwise |
| AudioUnderstanding.AnalyzeAudio | src/audio_understanding.py:215-236 | the error order: missing file, then missing key when no client was given. Past those, the result is Ok exactly when the inline route resolves a MIME type or the upload route's wait ends ready; otherwise it is that ValueError, TimeoutError or RuntimeError. A request carries the audio model and the prompt; it is inline exactly below the threshold, with the resolved MIME type; an upload carries the path |
| AudioUnderstanding.MissingFileReportedFirst | src/audio_understanding.py:216-217 | a missing file gives the same result whatever the size, key, client, guess and processing states |
| AudioUnderstanding.LargeFileSkipsFormatCheck | src/audio_understanding.py:231-236 | a large file whose processing finishes is uploaded even when its format is unsupported |
| AudioUnderstanding.StalledWaitTimesOut | src/audio_understanding.py:156-162 | a wait that, from poll j up to poll k, sees only PROCESSING, with every check before k within 120 s and the check at k past it, stops with `File processing timed out after 120s` |
| AudioUnderstanding.StalledUploadTimesOut | src/audio_understanding.py:156-162 | an upload whose reports stay PROCESSING from the first poll up to poll k, in time at every check before k and past 120 s at k, makes `analyze_audio` fail with `File processing timed out after 120s` |
| AudioUnderstanding.TranscribePrompt | src/audio_understanding.py:255-258 | the prompt names the language only when one is given and non-empty (its contract is in `TranscribePromptNamesLanguage`); with no language or an empty one it is the fixed prompt (`TranscribePromptWithoutLanguage`) |
| AudioUnderstanding.TranscribePromptWithoutLanguage | src/audio_understanding.py:255-258 | no language and the empty language both give the fixed prompt `Transcribe this audio. Only output the transcription, no other text.` |
| AudioUnderstanding.TranscribePromptNamesLanguage | src/audio_understanding.py:255-258 | the language sits at a fixed position in the prompt, so distinct languages give distinct prompts, all differing from the no-language prompt |
| AudioUnderstanding.TranscribeAudio | src/audio_understanding.py:239-260 | `analyze_audio` with only the prompt changed: it fails exactly when `analyze_audio` fails on the same inputs, with the same error, and otherwise gives the same request carrying the transcription prompt for the language |
| LiveInteraction.GetGroqClient | src/live_interaction.py:60-72 | Ok exactly when `GROQ_API_KEY` is set and non-empty, with that key; otherwise TranscriptionError with the fixed message |
| LiveInteraction.RecordChunk | src/live_interaction.py:98-103 | exactly `total_chunks` reads are collected, in order |
| LiveInteraction.LeftAligned | src/live_interaction.py:212 | `f"{s:<w}"` has length max(\|s\|, w), begins with `s` and is padded with spaces |
| LiveInteraction.TranscribeWindow | src/live_interaction.py:214-215 | a missing key raises the key error. Otherwise the window yields the service's text, or raises its error |
| LiveInteraction.RenderResult | src/live_interaction.py:217-223 | the line printed once a window's result is known (its contract is in `RenderResultCases`) |
| LiveInteraction.RenderResultCases | src/live_interaction.py:217-223 | every result line first blanks the 50-cell status line. It then shows the stripped text, `(silence)` for blank text, or the error message |
| LiveInteraction.RenderResultDistinguishes | src/live_interaction.py:218-223 | the three kinds of line differ in their first character after the clearing prefix |
| LiveInteraction.WindowOutput | src/live_interaction.py:205-223 | one window prints the recording status, the transcribing status, then its result line |
| LiveInteraction.WindowsOutput | src/live_interaction.py:204-223 | the windows' output one after another (its contract is in `WindowsOutputSnoc` and `WindowsOutputConcat`) |
| LiveInteraction.StoppedOutput | src/live_interaction.py:225-227 | Ctrl+C blanks the status line and prints `🛑 Transcription stopped.` |
| LiveInteraction.RunGroqTranscription | src/live_interaction.py:203-227 | the output is the windows' output, then the status of the interrupted recording, then the stop lines |
| LiveInteraction.WindowsOutputSnoc | src/live_interaction.py:204-223 | one more window appends exactly that window's output |
| LiveInteraction.WindowsOutputConcat | src/live_interaction.py:204-223 | windows print independently: an exception in one window neither ends nor alters the later windows |
| LiveInteraction.MissingGroqKeyEveryWindowFails | src/live_interaction.py:214-223 | without a Groq key the output depends only on the number of windows |
| LiveInteraction.RunLiveTranscription | src/live_interaction.py:371-376 | `groq` and `gemini` select their loops; any other name is the ValueError with its message |
| LiveInteraction.AppendText | src/live_interaction.py:277-293 | a transcript event: a non-empty text is appended and redrawn (`AppendTextEffect`); a missing or empty text changes nothing and prints nothing (`AppendNothing`) |
| LiveInteraction.CompleteTurn | src/live_interaction.py:296-306 | a turn-complete event: buffered text is flushed as one finished line (`CompleteTurnFlushes`); with nothing buffered it changes nothing and prints nothing (`CompleteEmptyTurn`) |
| LiveInteraction.Step | src/live_interaction.py:275-306 | one response, the transcript before the turn-complete flag (its contract is in `TextThenTurnComplete` and `StepKeepsConsistent`) |
| LiveInteraction.Run | src/live_interaction.py:273-306 | the responses in arrival order (its contract is in `RunConcat`, `RunKeepsConsistent` and `BufferHoldsTextsSinceLastTurn`) |
| LiveInteraction.Consistent | src/live_interaction.py:284-306 | the buffer holds non-empty pieces, and `last_line_length` is the length of the line on screen |
| LiveInteraction.AppendTextEffect | src/live_interaction.py:277-293 | a non-empty text is appended, and the old line length is blanked before the new stripped line is drawn. The new length is recorded |
| LiveInteraction.CompleteTurnFlushes | src/live_interaction.py:296-306 | on turn-complete with text buffered, the stripped join is printed as a finished line and both variables reset |
| LiveInteraction.AppendNothing | src/live_interaction.py:277-284 | a transcript event without text, or with empty text, leaves the screen state as it was and prints nothing |
| LiveInteraction.CompleteEmptyTurn | src/live_interaction.py:296-306 | a turn-complete event with an empty buffer leaves the screen state as it was and prints nothing |
| LiveInteraction.TextThenTurnComplete | src/live_interaction.py:275-306 | a response with text and turn-complete draws the line and then finishes it, leaving the initial screen |
| LiveInteraction.StepKeepsConsistent | src/live_interaction.py:275-306 | each response keeps the invariant: buffered pieces are non-empty, and the recorded length is that of the line on screen |
| LiveInteraction.RunKeepsConsistent | src/live_interaction.py:273-306 | every reachable screen satisfies the invariant |
| LiveInteraction.RedrawCoversScreen | src/live_interaction.py:290-303 | on a consistent screen any redraw blanks exactly as many cells as the line on screen |
| LiveInteraction.TurnEndEmptiesBuffer | src/live_interaction.py:296-306 | a turn-complete response always leaves the buffer empty |
| LiveInteraction.RunBuffersTexts | src/live_interaction.py:277-293 | without turn-complete, the buffer grows by exactly the non-empty texts received |
| LiveInteraction.RunConcat | src/live_interaction.py:273-306 | the screen after two runs of responses is the second run applied to the first run's screen |
| LiveInteraction.RunSnocScreen | src/live_interaction.py:275-306 | one more response steps the screen the earlier ones left |
| LiveInteraction.BufferHoldsTextsSinceLastTurn | src/live_interaction.py:270-306 | the buffer holds exactly the non-empty texts received since the last turn-complete |
| LiveInteraction.LiveTranscript.constructor | src/live_interaction.py:241-242 | empty buffer, zero length, invariant holds |
| LiveInteraction.LiveTranscript.OnTranscript | src/live_interaction.py:277-293 | the new fields and the printed text are those of AppendText on the old fields; the invariant is kept |
| LiveInteraction.LiveTranscript.OnTurnComplete | src/live_interaction.py:296-306 | the new fields and the printed text are those of CompleteTurn; the invariant is kept |
| LiveInteraction.LiveTranscript.OnResponse | src/live_interaction.py:275-306 | the new fields and the printed text are those of Step; the invariant is kept |
| LiveInteraction.LiveTranscript.ReceiveAll | src/live_interaction.py:270-306 | the new fields and all printed text are those of Run over the responses; the invariant is kept |
| AudioRecorder.Filled | src/audio_recorder.py:107 | during recording (`i < total_chunks`) the bar has at most 29 full cells, and never more than 30 |
| AudioRecorder.Bar | src/audio_recorder.py:108 | `"█" * filled + "░" * (bar_len - filled)` (its contract is in `BarShape`) |
| AudioRecorder.BarShape | src/audio_recorder.py:108 | a bar has 30 cells: the first `filled` are full and the rest empty |
| AudioRecorder.TenthStep | src/audio_recorder.py:104 | chunk `i` draws a bar exactly when the bars drawn so far cover `i` chunks |
| AudioRecorder.CeilingTenth | src/audio_recorder.py:104-112 | the bar count is ⌈total/10⌉ |
| AudioRecorder.RecordAudio | src/audio_recorder.py:95-112 | all reads are kept, in order. With progress shown there are ⌈total/10⌉ partial bars, for chunks 0, 10, 20, … with `int(30*i/total)` full cells, then one full bar. Without progress there are none |
| AudioRecorder.Countdown | src/audio_recorder.py:159-165 | `range(countdown, 0, -1)`: strictly descending from `countdown` to 1 (empty when not positive); the lines are the `Recording will start in <countdown> seconds...` header, one `   i...` line per tick, then `   🔴 GO!` |
| Cli.LiveBackendFlag | main.py:142-148 | the backend a `live` token selects, with bare and dashed forms |
| Cli.LiveFileBackendFlag | main.py:184-188 | the backend a `live_file` token selects: dashed forms only, no Gemini |
| Cli.ModelFlag | main.py:151-156 | the model a token selects |
| Cli.LastFlag | main.py:142-156 | the value of the last recognised token, or the default (its contract is in the three lemmas below) |
| Cli.LastFlagDefault | main.py:136-139 | with no recognised token the default stands |
| Cli.LastFlagLastWins | main.py:142-156 | the last recognised token wins over every earlier one |
| Cli.LastFlagIgnoresOthers | main.py:142-156 | an unrecognised token can be dropped anywhere |
| Cli.ParseLiveOptions | main.py:136-156 | the backend and the model are each set by the last token naming one; verbose holds exactly when some token asks for it |
| Cli.LiveDefaults | main.py:136-139 | with no options: MLX with the turbo model |
| Cli.LiveFileAcceptsFewerBackends | main.py:184-188 | every `live_file` backend token means the same for `live`; the bare `groq` works only for `live`; `live_file` never selects Gemini |
| Cli.ParseLiveFile | main.py:175-194 | no arguments gives the usage message, exactly. Otherwise the file is the first argument, and backend and model come from the last matching later token |
| Cli.HandleAnalyze | main.py:87-94 | usage message exactly when no arguments; one argument gives the default prompt; more give the first as the file and the rest, joined by single spaces, as the prompt |
| Cli.AnalyzePromptKeepsWords | main.py:94 | the joined prompt splits back into exactly the words after the file |
| Cli.HandleTranscribe | main.py:108-114 | usage message exactly when no arguments; otherwise the first argument is the file |
| Cli.HandleRecord | main.py:209-216 | usage message exactly when no arguments; otherwise the file, and a duration exactly when a second argument is given |
| Cli.HandlerFor | main.py:256-269 | the six handler words and their handlers |
| Cli.InteractiveDispatch | main.py:253-272 | Quit exactly for `quit`, `exit` and `q`; Help for `help`; a handler word gets its handler with the arguments; any other command is Unknown |
| Cli.InteractiveCommand | main.py:244-272 | a blank line is skipped, exactly; any other line dispatches on the lower-cased first word with the other words as arguments |
| Cli.QuitWords | main.py:253-255 | a line quits exactly when its lower-cased first word is `quit`, `exit` or `q` |
| Cli.Raises | main.py:128-134 | `live` and `live_file` raise past the loop, from their import; `record` does when its duration does not parse as a float |
| Cli.Stops | main.py:242-279 | a line ends the loop when it quits or dispatches a command that raises past it |
| Cli.SessionWith | main.py:242-279 | the commands dispatched up to the first quit, or up to and including the first command that raises (its contract is in `SessionWithUnroll` and `SessionWithConcat`) |
| Cli.Session | main.py:242-279 | `SessionWith` for the typed lines and the handlers that raise |
| Cli.RunInteractive | main.py:242-279 | the loop dispatches exactly the session of the typed lines, never Quit, and only the last command dispatched can raise. It stops at the first quit line, at the first command that raises past it, or at end of input |
| Cli.RunWith | main.py:242-279 | the same loop for any line parser, against the session that parser defines |
| Cli.SessionWithUnroll | main.py:242-255 | one line of the session: a quit ends it, a skipped line adds nothing, a raising command is the last, any other command comes first |
| Cli.SessionWithConcat | main.py:242-272 | lines before any line that ends the loop are handled independently of later ones |
| Cli.BlankLineSkipped | main.py:246-247 | a blank line typed before the loop ends can be removed without changing what is dispatched |
| Cli.QuitEndsSession | main.py:253-255 | nothing typed after the first quit is dispatched |
| Cli.RaisingCommandEndsSession | main.py:216 | a command that raises is the last one dispatched; nothing typed after it is |
| Cli.RaisingHandlers | main.py:128-221 | `live` and `live_file` always raise; `record` exactly when it has a duration that does not parse; the other handlers never do |
| Cli.CommandLine | main.py:282-308 | fewer than two argv entries start the prompt, exactly. Otherwise the lower-cased `argv[1]` goes to its handler with `argv[2:]`; `help`, `--help` and `-h` show the menu; any other word, `quit` included, is Unknown |
| Cli.HandlerWordsAreLower | main.py:288-302 | the six handler words survive lower-casing |
| Cli.FrontEndsAgree | main.py:256-269 | the prompt and the command line send each handler word to the same handler with the same arguments |

## Left out

- Service calls are not modelled: Gemini `generate_content`, the Files API upload and `files.get`, Groq transcription and the Live API session. Their replies are inputs, and the model returns the request that would be sent.
- File and device I/O is not modelled: `os.path.exists`, `getsize`, `open`/`read`, PyAudio streams, WAV encoding and `os.makedirs`. Existence, size, the read chunks and the replies are parameters.
- The `frames` collected by `RecordChunk` and `RecordAudio` are returned as a list; the `b"".join` and the WAV container are not modelled.
- asyncio is not modelled: the Gemini loop's tasks, the audio queue and the `TaskGroup`. Only the receive handler is modelled, over the responses in arrival order.
- Interrupts are not modelled as events: Ctrl+C and EOF are the end of the input sequence. In the Groq loop, Ctrl+C is assumed to arrive while a window is being recorded.
- Floating point is not modelled: `int(sample_rate / CHUNK_SIZE * duration)` is the parameter `totalChunks`. The percentage and the KB/MB displays are not printed. `Filled` uses the exact integer floor, where the source applies `int()` to a float.
- `RecordingStatus` takes the chunk duration as already formatted text, because Python's float formatting is not modelled.
- `HandleRecord` keeps the duration argument as text, because `float()` parsing is not modelled. Which strings `float()` accepts is the input predicate `parsesAsFloat` of `Cli.Raises` and `Cli.Session`.
- `mimetypes.guess_type` is an input function, because its tables belong to the platform.
- `Path.suffix` follows the rule that a trailing dot gives no suffix, as in Python 3.13 and earlier.
- `PyStr.Lower` lower-cases ASCII letters only, because Unicode case tables are not modelled.
- AudioUnderstanding.AwaitProcessing: assumes each round takes at least the two seconds it sleeps (`elapsed(k) >= 2k`), so that the loop terminates.
- `handle_live` and `handle_live_file` import `MLX_MODEL_*`, which `src/live_interaction.py` does not define. Its `transcribe_file` takes no `backend`, and `run_live_transcription` accepts neither `model` nor `verbose`. So these handlers raise ImportError before anything is transcribed, from imports outside their `try` (`main.py:130-134`, `main.py:168-173`); `Cli.Raises` makes them end the interactive loop. Only their option parsing is modelled, in `ParseLiveOptions` and `ParseLiveFile`, and the call they attempt is not.
- `transcribe_file` (the Groq file transcription, which checks that the file exists before the key) is not modelled; `transcribe_audio_bytes` is modelled only through its key check and reply (`TranscribeWindow`).
- The `__main__` blocks of the modules under `src/` are not modelled; `main.py` is the entry point.
- `list_audio_devices` runs outside any `try`, so a PyAudio error there would end the interactive loop; device errors are not modelled, and `Cli.Raises` treats `devices` as returning.
- Config.LoadEnvFile: the assignments before a rejected line stay in the environment, and the exception then ends the program (`main.py:313` calls the loader outside any `try`); the model returns the index of that line and leaves what follows to the caller. The assignment's exception type is not modelled.
- Not modelled because they only print: `list_audio_devices`, `print_banner`, `print_menu`, and the fixed messages `Goodbye!`, usage and `Unknown command`. `handle_devices` is modelled only as a command.
- The configuration check at the start of `run_interactive` is not modelled, because it only prints a warning.
- `get_client` and the `genai.Client` object are not modelled, beyond the key check in `GetApiKey`.
