/** main.py: the option loops of `handle_live` and `handle_live_file`, the
    argument rules of the other handlers, and the dispatch of
    `run_interactive` and `run_command_line`. A handler's effect is modelled
    as the call it makes; the lines typed at the prompt are an input. */
module Cli {
  import opened Wrappers
  import opened PyStr
  import opened Seqs
  import AudioUnderstanding

  /** The backend names `handle_live` and `handle_live_file` choose between. */
  datatype LiveBackend = Mlx | Gemini | Groq

  /** `MLX_MODEL_TURBO`, `MLX_MODEL_MEDIUM` and `MLX_MODEL_SMALL`, whose values are not known. */
  datatype MlxModel = MlxTurbo | MlxMedium | MlxSmall

  /** The backend a token of `handle_live` selects. */
  function LiveBackendFlag(arg: string): Option<LiveBackend>
  {
    if arg == "--gemini" || arg == "-g" || arg == "gemini" then Some(Gemini)
    else if arg == "--groq" || arg == "-q" || arg == "groq" then Some(Groq)
    else if arg == "--mlx" || arg == "-m" || arg == "mlx" then Some(Mlx)
    else None
  }

  /** The backend a token of `handle_live_file` selects: only the dashed
      forms, and no Gemini. */
  function LiveFileBackendFlag(arg: string): Option<LiveBackend>
  {
    if arg == "--groq" || arg == "-q" then Some(Groq)
    else if arg == "--mlx" || arg == "-m" then Some(Mlx)
    else None
  }

  /** The model a token selects. */
  function ModelFlag(arg: string): Option<MlxModel>
  {
    if arg == "--medium" then Some(MlxMedium)
    else if arg == "--small" then Some(MlxSmall)
    else if arg == "--turbo" then Some(MlxTurbo)
    else None
  }

  predicate IsVerboseFlag(arg: string)
  {
    arg == "--verbose" || arg == "-v"
  }

  /** The value selected by the last token `flag` recognises, or `default`. */
  function LastFlag<T>(args: seq<string>, flag: string -> Option<T>, default: T): T
  {
    if args == [] then default
    else match flag(args[|args| - 1])
      case Some(v) => v
      case None => LastFlag(args[..|args| - 1], flag, default)
  }

  /** With no recognised token the default stands. */
  lemma {:induction false} LastFlagDefault<T>(args: seq<string>, flag: string -> Option<T>, default: T)
    requires forall k :: 0 <= k < |args| ==> flag(args[k]).None?
    ensures LastFlag(args, flag, default) == default
  {
    if args != [] {
      LastFlagDefault(args[..|args| - 1], flag, default);
    }
  }

  /** The last recognised token wins over every earlier one. */
  lemma {:induction false} LastFlagLastWins<T>(args: seq<string>, flag: string -> Option<T>, default: T, j: nat)
    requires j < |args| && flag(args[j]).Some?
    requires forall k :: j < k < |args| ==> flag(args[k]).None?
    ensures LastFlag(args, flag, default) == flag(args[j]).value
  {
    if j < |args| - 1 {
      LastFlagLastWins(args[..|args| - 1], flag, default, j);
    }
  }

  /** A token the flag does not recognise can be dropped anywhere. */
  lemma {:induction false} LastFlagIgnoresOthers<T>(front: seq<string>, arg: string, back: seq<string>,
                                                    flag: string -> Option<T>, default: T)
    requires flag(arg).None?
    ensures LastFlag(front + [arg] + back, flag, default) == LastFlag(front + back, flag, default)
    decreases |back|
  {
    if back == [] {
      assert (front + [arg] + back)[..|front|] == front;
      assert front + back == front;
    } else {
      var n := |back| - 1;
      assert (front + [arg] + back)[..|front| + 1 + n] == front + [arg] + back[..n];
      assert (front + back)[..|front| + n] == front + back[..n];
      LastFlagIgnoresOthers(front, arg, back[..n], flag, default);
    }
  }

  /** The variables `handle_live` passes to `run_live_transcription`. */
  datatype LiveOptions = LiveOptions(backend: LiveBackend, model: MlxModel, verbose: bool)

  /** The option loop of `handle_live`: backend and model are each set by
      the last token that names one, and verbose holds once any token asks
      for it. */
  method ParseLiveOptions(args: seq<string>) returns (options: LiveOptions)
    ensures options.backend == LastFlag(args, LiveBackendFlag, Mlx)
    ensures options.model == LastFlag(args, ModelFlag, MlxTurbo)
    ensures options.verbose <==> exists k :: 0 <= k < |args| && IsVerboseFlag(args[k])
  {
    var backend := Mlx;
    var model := MlxTurbo;
    var verbose := false;
    for i := 0 to |args|
      invariant backend == LastFlag(args[..i], LiveBackendFlag, Mlx)
      invariant model == LastFlag(args[..i], ModelFlag, MlxTurbo)
      invariant verbose <==> exists k :: 0 <= k < i && IsVerboseFlag(args[k])
    {
      assert args[..i + 1][..i] == args[..i];
      var arg := args[i];
      if arg == "--gemini" || arg == "-g" || arg == "gemini" {
        backend := Gemini;
      } else if arg == "--groq" || arg == "-q" || arg == "groq" {
        backend := Groq;
      } else if arg == "--mlx" || arg == "-m" || arg == "mlx" {
        backend := Mlx;
      } else if arg == "--verbose" || arg == "-v" {
        verbose := true;
      } else if arg == "--medium" {
        model := MlxMedium;
      } else if arg == "--small" {
        model := MlxSmall;
      } else if arg == "--turbo" {
        model := MlxTurbo;
      }
    }
    assert args[..|args|] == args;
    options := LiveOptions(backend, model, verbose);
  }

  /** With no options `handle_live` uses MLX, the turbo model and no verbose output. */
  lemma LiveDefaults()
    ensures LastFlag([], LiveBackendFlag, Mlx) == Mlx && LastFlag([], ModelFlag, MlxTurbo) == MlxTurbo
  {
  }

  /** The bare word `groq` picks Groq for `live` but is ignored by
      `live_file`, and neither `-g` nor `gemini` is a `live_file` option. */
  lemma LiveFileAcceptsFewerBackends(arg: string)
    ensures LiveFileBackendFlag(arg).Some? ==> LiveBackendFlag(arg) == LiveFileBackendFlag(arg)
    ensures LiveBackendFlag("groq") == Some(Groq) && LiveFileBackendFlag("groq").None?
    ensures LiveFileBackendFlag(arg) != Some(Gemini)
  {
  }

  /** What `handle_live_file` does: print its usage, or transcribe a file. */
  datatype LiveFileAction = LiveFileUsage | TranscribeFile(path: string, backend: LiveBackend, model: MlxModel)

  /** `handle_live_file`: without arguments it prints its usage; otherwise
      the first argument is the file, whatever it looks like, and only the
      rest are options. */
  method ParseLiveFile(args: seq<string>) returns (action: LiveFileAction)
    ensures args == [] <==> action == LiveFileUsage
    ensures args != [] ==> action == TranscribeFile(args[0],
      LastFlag(args[1..], LiveFileBackendFlag, Mlx), LastFlag(args[1..], ModelFlag, MlxTurbo))
  {
    if args == [] {
      return LiveFileUsage;
    }
    var options := args[1..];
    var backend := Mlx;
    var model := MlxTurbo;
    for i := 0 to |options|
      invariant backend == LastFlag(options[..i], LiveFileBackendFlag, Mlx)
      invariant model == LastFlag(options[..i], ModelFlag, MlxTurbo)
    {
      assert options[..i + 1][..i] == options[..i];
      var arg := options[i];
      if arg == "--groq" || arg == "-q" {
        backend := Groq;
      } else if arg == "--mlx" || arg == "-m" {
        backend := Mlx;
      } else if arg == "--medium" {
        model := MlxMedium;
      } else if arg == "--small" {
        model := MlxSmall;
      } else if arg == "--turbo" {
        model := MlxTurbo;
      }
    }
    assert options[..|options|] == options;
    action := TranscribeFile(args[0], backend, model);
  }

  /** What `handle_analyze` does. */
  datatype AnalyzeAction = AnalyzeUsage | Analyze(path: string, prompt: string)

  /** `handle_analyze`: the default prompt when only a file is given,
      otherwise the remaining arguments joined by single spaces. */
  function HandleAnalyze(args: seq<string>): (action: AnalyzeAction)
    ensures args == [] <==> action == AnalyzeUsage
    ensures |args| == 1 ==> action == Analyze(args[0], AudioUnderstanding.DEFAULT_PROMPT)
    ensures |args| > 1 ==> action == Analyze(args[0], Join(" ", args[1..]))
  {
    if args == [] then AnalyzeUsage
    else Analyze(args[0], if |args| > 1 then Join(" ", args[1..]) else AudioUnderstanding.DEFAULT_PROMPT)
  }

  /** For the words of a typed command, the prompt splits back into exactly
      the words after the file. */
  lemma AnalyzePromptKeepsWords(args: seq<string>)
    requires |args| > 1 && forall k :: 0 <= k < |args| ==> IsToken(args[k])
    ensures Split(HandleAnalyze(args).prompt) == args[1..]
  {
    SplitJoin(args[1..]);
  }

  /** What `handle_transcribe` does. */
  datatype TranscribeAction = TranscribeUsage | Transcribe(path: string)

  function HandleTranscribe(args: seq<string>): (action: TranscribeAction)
    ensures args == [] <==> action == TranscribeUsage
    ensures args != [] ==> action == Transcribe(args[0])
  {
    if args == [] then TranscribeUsage else Transcribe(args[0])
  }

  /** What `handle_record` does; the duration is the unparsed argument. */
  datatype RecordAction = RecordUsage | Record(path: string, duration: Option<string>)

  function HandleRecord(args: seq<string>): (action: RecordAction)
    ensures args == [] <==> action == RecordUsage
    ensures args != [] ==> action.path == args[0] && (action.duration.Some? <==> |args| > 1)
    ensures |args| > 1 ==> action.duration == Some(args[1])
  {
    if args == [] then RecordUsage
    else Record(args[0], if |args| > 1 then Some(args[1]) else None)
  }

  /** The handler a command is dispatched to, with its arguments. */
  datatype Command =
    | Quit
    | Help
    | AnalyzeCommand(args: seq<string>)
    | TranscribeCommand(args: seq<string>)
    | LiveCommand(args: seq<string>)
    | LiveFileCommand(args: seq<string>)
    | RecordCommand(args: seq<string>)
    | DevicesCommand(args: seq<string>)
    | Unknown(command: string)

  /** The handlers both front ends share. */
  function HandlerFor(command: string, args: seq<string>): Option<Command>
  {
    if command == "analyze" then Some(AnalyzeCommand(args))
    else if command == "transcribe" then Some(TranscribeCommand(args))
    else if command == "live" then Some(LiveCommand(args))
    else if command == "live_file" then Some(LiveFileCommand(args))
    else if command == "record" then Some(RecordCommand(args))
    else if command == "devices" then Some(DevicesCommand(args))
    else None
  }

  /** The dispatch chain of `run_interactive` for a lower-cased command. */
  function InteractiveDispatch(command: string, args: seq<string>): (r: Command)
    ensures r == Quit <==> command == "quit" || command == "exit" || command == "q"
    ensures command == "help" ==> r == Help
    ensures HandlerFor(command, args).Some? ==> r == HandlerFor(command, args).value
    ensures (!(command == "quit" || command == "exit" || command == "q" || command == "help") &&
      HandlerFor(command, args).None?) ==> r == Unknown(command)
  {
    if command == "quit" || command == "exit" || command == "q" then Quit
    else if command == "help" then Help
    else match HandlerFor(command, args)
      case Some(c) => c
      case None => Unknown(command)
  }

  /** One line typed at `kopichat> `: None for a blank line, which is
      skipped; otherwise the command is the lower-cased first word and its
      arguments are the other words. */
  function InteractiveCommand(line: string): (r: Option<Command>)
    ensures r.None? <==> Strip(line) == []
    ensures r.Some? ==> var words := Split(Strip(line));
      words != [] && r.value == InteractiveDispatch(Lower(words[0]), words[1..])
  {
    var input := Strip(line);
    if input == [] then None
    else
      SplitEmptyIffBlank(input);
      StripIdempotent(line);
      var parts := Split(input);
      Some(InteractiveDispatch(Lower(parts[0]), parts[1..]))
  }

  /** `quit`, `exit` and `q`, in any letter case, end the loop; nothing else does. */
  lemma QuitWords(line: string)
    requires InteractiveCommand(line).Some?
    ensures var command := Lower(Split(Strip(line))[0]);
      InteractiveCommand(line) == Some(Quit) <==> command == "quit" || command == "exit" || command == "q"
  {
  }

  /** Whether the handler of a command raises out of the `try` of
      `run_interactive`, which catches only KeyboardInterrupt and EOFError,
      so that the program stops. `handle_live` and `handle_live_file` start
      by importing names `src/live_interaction.py` does not define;
      `handle_record` calls `float` on a duration argument before its own
      `try`. `parsesAsFloat` says which strings `float` accepts. */
  predicate Raises(command: Command, parsesAsFloat: string -> bool)
  {
    match command
    case LiveCommand(_) => true
    case LiveFileCommand(_) => true
    case RecordCommand(args) => |args| > 1 && !parsesAsFloat(args[1])
    case _ => false
  }

  /** Whether a line read with `parse` ends a loop that stops on `Quit` and
      on the commands `ends` names. */
  predicate Stops(parse: string -> Option<Command>, ends: Command -> bool, line: string)
  {
    parse(line) == Some(Quit) || (parse(line).Some? && ends(parse(line).value))
  }

  /** The commands a loop that reads lines with `parse` dispatches, up to
      the first `Quit` or up to and including the first command that `ends`
      the loop; end of input ends the loop as well. */
  function SessionWith(parse: string -> Option<Command>, ends: Command -> bool, inputs: seq<string>): seq<Command>
  {
    if inputs == [] then []
    else match parse(inputs[0])
      case None => SessionWith(parse, ends, inputs[1..])
      case Some(Quit) => []
      case Some(c) => if ends(c) then [c] else [c] + SessionWith(parse, ends, inputs[1..])
  }

  /** The commands the interactive loop dispatches for the lines typed. */
  function Session(inputs: seq<string>, parsesAsFloat: string -> bool): seq<Command>
  {
    SessionWith(InteractiveCommand, c => Raises(c, parsesAsFloat), inputs)
  }

  /** Whether a line ends the interactive loop: a quit word, or a command
      whose handler raises. */
  predicate IsLastLine(line: string, parsesAsFloat: string -> bool)
  {
    Stops(InteractiveCommand, c => Raises(c, parsesAsFloat), line)
  }

  /** The `while True` loop of `run_interactive` over the typed lines.
      `consumed` is how many lines were read before the one that ended the
      loop, or all of them. */
  method RunInteractive(inputs: seq<string>, parsesAsFloat: string -> bool) returns (dispatched: seq<Command>, consumed: nat)
    ensures dispatched == Session(inputs, parsesAsFloat)
    ensures consumed <= |inputs|
    ensures forall k :: 0 <= k < |dispatched| ==> dispatched[k] != Quit
    ensures forall k :: 0 <= k < |dispatched| - 1 ==> !Raises(dispatched[k], parsesAsFloat)
    ensures consumed < |inputs| ==> IsLastLine(inputs[consumed], parsesAsFloat)
    ensures forall k :: 0 <= k < consumed ==> !IsLastLine(inputs[k], parsesAsFloat)
  {
    dispatched, consumed := RunWith(InteractiveCommand, c => Raises(c, parsesAsFloat), inputs);
  }

  /** The same loop for any line reader `parse` and any set of commands
      that `ends` it. */
  method RunWith(parse: string -> Option<Command>, ends: Command -> bool, inputs: seq<string>)
    returns (dispatched: seq<Command>, consumed: nat)
    ensures dispatched == SessionWith(parse, ends, inputs)
    ensures consumed <= |inputs|
    ensures forall k :: 0 <= k < |dispatched| ==> dispatched[k] != Quit
    ensures forall k :: 0 <= k < |dispatched| - 1 ==> !ends(dispatched[k])
    ensures consumed < |inputs| ==> Stops(parse, ends, inputs[consumed])
    ensures forall k :: 0 <= k < consumed ==> !Stops(parse, ends, inputs[k])
  {
    dispatched := [];
    var i := 0;
    while i < |inputs|
      invariant i <= |inputs|
      invariant dispatched + SessionWith(parse, ends, inputs[i..]) == SessionWith(parse, ends, inputs)
      invariant forall k :: 0 <= k < |dispatched| ==> dispatched[k] != Quit && !ends(dispatched[k])
      invariant forall k :: 0 <= k < i ==> !Stops(parse, ends, inputs[k])
    {
      var command := parse(inputs[i]);
      SessionWithUnroll(parse, ends, inputs, i);
      if command == Some(Quit) {
        assert dispatched + [] == dispatched;
        return dispatched, i;
      }
      if command.Some? && ends(command.value) {
        return dispatched + [command.value], i;
      }
      if command.Some? {
        ConcatAssoc(dispatched, [command.value], SessionWith(parse, ends, inputs[i + 1..]));
        dispatched := dispatched + [command.value];
      }
      i := i + 1;
    }
    assert dispatched + [] == dispatched;
    consumed := i;
  }

  /** One step of the session from line `i`. */
  lemma SessionWithUnroll(parse: string -> Option<Command>, ends: Command -> bool, inputs: seq<string>, i: nat)
    requires i < |inputs|
    ensures parse(inputs[i]) == Some(Quit) ==> SessionWith(parse, ends, inputs[i..]) == []
    ensures parse(inputs[i]).None? ==> SessionWith(parse, ends, inputs[i..]) == SessionWith(parse, ends, inputs[i + 1..])
    ensures parse(inputs[i]).Some? && parse(inputs[i]) != Some(Quit) && ends(parse(inputs[i]).value) ==>
      SessionWith(parse, ends, inputs[i..]) == [parse(inputs[i]).value]
    ensures parse(inputs[i]).Some? && parse(inputs[i]) != Some(Quit) && !ends(parse(inputs[i]).value) ==>
      SessionWith(parse, ends, inputs[i..]) == [parse(inputs[i]).value] + SessionWith(parse, ends, inputs[i + 1..])
  {
    assert inputs[i..][1..] == inputs[i + 1..];
  }

  /** Lines before any line that ends the loop are handled independently of
      those after them. */
  lemma {:induction false} SessionWithConcat(parse: string -> Option<Command>, ends: Command -> bool,
                                             front: seq<string>, back: seq<string>)
    requires forall k :: 0 <= k < |front| ==> !Stops(parse, ends, front[k])
    ensures SessionWith(parse, ends, front + back) == SessionWith(parse, ends, front) + SessionWith(parse, ends, back)
  {
    if front == [] {
      assert front + back == back;
    } else {
      var all := front + back;
      assert all[1..] == front[1..] + back;
      assert all[0] == front[0];
      SessionWithConcat(parse, ends, front[1..], back);
    }
  }

  /** Whether no line ends the loop. */
  predicate NoLastLine(inputs: seq<string>, parsesAsFloat: string -> bool)
  {
    forall k :: 0 <= k < |inputs| ==> !IsLastLine(inputs[k], parsesAsFloat)
  }

  /** A blank line is skipped wherever it is typed. */
  lemma BlankLineSkipped(front: seq<string>, line: string, back: seq<string>, parsesAsFloat: string -> bool)
    requires NoLastLine(front, parsesAsFloat) && Strip(line) == []
    ensures Session(front + [line] + back, parsesAsFloat) == Session(front + back, parsesAsFloat)
  {
    var ends := c => Raises(c, parsesAsFloat);
    assert front + [line] + back == front + ([line] + back);
    SessionWithConcat(InteractiveCommand, ends, front, [line] + back);
    SessionWithConcat(InteractiveCommand, ends, front, back);
    assert ([line] + back)[1..] == back;
  }

  /** Nothing typed after the first quit is dispatched. */
  lemma QuitEndsSession(front: seq<string>, line: string, back: seq<string>, parsesAsFloat: string -> bool)
    requires NoLastLine(front, parsesAsFloat) && InteractiveCommand(line) == Some(Quit)
    ensures Session(front + [line] + back, parsesAsFloat) == Session(front, parsesAsFloat)
  {
    var ends := c => Raises(c, parsesAsFloat);
    assert front + [line] + back == front + ([line] + back);
    SessionWithConcat(InteractiveCommand, ends, front, [line] + back);
    assert Session(front, parsesAsFloat) + [] == Session(front, parsesAsFloat);
  }

  /** A command whose handler raises is the last one dispatched: nothing
      typed after it is. */
  lemma RaisingCommandEndsSession(front: seq<string>, line: string, back: seq<string>, parsesAsFloat: string -> bool)
    requires NoLastLine(front, parsesAsFloat)
    requires InteractiveCommand(line).Some? && Raises(InteractiveCommand(line).value, parsesAsFloat)
    ensures Session(front + [line] + back, parsesAsFloat) == Session(front, parsesAsFloat) + [InteractiveCommand(line).value]
  {
    var ends := c => Raises(c, parsesAsFloat);
    assert front + [line] + back == front + ([line] + back);
    SessionWithConcat(InteractiveCommand, ends, front, [line] + back);
    assert ([line] + back)[0] == line;
  }

  /** `live` and `live_file` always end the loop, and `record` does when
      its duration does not parse; every other handler returns to it. */
  lemma RaisingHandlers(args: seq<string>, parsesAsFloat: string -> bool)
    ensures Raises(LiveCommand(args), parsesAsFloat) && Raises(LiveFileCommand(args), parsesAsFloat)
    ensures Raises(RecordCommand(args), parsesAsFloat) <==> |args| > 1 && !parsesAsFloat(args[1])
    ensures !Raises(AnalyzeCommand(args), parsesAsFloat) && !Raises(TranscribeCommand(args), parsesAsFloat)
      && !Raises(DevicesCommand(args), parsesAsFloat) && !Raises(Help, parsesAsFloat)
  {
  }

  /** Where `run_command_line` goes. */
  datatype Entry = Interactive | Dispatch(command: Command)

  /** `run_command_line`: fewer than two argv entries start the interactive
      loop; otherwise the lower-cased `argv[1]` is dispatched with `argv[2:]`,
      `help`, `--help` and `-h` print the menu, and any other word is
      unknown (including `quit`). */
  function CommandLine(argv: seq<string>): (r: Entry)
    ensures r == Interactive <==> |argv| < 2
    ensures r.Dispatch? ==> r.command != Quit
    ensures |argv| >= 2 && (Lower(argv[1]) == "help" || Lower(argv[1]) == "--help" || Lower(argv[1]) == "-h")
      ==> r == Dispatch(Help)
    ensures |argv| >= 2 && HandlerFor(Lower(argv[1]), argv[2..]).Some? ==>
      r == Dispatch(HandlerFor(Lower(argv[1]), argv[2..]).value)
    ensures |argv| >= 2 && HandlerFor(Lower(argv[1]), argv[2..]).None? &&
      !(Lower(argv[1]) == "help" || Lower(argv[1]) == "--help" || Lower(argv[1]) == "-h")
      ==> r == Dispatch(Unknown(Lower(argv[1])))
  {
    if |argv| < 2 then Interactive
    else
      var command := Lower(argv[1]);
      var args := argv[2..];
      match HandlerFor(command, args)
      case Some(c) => Dispatch(c)
      case None =>
        if command == "help" || command == "--help" || command == "-h" then Dispatch(Help)
        else Dispatch(Unknown(command))
  }

  /** The six handler words are already lower-case. */
  lemma HandlerWordsAreLower(command: string, args: seq<string>)
    requires HandlerFor(command, args).Some?
    ensures Lower(command) == command
  {
    if command == "analyze" {
      assert Lower("analyze") == "analyze";
    } else if command == "transcribe" {
      assert Lower("transcribe") == "transcribe";
    } else if command == "live" {
      assert Lower("live") == "live";
    } else if command == "live_file" {
      assert Lower("live_file") == "live_file";
    } else if command == "record" {
      assert Lower("record") == "record";
    } else {
      assert Lower("devices") == "devices";
    }
  }

  /** The interactive loop and the command line route the six handler
      words alike. */
  lemma FrontEndsAgree(command: string, args: seq<string>)
    requires HandlerFor(command, args).Some?
    ensures InteractiveDispatch(command, args) == HandlerFor(command, args).value
    ensures forall program :: CommandLine([program, command] + args) == Dispatch(HandlerFor(command, args).value)
  {
    HandlerWordsAreLower(command, args);
    forall program ensures CommandLine([program, command] + args) == Dispatch(HandlerFor(command, args).value) {
      var argv := [program, command] + args;
      assert argv[1] == command;
      assert argv[2..] == args;
    }
  }
}
