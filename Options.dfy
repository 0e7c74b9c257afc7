/**
 * What program::instance::init does with the argument list
 * (main.cpp:259-458): every option, its subarguments, the validators and the
 * settings they fill in, stated as functions.  The class in Program.dfy runs
 * the same loop imperatively and is proved to compute Parse.
 */
module Options {
  import opened Common
  import opened ArgumentNames

  /** directory_argument: a source directory and the directory its copies go to. */
  datatype DirectoryArgument = DirectoryArgument(src: string, dst: string)

  /** The fields of program::instance that init fills in. */
  datatype Settings = Settings(
    recurse: bool,
    verbose: bool,
    replace: bool,
    prefixBuffer: Bytes,  // mCommentPrefix: 16 bytes holding a NUL-terminated prefix
    directories: seq<DirectoryArgument>,
    extensions: seq<string>,
    notice: Bytes)
  {
    /** The comment prefix as strlen and starts_with read it from the buffer. */
    function CommentPrefix(): Bytes
    {
      CString(prefixBuffer)
    }
  }

  /** sizeof(mCommentPrefix). */
  const PrefixCapacity: nat := 16

  /** u8"// " followed by the zero bytes that fill the rest of the array. */
  const DefaultPrefixBuffer: Bytes := [47, 47, 32, 0, 0, 0, 0, 0, 0, 0, 0, 0, 0, 0, 0, 0]

  /** The instance as constructed, before init. */
  const Defaults: Settings := Settings(false, false, false, DefaultPrefixBuffer, [], [], [])

  /** The prefix buffer keeps its size and a terminating NUL. */
  predicate WellFormed(o: Settings)
  {
    |o.prefixBuffer| == PrefixCapacity && 0 in o.prefixBuffer
  }

  /**
   * Code outside the model that init calls: wdul::utf16_to_utf8, and reading
   * the whole of the file /notef names.
   */
  datatype Host = Host(toUtf8: string -> Bytes, readFile: string -> Bytes)

  /** Why init returns false; each stands for one of its error messages. */
  datatype ArgError =
    | NoArguments
    | ExpectedArgumentName
    | UnknownArgument
    | MissingSubargument
    | TrailingSlash
    | EmptyDestination
    | IllegalCharacter
    | ExtensionTooLong
    | ExtensionBlank
    | NoticeAlreadySupplied
    | AlreadySet
    | SyntaxTooLong
    | SyntaxBlank
    | NotImplemented

  datatype Result<T> = Ok(value: T) | Err(error: ArgError)

  /** The settings after one option, and the index of the argument after its subarguments. */
  datatype Step = Step(settings: Settings, next: nat)

  /** Characters a /dir path may not hold. */
  const PathIllegal: string := "<>:\"|?*"
  /** Characters an /ext extension may not hold. */
  const ExtensionIllegal: string := "<>:\"/\\|?*."
  /** The longest extension /ext accepts. */
  const MaxExtensionLength: nat := 15

  predicate EndsWithSlash(s: string)
  {
    |s| > 0 && (s[|s| - 1] == '\\' || s[|s| - 1] == '/')
  }

  /** `++argIdx == ArgC || ArgV[argIdx][0] == L'/'`: no subargument at j. */
  predicate Missing(argv: seq<string>, j: nat)
    requires j <= |argv|
  {
    j == |argv| || (|argv[j]| > 0 && argv[j][0] == '/')
  }

  /** arg starts with '/' and the name the lookup sees in it is n. */
  predicate Names(arg: string, n: string)
  {
    |arg| > 0 && arg[0] == '/' && ArgumentName(arg) == n
  }

  /** memcpy of sub and its terminator to the start of the prefix buffer. */
  function CopyTerminated(buffer: Bytes, sub: Bytes): (b: Bytes)
    requires |sub| < |buffer|
    ensures |b| == |buffer| && 0 in b
  {
    assert (sub + [0] + buffer[|sub| + 1..])[|sub|] == 0;
    sub + [0] + buffer[|sub| + 1..]
  }

  // ---------------------------------------------------------------------------
  // The validators, stated without the order in which init checks them

  /** What /dir accepts: no trailing slash, a non-empty destination, no illegal character. */
  predicate ValidDirectory(src: string, dst: string)
  {
    && !EndsWithSlash(src)
    && dst != ""
    && !EndsWithSlash(dst)
    && !ContainsAnyOf(src, PathIllegal)
    && !ContainsAnyOf(dst, PathIllegal)
  }

  /** What /ext accepts: 1 to 15 characters, none of them illegal. */
  predicate ValidExtension(ext: string)
  {
    1 <= |ext| <= MaxExtensionLength && !ContainsAnyOf(ext, ExtensionIllegal)
  }

  /** What /syntax accepts once converted: 1 to 15 bytes, so that it fits with its NUL. */
  predicate ValidSyntax(sub: Bytes)
  {
    1 <= |sub| < PrefixCapacity
  }

  // ---------------------------------------------------------------------------
  // One pass of the argIdx loop

  /** The settings only grow: set flags stay set, lists keep their entries, a notice stays. */
  predicate Extends(o: Settings, o': Settings)
  {
    && (o.recurse ==> o'.recurse) && (o.verbose ==> o'.verbose) && (o.replace ==> o'.replace)
    && StartsWith(o'.directories, o.directories)
    && StartsWith(o'.extensions, o.extensions)
    && (o.notice != [] ==> o'.notice == o.notice)
  }

  /** The result of one option is well formed, grows the settings and moves past argument i. */
  predicate GoodStep(o: Settings, argv: seq<string>, i: nat, r: Result<Step>)
  {
    r.Ok? ==> i < r.value.next <= |argv| && WellFormed(r.value.settings) && Extends(o, r.value.settings)
  }

  /** /dir with its subarguments expected at j and j + 1. */
  function DirOption(o: Settings, argv: seq<string>, j: nat): (r: Result<Step>)
    requires 2 <= j <= |argv| && WellFormed(o)
    ensures GoodStep(o, argv, j - 1, r)
    ensures r.Ok? ==> j + 1 < |argv| &&
                      r.value == Step(o.(directories := o.directories + [DirectoryArgument(argv[j], argv[j + 1])]), j + 2)
  {
    if Missing(argv, j) then Err(MissingSubargument)
    else if EndsWithSlash(argv[j]) then Err(TrailingSlash)
    else if Missing(argv, j + 1) then Err(MissingSubargument)
    else if argv[j + 1] == "" then Err(EmptyDestination)
    else if EndsWithSlash(argv[j + 1]) then Err(TrailingSlash)
    else if ContainsAnyOf(argv[j], PathIllegal) then Err(IllegalCharacter)
    else if ContainsAnyOf(argv[j + 1], PathIllegal) then Err(IllegalCharacter)
    else
      var dir := DirectoryArgument(argv[j], argv[j + 1]);
      Ok(Step(o.(directories := o.directories + [dir]), j + 2))
  }

  /** /ext with its subargument expected at j. */
  function ExtOption(o: Settings, argv: seq<string>, j: nat): (r: Result<Step>)
    requires 2 <= j <= |argv| && WellFormed(o)
    ensures GoodStep(o, argv, j - 1, r)
    ensures r.Ok? ==> j < |argv| && r.value == Step(o.(extensions := o.extensions + [argv[j]]), j + 1)
  {
    if Missing(argv, j) then Err(MissingSubargument)
    else if |argv[j]| > MaxExtensionLength then Err(ExtensionTooLong)
    else if |argv[j]| == 0 then Err(ExtensionBlank)
    else if ContainsAnyOf(argv[j], ExtensionIllegal) then Err(IllegalCharacter)
    else Ok(Step(o.(extensions := o.extensions + [argv[j]]), j + 1))
  }

  /** /note (fromFile false) or /notef (fromFile true) with its subargument expected at j. */
  function NoteOption(o: Settings, argv: seq<string>, j: nat, fromFile: bool, host: Host): (r: Result<Step>)
    requires 2 <= j <= |argv| && WellFormed(o)
    ensures GoodStep(o, argv, j - 1, r)
    ensures r.Ok? <==> !Missing(argv, j) && o.notice == []
    ensures r.Ok? ==> j < |argv| &&
                      r.value == Step(o.(notice := if fromFile then host.readFile(argv[j]) else host.toUtf8(argv[j])), j + 1)
  {
    if Missing(argv, j) then Err(MissingSubargument)
    else if o.notice != [] then Err(NoticeAlreadySupplied)
    else if fromFile then Ok(Step(o.(notice := host.readFile(argv[j])), j + 1))
    else Ok(Step(o.(notice := host.toUtf8(argv[j])), j + 1))
  }

  /** /syntax with its subargument expected at j. */
  function SyntaxOption(o: Settings, argv: seq<string>, j: nat, host: Host): (r: Result<Step>)
    requires 2 <= j <= |argv| && WellFormed(o)
    ensures GoodStep(o, argv, j - 1, r)
    ensures r.Ok? <==> j < |argv| && !Missing(argv, j) && ValidSyntax(host.toUtf8(argv[j]))
    ensures r.Ok? ==> j < |argv| && |host.toUtf8(argv[j])| < |o.prefixBuffer| &&
                      r.value == Step(o.(prefixBuffer := CopyTerminated(o.prefixBuffer, host.toUtf8(argv[j]))), j + 1)
  {
    if Missing(argv, j) then Err(MissingSubargument)
    else
      var sub := host.toUtf8(argv[j]);
      if |sub| > PrefixCapacity - 1 then Err(SyntaxTooLong)
      else if sub == [] then Err(SyntaxBlank)
      else Ok(Step(o.(prefixBuffer := CopyTerminated(o.prefixBuffer, sub)), j + 1))
  }

  /** The effect of the option at argv[i], in the order of the checks in init. */
  function ApplyOption(o: Settings, argv: seq<string>, i: nat, host: Host): (r: Result<Step>)
    requires WellFormed(o)
    requires 1 <= i < |argv|
    ensures GoodStep(o, argv, i, r)
  {
    var arg := argv[i];
    if |arg| == 0 || arg[0] != '/' then Err(ExpectedArgumentName)
    else Dispatch(o, argv, i, NameId(ArgumentName(arg)), host)
  }

  /** The switch on the id of the name at argv[i]. */
  function Dispatch(o: Settings, argv: seq<string>, i: nat, id: nat, host: Host): (r: Result<Step>)
    requires WellFormed(o)
    requires 1 <= i < |argv|
    ensures GoodStep(o, argv, i, r)
  {
    if id == 0 then Err(UnknownArgument)
    else if id == DirId then DirOption(o, argv, i + 1)
    else if id == ExtId then ExtOption(o, argv, i + 1)
    else if id == NoteId then NoteOption(o, argv, i + 1, false, host)
    else if id == NotefId then NoteOption(o, argv, i + 1, true, host)
    else if id == RecurseId then
      if o.recurse then Err(AlreadySet) else Ok(Step(o.(recurse := true), i + 1))
    else if id == VerboseId then
      if o.verbose then Err(AlreadySet) else Ok(Step(o.(verbose := true), i + 1))
    else if id == SyntaxId then SyntaxOption(o, argv, i + 1, host)
    else if id == ReplaceId then
      if o.replace then Err(AlreadySet) else Ok(Step(o.(replace := true), i + 1))
    else Err(NotImplemented)
  }

  /**
   * The rest of the argIdx loop from argument i on.  Options only ever add to
   * what came before: flags stay set and the lists only grow.
   */
  function ParseFrom(o: Settings, argv: seq<string>, i: nat, host: Host): (r: Result<Settings>)
    requires WellFormed(o)
    requires 1 <= i <= |argv|
    ensures r.Ok? ==> WellFormed(r.value) && Extends(o, r.value)
    decreases |argv| - i
  {
    if i == |argv| then Ok(o)
    else
      match ApplyOption(o, argv, i, host)
      case Err(e) => Err(e)
      case Ok(step) => ParseFrom(step.settings, argv, step.next, host)
  }

  /** init's verdict on a whole command line (argv[0] is the program name). */
  function Parse(argv: seq<string>, host: Host): Result<Settings>
  {
    if |argv| < 2 then Err(NoArguments) else ParseFrom(Defaults, argv, 1, host)
  }

  // ---------------------------------------------------------------------------
  // What each option accepts

  /** /dir succeeds exactly when both subarguments are there and pass the validators. */
  lemma {:induction false} DirectoryAccepted(o: Settings, argv: seq<string>, i: nat, host: Host)
    requires WellFormed(o) && 1 <= i < |argv| && Names(argv[i], "dir")
    ensures ApplyOption(o, argv, i, host).Ok? <==>
              i + 2 < |argv| && !Missing(argv, i + 1) && !Missing(argv, i + 2)
              && ValidDirectory(argv[i + 1], argv[i + 2])
    ensures ApplyOption(o, argv, i, host).Ok? ==>
              ApplyOption(o, argv, i, host).value ==
              Step(o.(directories := o.directories + [DirectoryArgument(argv[i + 1], argv[i + 2])]), i + 3)
  {
  }

  /** /ext succeeds exactly when its subargument is there and is a valid extension. */
  lemma {:induction false} ExtensionAccepted(o: Settings, argv: seq<string>, i: nat, host: Host)
    requires WellFormed(o) && 1 <= i < |argv| && Names(argv[i], "ext")
    ensures ApplyOption(o, argv, i, host).Ok? <==>
              i + 1 < |argv| && !Missing(argv, i + 1) && ValidExtension(argv[i + 1])
    ensures ApplyOption(o, argv, i, host).Ok? ==>
              ApplyOption(o, argv, i, host).value ==
              Step(o.(extensions := o.extensions + [argv[i + 1]]), i + 2)
  {
  }

  /**
   * /syntax succeeds exactly when its converted subargument is 1 to 15 bytes;
   * a subargument without NUL bytes then becomes the comment prefix.
   */
  lemma {:induction false} SyntaxAccepted(o: Settings, argv: seq<string>, i: nat, host: Host)
    requires WellFormed(o) && 1 <= i < |argv| && Names(argv[i], "syntax")
    ensures ApplyOption(o, argv, i, host).Ok? <==>
              i + 1 < |argv| && !Missing(argv, i + 1) && ValidSyntax(host.toUtf8(argv[i + 1]))
    ensures ApplyOption(o, argv, i, host).Ok? ==>
              ApplyOption(o, argv, i, host).value ==
              Step(o.(prefixBuffer := CopyTerminated(o.prefixBuffer, host.toUtf8(argv[i + 1]))), i + 2)
    ensures ApplyOption(o, argv, i, host).Ok? && 0 !in host.toUtf8(argv[i + 1]) ==>
              ApplyOption(o, argv, i, host).value.settings.CommentPrefix() == host.toUtf8(argv[i + 1])
  {
    var r := ApplyOption(o, argv, i, host);
    if r.Ok? {
      var sub := host.toUtf8(argv[i + 1]);
      if 0 !in sub {
        CStringOfTerminated(sub, o.prefixBuffer[|sub| + 1..]);
      }
    }
  }

  /**
   * /note and /notef fail when the subargument is missing or a non-empty
   * notice is already stored, and otherwise replace the (empty) notice.
   */
  lemma {:induction false} NoticeAccepted(o: Settings, argv: seq<string>, i: nat, host: Host)
    requires WellFormed(o) && 1 <= i < |argv|
    requires Names(argv[i], "note") || Names(argv[i], "notef")
    ensures ApplyOption(o, argv, i, host).Ok? <==> !Missing(argv, i + 1) && o.notice == []
    ensures ApplyOption(o, argv, i, host).Ok? ==>
              ApplyOption(o, argv, i, host).value ==
              Step(o.(notice := if Names(argv[i], "note") then host.toUtf8(argv[i + 1])
                                else host.readFile(argv[i + 1])), i + 2)
  {
  }

  /** /recurse, /verbose and /replace fail exactly when the flag is already set. */
  lemma {:induction false} FlagAccepted(o: Settings, argv: seq<string>, i: nat, host: Host)
    requires WellFormed(o) && 1 <= i < |argv|
    requires Names(argv[i], "recurse") || Names(argv[i], "verbose") || Names(argv[i], "replace")
    ensures ApplyOption(o, argv, i, host).Ok? <==>
              if Names(argv[i], "recurse") then !o.recurse
              else if Names(argv[i], "verbose") then !o.verbose
              else !o.replace
    ensures ApplyOption(o, argv, i, host).Ok? ==>
              ApplyOption(o, argv, i, host).value ==
              if Names(argv[i], "recurse") then Step(o.(recurse := true), i + 1)
              else if Names(argv[i], "verbose") then Step(o.(verbose := true), i + 1)
              else Step(o.(replace := true), i + 1)
  {
  }

  /** Anything that does not start with '/' where an option is expected is refused. */
  lemma {:induction false} NotAnOption(o: Settings, argv: seq<string>, i: nat, host: Host)
    requires WellFormed(o) && 1 <= i < |argv|
    requires |argv[i]| == 0 || argv[i][0] != '/'
    ensures ApplyOption(o, argv, i, host) == Err(ExpectedArgumentName)
  {
  }

  /** Every option name in the table has a branch: NotImplemented never happens. */
  lemma {:induction false} EveryNameHandled(o: Settings, argv: seq<string>, i: nat, host: Host)
    requires WellFormed(o) && 1 <= i < |argv|
    ensures ApplyOption(o, argv, i, host) != Err(NotImplemented)
  {
    var arg := argv[i];
    if |arg| > 0 && arg[0] == '/' {
      var id := NameId(ArgumentName(arg));
      assert id <= VerboseId;
    }
  }

  // ---------------------------------------------------------------------------
  // Whole command lines

  /** A command line with nothing after the program name is refused. */
  lemma {:induction false} NoArgumentsRefused(argv: seq<string>, host: Host)
    requires |argv| < 2
    ensures Parse(argv, host) == Err(NoArguments)
  {
  }

  /** An empty /note does not block a later one: only a non-empty notice does. */
  lemma {:induction false} EmptyNoteThenNote(host: Host, text: string)
    requires host.toUtf8("") == []
    requires |text| > 0 && text[0] != '/'
    ensures Parse(["copynotice", "/note", "", "/note", text], host) ==
            Ok(Defaults.(notice := host.toUtf8(text)))
  {
    var argv := ["copynotice", "/note", "", "/note", text];
    NameIds();
    assert ArgumentName(argv[1]) == "note" && ArgumentName(argv[3]) == "note";
    assert ApplyOption(Defaults, argv, 1, host) == Ok(Step(Defaults, 3));
    assert ApplyOption(Defaults, argv, 3, host) == Ok(Step(Defaults.(notice := host.toUtf8(text)), 5));
    assert ParseFrom(Defaults, argv, 1, host) == ParseFrom(Defaults, argv, 3, host);
  }

  /** /recurse given twice is refused. */
  lemma {:induction false} RecurseTwiceRefused(host: Host)
    ensures Parse(["copynotice", "/recurse", "/recurse"], host) == Err(AlreadySet)
  {
    var argv := ["copynotice", "/recurse", "/recurse"];
    assert Names(argv[1], "recurse") && Names(argv[2], "recurse");
    assert ApplyOption(Defaults, argv, 1, host) == Ok(Step(Defaults.(recurse := true), 2));
  }

  /** "/recursex" is taken for /recurse, since only seven characters are looked up. */
  lemma {:induction false} RecursexIsRecurse(host: Host)
    ensures Parse(["copynotice", "/recursex"], host) == Ok(Defaults.(recurse := true))
  {
    var argv := ["copynotice", "/recursex"];
    assert ArgumentName(argv[1]) == "recurse";
  }
}
