/**
 * The imperative core of copynotice (main.cpp): the console answers,
 * program::instance with its fields, init's argument loop and directory
 * merge, target_directories, execute, iterate and create_file.  Every method is
 * proved to compute the functions of Options, Discovery, Rewrite, Overwrite
 * and Run.
 */
module Program {
  import opened Common
  import opened ArgumentNames
  import opened Options
  import opened Discovery
  import opened Rewrite
  import opened Overwrite
  import opened Run

  /** program::console, reduced to what the user will still type, one line per read. */
  class Console {
    var input: seq<string>
    var lastRead: string

    constructor (lines: seq<string>)
      ensures input == lines && lastRead == ""
    {
      input := lines;
      lastRead := "";
    }

    /** console::read(): the next line typed becomes the last-read string. */
    method Read()
      requires input != []
      modifies this
      ensures lastRead == old(input)[0] && input == old(input)[1..]
    {
      lastRead := input[0];
      input := input[1..];
    }
  }

  /**
   * ask_yesno: read lines until one is yes or no.  The source asks forever;
   * here the loop ends when the typed lines run out, and None stands for the
   * program waiting at the prompt.
   */
  method AskYesNo(cons: Console) returns (answer: Option<bool>)
    modifies cons
    ensures Ask(old(cons.input)).None? <==> answer.None?
    ensures Ask(old(cons.input)).Some? ==>
              answer == Some(Ask(old(cons.input)).value.yes)
              && cons.input == old(cons.input)[Ask(old(cons.input)).value.consumed..]
  {
    ghost var typed := cons.input;
    ghost var read: nat := 0;
    while cons.input != []
      invariant read <= |typed| && cons.input == typed[read..]
      invariant Ask(typed) == match Ask(cons.input)
                              case None => None
                              case Some(r) => Some(Reply(r.yes, r.consumed + read))
      decreases |cons.input|
    {
      var line := cons.input;
      cons.Read();
      if cons.lastRead == "y" || cons.lastRead == "yes" {
        assert Classify(line[0]) == Yes;
        return Some(true);
      } else if cons.lastRead == "n" || cons.lastRead == "no" {
        assert Classify(line[0]) == No;
        return Some(false);
      }
      InvalidAskedAgain(line);
      read := read + 1;
      assert typed[read..] == cons.input;
    }
    return None;
  }

  /**
   * The open source file: wdul::freadline hands out its lines, wdul::fread
   * the bytes after the last line read.
   */
  class SourceReader {
    const file: SourceFile
    var next: nat   // lines returned so far
    var rest: Bytes // what fread returns from here on

    constructor (f: SourceFile)
      ensures file == f && next == 0 && rest == Content(f)
    {
      file := f;
      next := 0;
      rest := Content(f);
    }

    /** Lines are still read one at a time: nothing has been taken by fread yet. */
    predicate LineMode()
      reads this
    {
      next <= |file.lines| && rest == Unread(file, next)
    }

    /** freadline: the next line, or false with the line buffer and the remainder the reader leaves at the end. */
    method ReadLine() returns (ok: bool, line: Bytes)
      requires LineMode()
      modifies this
      ensures ok <==> old(next) < |file.lines|
      ensures ok ==> line == file.lines[old(next)] && next == old(next) + 1 && LineMode()
      ensures !ok ==> line == file.endLine && rest == file.endRest && next == old(next)
    {
      if next < |file.lines| {
        ok, line := true, file.lines[next];
        next := next + 1;
        rest := Unread(file, next);
      } else {
        ok, line := false, file.endLine;
        rest := file.endRest;
      }
    }

    /** fread into a buffer of `size` bytes: as many of the remaining bytes as fit. */
    method Read(size: nat) returns (chunk: Bytes)
      requires size > 0
      modifies this
      ensures old(rest) == chunk + rest
      ensures |chunk| == if |old(rest)| < size then |old(rest)| else size
    {
      var n := if |rest| < size then |rest| else size;
      chunk := rest[..n];
      rest := rest[n..];
    }
  }

  /** An open destination file: what has been written to it so far. */
  class OutFile {
    var data: Bytes

    constructor ()
      ensures data == []
    {
      data := [];
    }

    /** wdul::fwrite: the bytes are appended to the file. */
    method Write(bytes: Bytes)
      modifies this
      ensures data == old(data) + bytes
    {
      data := data + bytes;
    }
  }

  /** The destination side of the file system: the files by path. */
  class Disk {
    var files: map<string, Bytes>

    constructor (initial: map<string, Bytes>)
      ensures files == initial
    {
      files := initial;
    }

    /** wdul::fexists. */
    method Exists(path: string) returns (b: bool)
      ensures b <==> path in files
    {
      b := path in files;
    }

    /** fopen with create_always: the file exists and is empty, and is open for writing. */
    method Create(path: string) returns (out: OutFile)
      modifies this
      ensures fresh(out) && out.data == []
      ensures files == old(files)[path := []]
    {
      out := new OutFile();
      files := files[path := []];
    }

    /** fclose: the file holds what was written to it. */
    method Close(path: string, out: OutFile)
      modifies this
      ensures files == old(files)[path := out.data]
    {
      files := files[path := out.data];
    }
  }

  /** program::instance: the settings init fills in, the overwrite latch, and the console. */
  class Instance {
    var recurse: bool
    var verbose: bool
    var replace: bool
    const commentPrefix: array<byte>  // 16 bytes, NUL-terminated
    var directories: seq<DirectoryArgument>
    var extensions: seq<string>
    var notice: Bytes
    var alwaysOverwrite: bool
    const cons: Console

    /** The prefix buffer keeps its size and a terminating NUL. */
    predicate Valid()
      reads commentPrefix
    {
      commentPrefix.Length == PrefixCapacity && 0 in commentPrefix[..]
    }

    /** The fields init fills in. */
    function Current(): Settings
      reads this, commentPrefix
    {
      Settings(recurse, verbose, replace, commentPrefix[..], directories, extensions, notice)
    }

    /** The comment prefix as strlen and starts_with see it. */
    function Prefix(): Bytes
      reads commentPrefix
    {
      CString(commentPrefix[..])
    }

    /** What create_file reads of the settings. */
    function Config(): Run.Config
      reads this`notice, this`replace, commentPrefix
    {
      Run.Config(Prefix(), notice, replace)
    }

    /** The state create_file changes. */
    function State(disk: Disk): RunState
      reads this`alwaysOverwrite, cons`input, disk`files
    {
      RunState(alwaysOverwrite, cons.input, disk.files)
    }

    /** The instance as wmain constructs it, before init. */
    constructor (console: Console)
      ensures Valid() && Current() == Defaults && !alwaysOverwrite && cons == console
      ensures fresh(commentPrefix)
    {
      recurse, verbose, replace := false, false, false;
      commentPrefix := new byte[16] [47, 47, 32, 0, 0, 0, 0, 0, 0, 0, 0, 0, 0, 0, 0, 0];
      directories, extensions, notice := [], [], [];
      alwaysOverwrite := false;
      cons := console;
      new;
      assert commentPrefix[..] == DefaultPrefixBuffer;
    }

    /** The state after one option agrees with ApplyOption; on an error only the error is stated. */
    predicate Applied(r: Result<Step>, res: Result<nat>)
      reads this, commentPrefix
    {
      match r
      case Ok(step) => res == Ok(step.next) && Current() == step.settings
      case Err(e) => res == Err(e)
    }

    // -------------------------------------------------------------------------
    // init: the argument loop

    /** case dir: the entry is added before its subarguments are checked. */
    method ApplyDirectory(argv: seq<string>, j: nat) returns (res: Result<nat>)
      requires Valid() && 2 <= j <= |argv|
      modifies this
      ensures Valid()
      ensures Applied(DirOption(old(Current()), argv, j), res)
    {
      if Missing(argv, j) {
        return Err(MissingSubargument);
      }
      var src := argv[j];
      directories := directories + [DirectoryArgument(src, "")];
      if EndsWithSlash(src) {
        return Err(TrailingSlash);
      }
      if Missing(argv, j + 1) {
        return Err(MissingSubargument);
      }
      var dst := argv[j + 1];
      directories := directories[..|directories| - 1] + [DirectoryArgument(src, dst)];
      assert directories == old(directories) + [DirectoryArgument(src, dst)];
      if dst == "" {
        return Err(EmptyDestination);
      }
      if EndsWithSlash(dst) {
        return Err(TrailingSlash);
      }
      if ContainsAnyOf(src, PathIllegal) {
        return Err(IllegalCharacter);
      }
      if ContainsAnyOf(dst, PathIllegal) {
        return Err(IllegalCharacter);
      }
      return Ok(j + 2);
    }

    /** case ext: the length is checked first, the characters after the extension is added. */
    method ApplyExtension(argv: seq<string>, j: nat) returns (res: Result<nat>)
      requires Valid() && 2 <= j <= |argv|
      modifies this
      ensures Valid()
      ensures Applied(ExtOption(old(Current()), argv, j), res)
    {
      if Missing(argv, j) {
        return Err(MissingSubargument);
      }
      var extensionLen := |argv[j]|;
      if extensionLen > MaxExtensionLength {
        return Err(ExtensionTooLong);
      }
      if extensionLen == 0 {
        return Err(ExtensionBlank);
      }
      extensions := extensions + [argv[j]];
      if ContainsAnyOf(argv[j], ExtensionIllegal) {
        return Err(IllegalCharacter);
      }
      return Ok(j + 1);
    }

    /** case note and case notef: refused once a non-empty notice is stored. */
    method ApplyNotice(argv: seq<string>, j: nat, fromFile: bool, host: Host) returns (res: Result<nat>)
      requires Valid() && 2 <= j <= |argv|
      modifies this
      ensures Valid()
      ensures Applied(NoteOption(old(Current()), argv, j, fromFile, host), res)
    {
      if Missing(argv, j) {
        return Err(MissingSubargument);
      }
      if notice != [] {
        return Err(NoticeAlreadySupplied);
      }
      if fromFile {
        notice := host.readFile(argv[j]);
      } else {
        notice := host.toUtf8(argv[j]);
      }
      return Ok(j + 1);
    }

    /** case syntax: the converted prefix and its NUL are copied to the start of the buffer. */
    method ApplySyntax(argv: seq<string>, j: nat, host: Host) returns (res: Result<nat>)
      requires Valid() && 2 <= j <= |argv|
      modifies commentPrefix
      ensures Valid()
      ensures Applied(SyntaxOption(old(Current()), argv, j, host), res)
    {
      if Missing(argv, j) {
        return Err(MissingSubargument);
      }
      var subargument := host.toUtf8(argv[j]);
      var maxCommentLength := commentPrefix.Length - 1;
      if |subargument| > maxCommentLength {
        return Err(SyntaxTooLong);
      }
      if subargument == [] {
        return Err(SyntaxBlank);
      }
      forall k | 0 <= k < |subargument| {
        commentPrefix[k] := subargument[k];
      }
      commentPrefix[|subargument|] := 0;
      assert commentPrefix[..] == CopyTerminated(old(commentPrefix[..]), subargument);
      return Ok(j + 1);
    }

    /** One pass of init's argIdx loop: the name lookup and the switch on its id. */
    method ApplyArgument(argv: seq<string>, argIdx: nat, host: Host) returns (res: Result<nat>)
      requires Valid() && 1 <= argIdx < |argv|
      modifies this, commentPrefix
      ensures Valid()
      ensures Applied(ApplyOption(old(Current()), argv, argIdx, host), res)
    {
      var arg := argv[argIdx];
      if |arg| == 0 || arg[0] != '/' {
        return Err(ExpectedArgumentName);
      }
      ghost var o := Current();
      var capacity := MaxArgumentNameLength();
      var argName := CopyArgumentName(arg, capacity);
      assert argName == ArgumentName(arg);
      var id := FindArgumentNameId(argName);
      assert ApplyOption(o, argv, argIdx, host) == Dispatch(o, argv, argIdx, id, host);
      res := Switch(argv, argIdx, id, host);
    }

    /** The switch on the argument name's id. */
    method Switch(argv: seq<string>, argIdx: nat, id: nat, host: Host) returns (res: Result<nat>)
      requires Valid() && 1 <= argIdx < |argv|
      modifies this, commentPrefix
      ensures Valid()
      ensures Applied(Dispatch(old(Current()), argv, argIdx, id, host), res)
    {
      if id == 0 {
        res := Err(UnknownArgument);
      } else if id == DirId {
        res := ApplyDirectory(argv, argIdx + 1);
      } else if id == ExtId {
        res := ApplyExtension(argv, argIdx + 1);
      } else if id == NoteId {
        res := ApplyNotice(argv, argIdx + 1, false, host);
      } else if id == NotefId {
        res := ApplyNotice(argv, argIdx + 1, true, host);
      } else if id == SyntaxId {
        res := ApplySyntax(argv, argIdx + 1, host);
      } else if id == RecurseId || id == VerboseId || id == ReplaceId {
        res := SetFlag(argv, argIdx, id, host);
      } else {
        res := Err(NotImplemented);
      }
    }

    /** The flag options: /recurse, /verbose and /replace may each be given once. */
    method SetFlag(argv: seq<string>, argIdx: nat, id: nat, host: Host) returns (res: Result<nat>)
      requires Valid() && 1 <= argIdx < |argv|
      requires id == RecurseId || id == VerboseId || id == ReplaceId
      modifies this`recurse, this`verbose, this`replace
      ensures Valid()
      ensures Applied(Dispatch(old(Current()), argv, argIdx, id, host), res)
    {
      if id == RecurseId {
        if recurse {
          res := Err(AlreadySet);
        } else {
          recurse := true;
          res := Ok(argIdx + 1);
        }
      } else if id == VerboseId {
        if verbose {
          res := Err(AlreadySet);
        } else {
          verbose := true;
          res := Ok(argIdx + 1);
        }
      } else {
        if replace {
          res := Err(AlreadySet);
        } else {
          replace := true;
          res := Ok(argIdx + 1);
        }
      }
    }

    /** init's argument loop over a fresh instance: it succeeds exactly when Parse does, with its settings. */
    method ParseArguments(argv: seq<string>, host: Host) returns (ok: bool)
      requires Valid() && Current() == Defaults
      modifies this, commentPrefix
      ensures Valid()
      ensures ok <==> Parse(argv, host).Ok?
      ensures ok ==> Current() == Parse(argv, host).value
    {
      if |argv| < 2 {
        return false;
      }
      var argIdx := 1;
      while argIdx < |argv|
        invariant Valid() && 1 <= argIdx <= |argv|
        invariant ParseFrom(Current(), argv, argIdx, host) == Parse(argv, host)
        decreases |argv| - argIdx
      {
        var res := ApplyArgument(argv, argIdx, host);
        if res.Err? {
          return false;
        }
        argIdx := res.value;
      }
      return true;
    }

    // -------------------------------------------------------------------------
    // init: discovery and the merge

    /**
     * target_directories for directory d whose listing is es: without /recurse
     * nothing; otherwise each subdirectory entered is appended to
     * newDirectories, followed at once by what lies below it.
     */
    method TargetDirectories(d: DirectoryArgument, es: seq<Entry>, newDirectories: seq<DirectoryArgument>)
      returns (found: seq<DirectoryArgument>)
      ensures found == newDirectories + Targets(recurse, d, es)
      decreases es
    {
      found := newDirectories;
      if !recurse {
        return;
      }
      var i := 0;
      while i < |es|
        invariant i <= |es|
        invariant found == newDirectories + Discover(d, es[..i])
      {
        var findData := es[i];
        DiscoverNext(d, es, i);
        if !findData.isDir {
          // Skip non-directories.
        } else if findData.isHidden {
          // Skip hidden directories.
        } else if IsDotEntry(findData.name) {
          // Skip the current and parent directories.
        } else {
          // The child's source path is joined with a backslash unless d.src is empty.
          var newDirectory := ChildOf(d, findData.name);
          found := found + [newDirectory];
          found := TargetDirectories(newDirectory, findData.children, found);
        }
        i := i + 1;
      }
      assert es[..|es|] == es;
    }

    /** The loop over mDirectories that collects what target_directories finds below each. */
    method DiscoverDirectories(find: string -> seq<Entry>) returns (newDirectories: seq<DirectoryArgument>)
      ensures newDirectories == DiscoverAll(recurse, directories, find)
    {
      newDirectories := [];
      var i := 0;
      while i < |directories|
        invariant i <= |directories|
        invariant newDirectories == DiscoverAll(recurse, directories[..i], find)
      {
        var dir := directories[i];
        newDirectories := TargetDirectories(dir, find(SearchString(dir)), newDirectories);
        DiscoverAllAppend(recurse, directories[..i], dir, find);
        assert directories[..i + 1] == directories[..i] + [dir];
        i := i + 1;
      }
      assert directories[..|directories|] == directories;
    }

    /** The merge loop: each discovered mapping is appended unless its src is already targeted. */
    method MergeDirectories(newDirectories: seq<DirectoryArgument>)
      modifies this`directories
      ensures directories == MergeAll(old(directories), newDirectories)
    {
      var i := 0;
      while i < |newDirectories|
        invariant i <= |newDirectories|
        invariant MergeAll(directories, newDirectories[i..]) == MergeAll(old(directories), newDirectories)
      {
        var newDirectoryArg := newDirectories[i];
        var alreadyTargeted := false;
        var j := 0;
        while j < |directories|
          invariant j <= |directories|
          invariant alreadyTargeted <==> exists k :: 0 <= k < j && directories[k].src == newDirectoryArg.src
        {
          if directories[j].src == newDirectoryArg.src {
            alreadyTargeted := true;
          }
          j := j + 1;
        }
        assert alreadyTargeted == SourceIn(newDirectoryArg.src, directories);
        ghost var merged := MergeOne(directories, newDirectoryArg);
        assert newDirectories[i..][1..] == newDirectories[i + 1..];
        assert MergeAll(directories, newDirectories[i..]) == MergeAll(merged, newDirectories[i + 1..]);
        if !alreadyTargeted {
          directories := directories + [newDirectoryArg];
        }
        assert directories == merged;
        i := i + 1;
      }
    }

    /**
     * init on a fresh instance: the argument loop, then discovery and the
     * merge.  It succeeds exactly when the command line parses, and then
     * mDirectories holds the configured directories followed by the new
     * subdirectories.
     */
    method Init(argv: seq<string>, host: Host, find: string -> seq<Entry>) returns (ok: bool)
      requires Valid() && Current() == Defaults
      modifies this, commentPrefix
      ensures Valid()
      ensures ok <==> Parse(argv, host).Ok?
      ensures ok ==> var o := Parse(argv, host).value;
                     Current() == o.(directories := TargetedDirectories(o.recurse, o.directories, find))
    {
      ok := ParseArguments(argv, host);
      if !ok {
        return;
      }
      var newDirectories := DiscoverDirectories(find);
      MergeDirectories(newDirectories);
    }

    // -------------------------------------------------------------------------
    // create_file and iterate

    /**
     * The overwrite check at main.cpp:646-662: with the latch clear, an
     * existing destination is only overwritten after a yes, which sets the
     * latch.  None: the program waits at the prompt.
     */
    method ConfirmOverwrite(dstPath: string, disk: Disk) returns (proceed: Option<bool>)
      modifies this`alwaysOverwrite, cons
      ensures match Check(old(alwaysOverwrite), dstPath in disk.files, old(cons.input))
              case Waits => proceed == None
              case Refuse(n) => proceed == Some(false) && alwaysOverwrite == old(alwaysOverwrite)
                                && n <= |old(cons.input)| && cons.input == old(cons.input)[n..]
              case Proceed(latch, n) => proceed == Some(true) && alwaysOverwrite == latch
                                        && n <= |old(cons.input)| && cons.input == old(cons.input)[n..]
    {
      if !alwaysOverwrite {
        var present := disk.Exists(dstPath);
        if present {
          var yes := AskYesNo(cons);
          if yes.None? {
            return None;
          }
          if yes.value {
            alwaysOverwrite := true;
          } else {
            return Some(false);
          }
        }
      }
      return Some(true);
    }

    /**
     * The replace loop: after a first line that is a comment, with /replace,
     * lines are read until one is not a comment; the line kept and what is
     * left to copy are Retain's.
     */
    static method SkipComments(srcFile: SourceReader, first: Bytes, prefix: Bytes, replace: bool)
      returns (firstCodeLine: Bytes)
      requires |srcFile.file.lines| > 0 && srcFile.next == 1 && srcFile.LineMode()
      requires first == srcFile.file.lines[0]
      modifies srcFile
      ensures (firstCodeLine, srcFile.rest) == Retain(srcFile.file, prefix, replace)
    {
      ghost var lines := srcFile.file.lines;
      firstCodeLine := first;
      if StartsWith(firstCodeLine, prefix) {
        if replace {
          var more := true;
          while more
            invariant 1 <= srcFile.next <= |lines|
            invariant forall k :: 1 <= k < srcFile.next ==> StartsWith(lines[k], prefix)
            invariant more ==> srcFile.LineMode()
            invariant !more ==> firstCodeLine == srcFile.file.endLine && srcFile.rest == srcFile.file.endRest
                                && srcFile.next == |lines|
            decreases |lines| - srcFile.next + (if more then 1 else 0)
          {
            more, firstCodeLine := srcFile.ReadLine();
            if more && !StartsWith(firstCodeLine, prefix) {
              FirstNonCommentIs(lines, prefix, 1, srcFile.next - 1);
              break;
            }
          }
        }
      }
    }

    /** One comment line of the notice: fwrite of the prefix, the piece and CRLF. */
    static method WriteCommentLine(out: OutFile, prefix: Bytes, piece: Bytes)
      modifies out
      ensures out.data == old(out.data) + (prefix + piece + CRLF)
    {
      out.Write(prefix);
      out.Write(piece);
      out.Write(CRLF);
      assert old(out.data) + prefix + piece + CRLF == old(out.data) + (prefix + piece + CRLF);
    }

    /**
     * The notice loop: for each piece of the notice up to the next CRLF, the
     * prefix, the piece and CRLF are written; the offset moves past the CRLF
     * until the last piece has been written.
     */
    static method WriteNotice(out: OutFile, prefix: Bytes, notice: Bytes)
      modifies out
      ensures out.data == old(out.data) + NoticeBlock(prefix, notice)
    {
      var noticeOffset := 0;
      ghost var base := out.data;
      ghost var written: Bytes := [];
      ghost var block := NoticeBlock(prefix, notice);
      assert base + written == base;
      assert notice[0..] == notice;
      while true
        invariant noticeOffset <= |notice|
        invariant out.data == base + written
        invariant written + NoticeBlock(prefix, notice[noticeOffset..]) == block
        decreases |notice| - noticeOffset
      {
        var commentEndPos := FindCrlf(notice, noticeOffset);
        NoticeAdvance(prefix, notice, noticeOffset, written, block);
        ghost var line := prefix + notice[noticeOffset..commentEndPos] + CRLF;
        WriteCommentLine(out, prefix, notice[noticeOffset..commentEndPos]);
        AppendAssoc(base, written, line);
        written := written + line;
        if commentEndPos == |notice| {
          break;
        }
        noticeOffset := commentEndPos + 2;
      }
    }

    /** The copy loop: fread into the 64-byte buffer and fwrite until fread returns nothing. */
    static method CopyRest(srcFile: SourceReader, out: OutFile)
      modifies srcFile, out
      ensures out.data == old(out.data) + old(srcFile.rest)
    {
      ghost var copied: Bytes := [];
      assert out.data + copied == out.data;
      while true
        invariant out.data == old(out.data) + copied
        invariant copied + srcFile.rest == old(srcFile.rest)
        decreases |srcFile.rest|
      {
        var readBuffer := srcFile.Read(64);
        if |readBuffer| == 0 {
          assert srcFile.rest == [] && copied == old(srcFile.rest);
          break;
        }
        out.Write(readBuffer);
        assert old(out.data) + copied + readBuffer == old(out.data) + (copied + readBuffer);
        copied := copied + readBuffer;
      }
    }

    /**
     * create_file: opens the source, asks before overwriting, creates the
     * destination and writes the notice, the kept line and the rest of the
     * source.  The result and the new state are CreateOutcome's.
     */
    method CreateFile(d: DirectoryArgument, fname: string, sources: string -> SourceFile, disk: Disk)
      returns (created: Option<bool>)
      requires Valid()
      modifies this`alwaysOverwrite, cons, disk
      ensures var out := CreateOutcome(old(State(disk)), Config(), d, fname, sources(SourcePath(d, fname)));
              && (created.None? <==> out.None?)
              && (out.Some? ==> created == Some(out.value.created) && State(disk) == out.value.state)
    {
      var srcPath := d.src;
      if srcPath != "" {
        srcPath := srcPath + "\\";
      }
      srcPath := srcPath + fname;
      var dstPath := d.dst + "\\" + fname;
      assert srcPath == SourcePath(d, fname) && dstPath == DestinationPath(d, fname);
      ghost var st := State(disk);
      ghost var gate := Check(st.latch, dstPath in st.files, st.input);
      var proceed := ConfirmOverwrite(dstPath, disk);
      if proceed.None? {
        assert gate.Waits?;
        return None;
      }
      if !proceed.value {
        assert gate.Refuse? && State(disk) == st.(input := st.input[gate.consumed..]);
        return Some(false);
      }
      assert gate.Proceed?;
      ghost var mid := State(disk);
      assert mid == RunState(gate.latch, st.input[gate.consumed..], st.files);
      WriteFile(sources(srcPath), disk, dstPath);
      assert State(disk) == mid.(files := st.files[dstPath := Rewritten(sources(srcPath), Prefix(), notice, replace)]);
      return Some(true);
    }

    /** Opens the source, creates the destination, writes it and closes both. */
    method WriteFile(src: SourceFile, disk: Disk, dstPath: string)
      requires Valid()
      modifies disk
      ensures disk.files == old(disk.files)[dstPath := Rewritten(src, Prefix(), notice, replace)]
    {
      var srcFile := new SourceReader(src);
      var dstFile := disk.Create(dstPath);
      WriteDestination(srcFile, dstFile, Prefix(), notice, replace);
      disk.Close(dstPath, dstFile);
    }

    /**
     * The writing half of create_file on a new, empty destination: nothing for
     * an empty source, else the notice, the kept line, CRLF and the rest.
     */
    static method WriteDestination(srcFile: SourceReader, out: OutFile, prefix: Bytes, notice: Bytes, replace: bool)
      requires srcFile.next == 0 && srcFile.LineMode()
      requires out.data == []
      modifies srcFile, out
      ensures out.data == Rewritten(srcFile.file, prefix, notice, replace)
    {
      var ok, firstCodeLine := srcFile.ReadLine();
      if !ok {
        // The source file is empty: the destination stays empty.
        return;
      }
      firstCodeLine := SkipComments(srcFile, firstCodeLine, prefix, replace);
      ghost var rest := srcFile.rest;
      WriteNotice(out, prefix, notice);
      out.Write(firstCodeLine);
      out.Write(CRLF);
      CopyRest(srcFile, out);
      RewrittenAfterRetain(srcFile.file, prefix, notice, replace, firstCodeLine, rest);
      assert [] + NoticeBlock(prefix, notice) + firstCodeLine + CRLF + rest
          == NoticeBlock(prefix, notice) + firstCodeLine + CRLF + rest;
    }

    /**
     * iterate: create_file for every entry of src matching *.extension that is
     * neither hidden nor a directory, counting the files created.  The count
     * and the new state are IterateOutcome's.
     */
    method Iterate(d: DirectoryArgument, extension: string, find: string -> seq<Entry>,
                   sources: string -> SourceFile, disk: Disk)
      returns (filesCreated: Option<nat>)
      requires Valid()
      modifies this`alwaysOverwrite, cons, disk
      ensures Reports(IterateOutcome(old(State(disk)), Config(), d, find(FilePattern(d, extension)), sources),
                      filesCreated, State(disk))
    {
      var targetFilename := d.src;
      if d.src != "" {
        targetFilename := targetFilename + "\\";
      }
      targetFilename := targetFilename + "*." + extension;
      var listing := find(targetFilename);
      assert targetFilename == FilePattern(d, extension);
      ghost var cfg := Config();
      ghost var start := State(disk);
      var count := 0;
      var i := 0;
      while i < |listing|
        invariant i <= |listing|
        invariant IterateOutcome(start, cfg, d, listing, sources) ==
                  Plus(count, IterateOutcome(State(disk), cfg, d, listing[i..], sources))
      {
        var findData := listing[i];
        assert listing[i..][1..] == listing[i + 1..];
        PlusStep(count, State(disk), cfg, d, listing[i..], sources);
        if findData.isHidden {
        } else if findData.isDir {
        } else {
          var c := CreateFile(d, findData.name, sources, disk);
          if c.None? {
            return None;
          }
          if c.value {
            count := count + 1;
          }
        }
        i := i + 1;
      }
      return Some(count);
    }

    /** The inner loop of execute: directory d with every extension. */
    method ExecuteDirectory(d: DirectoryArgument, find: string -> seq<Entry>, sources: string -> SourceFile, disk: Disk)
      returns (filesCreated: Option<nat>)
      requires Valid()
      modifies this`alwaysOverwrite, cons, disk
      ensures Reports(RunJobs(old(State(disk)), Config(), Pairs(d, extensions), find, sources), filesCreated, State(disk))
    {
      ghost var cfg := Config();
      var exts := extensions;
      ghost var total := RunJobs(State(disk), cfg, Pairs(d, exts), find, sources);
      assert total == Plus(0, total) by {
        match total
        case None =>
        case Some(it) =>
      }
      assert exts[0..] == exts;
      var count := 0;
      var j := 0;
      while j < |exts|
        invariant j <= |exts|
        invariant Config() == cfg && extensions == exts
        invariant Pending(total, count, State(disk), cfg, Pairs(d, exts[j..]), find, sources)
      {
        ghost var st := State(disk);
        PairsFrom(d, exts, j);
        var n := Iterate(d, exts[j], find, sources, disk);
        ghost var st' := State(disk);
        ghost var rest := Pairs(d, exts[j + 1..]);
        RunJobsStep(total, count, st, cfg, d, exts[j], rest, find, sources, n, st');
        if n.None? {
          return None;
        }
        ghost var next := count + n.value;
        count := count + n.value;
        j := j + 1;
        assert rest == Pairs(d, exts[j..]) && next == count;
      }
      assert exts[j..] == [];
      return Some(count);
    }

    /**
     * execute: iterate for every targeted directory and, within it, every
     * extension in the configured order, adding up the files created.
     */
    method Execute(find: string -> seq<Entry>, sources: string -> SourceFile, disk: Disk)
      returns (filesCreated: Option<nat>)
      requires Valid()
      modifies this`alwaysOverwrite, cons, disk
      ensures Reports(RunJobs(old(State(disk)), Config(), Jobs(directories, extensions), find, sources),
                      filesCreated, State(disk))
    {
      ghost var cfg := Config();
      var ds := directories;
      ghost var total := RunJobs(State(disk), cfg, Jobs(ds, extensions), find, sources);
      assert total == Plus(0, total) by {
        match total
        case None =>
        case Some(it) =>
      }
      assert ds[0..] == ds;
      var count := 0;
      var i := 0;
      while i < |ds|
        invariant i <= |ds|
        invariant Config() == cfg && directories == ds
        invariant Pending(total, count, State(disk), cfg, Jobs(ds[i..], extensions), find, sources)
      {
        ghost var st := State(disk);
        JobsFrom(ds, extensions, i);
        var n := ExecuteDirectory(ds[i], find, sources, disk);
        ghost var st' := State(disk);
        ghost var rest := Jobs(ds[i + 1..], extensions);
        RunDirectoryStep(total, count, st, cfg, Pairs(ds[i], extensions), rest, find, sources, n, st');
        if n.None? {
          return None;
        }
        ghost var next := count + n.value;
        count := count + n.value;
        i := i + 1;
        assert rest == Jobs(ds[i..], extensions) && next == count;
      }
      assert ds[i..] == [];
      return Some(count);
    }
  }
}
