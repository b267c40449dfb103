/**
 * The state of winbase::File (winlib/winbase/files/file.cc): the platform
 * handle it owns, the path recorded for tracing, the last error and the
 * created / async bits, as its constructors, move operations and
 * Initialize set them; and the total mapping ErrorToString from the
 * File::Error enumerators to their names.
 *
 * The platform calls behind the handle (DoInitialize, FileTracing) are
 * not part of this model: what they answer is passed in as a parameter.
 */
module Files {
  import opened Wrappers

  /** The File::Error enumerators, FILE_OK through FILE_ERROR_MAX. */
  datatype Error =
    | FileOk
    | FileErrorFailed
    | FileErrorInUse
    | FileErrorExists
    | FileErrorNotFound
    | FileErrorAccessDenied
    | FileErrorTooManyOpened
    | FileErrorNoMemory
    | FileErrorNoSpace
    | FileErrorNotADirectory
    | FileErrorInvalidOperation
    | FileErrorSecurity
    | FileErrorAbort
    | FileErrorNotAFile
    | FileErrorNotEmpty
    | FileErrorInvalidUrl
    | FileErrorIo
    | FileErrorMax

  /**
   * ErrorToString: the enumerator's own name; FILE_ERROR_MAX, which names
   * no error, falls through to the empty string.
   */
  function ErrorToString(error: Error): (name: string)
    ensures name == "" <==> error == FileErrorMax
    ensures name != "" ==> |name| > 5 && name[..5] == "FILE_"
  {
    match error
    case FileOk => "FILE_OK"
    case FileErrorFailed => "FILE_ERROR_FAILED"
    case FileErrorInUse => "FILE_ERROR_IN_USE"
    case FileErrorExists => "FILE_ERROR_EXISTS"
    case FileErrorNotFound => "FILE_ERROR_NOT_FOUND"
    case FileErrorAccessDenied => "FILE_ERROR_ACCESS_DENIED"
    case FileErrorTooManyOpened => "FILE_ERROR_TOO_MANY_OPENED"
    case FileErrorNoMemory => "FILE_ERROR_NO_MEMORY"
    case FileErrorNoSpace => "FILE_ERROR_NO_SPACE"
    case FileErrorNotADirectory => "FILE_ERROR_NOT_A_DIRECTORY"
    case FileErrorInvalidOperation => "FILE_ERROR_INVALID_OPERATION"
    case FileErrorSecurity => "FILE_ERROR_SECURITY"
    case FileErrorAbort => "FILE_ERROR_ABORT"
    case FileErrorNotAFile => "FILE_ERROR_NOT_A_FILE"
    case FileErrorNotEmpty => "FILE_ERROR_NOT_EMPTY"
    case FileErrorInvalidUrl => "FILE_ERROR_INVALID_URL"
    case FileErrorIo => "FILE_ERROR_IO"
    case FileErrorMax => ""
  }

  /** The enumerator a name belongs to, if any: the reading direction of ErrorToString. */
  function ErrorNamed(name: string): (error: Option<Error>)
    ensures error.Some? ==> error.value != FileErrorMax
  {
    match name
    case "FILE_OK" => Some(FileOk)
    case "FILE_ERROR_FAILED" => Some(FileErrorFailed)
    case "FILE_ERROR_IN_USE" => Some(FileErrorInUse)
    case "FILE_ERROR_EXISTS" => Some(FileErrorExists)
    case "FILE_ERROR_NOT_FOUND" => Some(FileErrorNotFound)
    case "FILE_ERROR_ACCESS_DENIED" => Some(FileErrorAccessDenied)
    case "FILE_ERROR_TOO_MANY_OPENED" => Some(FileErrorTooManyOpened)
    case "FILE_ERROR_NO_MEMORY" => Some(FileErrorNoMemory)
    case "FILE_ERROR_NO_SPACE" => Some(FileErrorNoSpace)
    case "FILE_ERROR_NOT_A_DIRECTORY" => Some(FileErrorNotADirectory)
    case "FILE_ERROR_INVALID_OPERATION" => Some(FileErrorInvalidOperation)
    case "FILE_ERROR_SECURITY" => Some(FileErrorSecurity)
    case "FILE_ERROR_ABORT" => Some(FileErrorAbort)
    case "FILE_ERROR_NOT_A_FILE" => Some(FileErrorNotAFile)
    case "FILE_ERROR_NOT_EMPTY" => Some(FileErrorNotEmpty)
    case "FILE_ERROR_INVALID_URL" => Some(FileErrorInvalidUrl)
    case "FILE_ERROR_IO" => Some(FileErrorIo)
    case _ => None
  }

  /** Every error but FILE_ERROR_MAX is recovered from its name, and no name is read back as FILE_ERROR_MAX. */
  lemma ErrorNameRoundTrip(error: Error)
    ensures ErrorNamed(ErrorToString(error)) == if error == FileErrorMax then None else Some(error)
  {
    match error
    case FileOk => assert ErrorNamed("FILE_OK") == Some(FileOk);
    case FileErrorFailed => assert ErrorNamed("FILE_ERROR_FAILED") == Some(FileErrorFailed);
    case FileErrorInUse => assert ErrorNamed("FILE_ERROR_IN_USE") == Some(FileErrorInUse);
    case FileErrorExists => assert ErrorNamed("FILE_ERROR_EXISTS") == Some(FileErrorExists);
    case FileErrorNotFound => assert ErrorNamed("FILE_ERROR_NOT_FOUND") == Some(FileErrorNotFound);
    case FileErrorAccessDenied => assert ErrorNamed("FILE_ERROR_ACCESS_DENIED") == Some(FileErrorAccessDenied);
    case FileErrorTooManyOpened => assert ErrorNamed("FILE_ERROR_TOO_MANY_OPENED") == Some(FileErrorTooManyOpened);
    case FileErrorNoMemory => assert ErrorNamed("FILE_ERROR_NO_MEMORY") == Some(FileErrorNoMemory);
    case FileErrorNoSpace => assert ErrorNamed("FILE_ERROR_NO_SPACE") == Some(FileErrorNoSpace);
    case FileErrorNotADirectory => assert ErrorNamed("FILE_ERROR_NOT_A_DIRECTORY") == Some(FileErrorNotADirectory);
    case FileErrorInvalidOperation => assert ErrorNamed("FILE_ERROR_INVALID_OPERATION") == Some(FileErrorInvalidOperation);
    case FileErrorSecurity => assert ErrorNamed("FILE_ERROR_SECURITY") == Some(FileErrorSecurity);
    case FileErrorAbort => assert ErrorNamed("FILE_ERROR_ABORT") == Some(FileErrorAbort);
    case FileErrorNotAFile => assert ErrorNamed("FILE_ERROR_NOT_A_FILE") == Some(FileErrorNotAFile);
    case FileErrorNotEmpty => assert ErrorNamed("FILE_ERROR_NOT_EMPTY") == Some(FileErrorNotEmpty);
    case FileErrorInvalidUrl => assert ErrorNamed("FILE_ERROR_INVALID_URL") == Some(FileErrorInvalidUrl);
    case FileErrorIo => assert ErrorNamed("FILE_ERROR_IO") == Some(FileErrorIo);
    case FileErrorMax =>
  }

  /** ErrorToString gives pairwise distinct names to the errors it names. */
  lemma ErrorNamesDistinct(e1: Error, e2: Error)
    requires e1 != FileErrorMax && e2 != FileErrorMax
    ensures ErrorToString(e1) == ErrorToString(e2) <==> e1 == e2
  {
    ErrorNameRoundTrip(e1);
    ErrorNameRoundTrip(e2);
  }

  // ---------------------------------------------------------------------
  // Paths

  /** A FilePath, as the characters of its value. */
  type Path = string

  /** The two separators of a Windows path. */
  predicate IsSeparator(c: char)
  {
    c == '\\' || c == '/'
  }

  /** A ".." component starts at position i: two dots bounded by separators or the ends. */
  predicate ParentAt(path: Path, i: int)
  {
    0 <= i && i + 2 <= |path| && path[i] == '.' && path[i + 1] == '.' &&
    (i == 0 || IsSeparator(path[i - 1])) && (i + 2 == |path| || IsSeparator(path[i + 2]))
  }

  /** FilePath::ReferencesParent: some component of the path is exactly "..". */
  predicate ReferencesParent(path: Path)
    ensures ReferencesParent(path) ==> |path| >= 2 && '.' in path
  {
    exists i :: 0 <= i < |path| && ParentAt(path, i)
  }

  /** A path with a ".." component, alone, last or between two others, references the parent. */
  lemma ParentComponentIsReferenced(a: Path, b: Path)
    ensures ReferencesParent("..")
    ensures ReferencesParent(a + "\\..")
    ensures ReferencesParent(a + "\\..\\" + b)
  {
    assert ParentAt("..", 0);
    var q := a + "\\..";
    assert ParentAt(q, |a| + 1);
    var p := a + "\\..\\" + b;
    assert p[|a| + 1] == '.' && p[|a| + 2] == '.' && IsSeparator(p[|a|]) && IsSeparator(p[|a| + 3]);
    assert ParentAt(p, |a| + 1);
  }

  // ---------------------------------------------------------------------
  // File::Info

  /** File::Info: what GetInfo reports about a file. */
  class Info {
    var size: int
    var isDirectory: bool
    var isSymbolicLink: bool

    /** File::Info(): an empty regular file. */
    constructor ()
      ensures size == 0 && !isDirectory && !isSymbolicLink
    {
      size := 0;
      isDirectory := false;
      isSymbolicLink := false;
    }
  }

  // ---------------------------------------------------------------------
  // File

  /** A Win32 file handle. */
  type PlatformFile = nat

  /** What DoInitialize does with a path: opens it, or fails with an error. */
  datatype OpenOutcome =
    | Opened(handle: PlatformFile, created: bool, async: bool)
    | OpenFailed(error: Error)

  /**
   * A File: the ScopedPlatformFile it owns (None for an invalid handle),
   * the path kept for tracing, the last error and the created / async
   * bits.
   */
  class File {
    var file: Option<PlatformFile>
    var tracingPath: Path
    var errorDetails: Error
    var created: bool
    var async: bool

    /** IsValid: the File holds a handle. */
    function IsValid(): (r: bool)
      reads this
      ensures r <==> file != None
    {
      file.Some?
    }

    /** File(): no handle, FILE_ERROR_FAILED, neither created nor async. */
    constructor ()
      ensures file == None && tracingPath == []
      ensures errorDetails == FileErrorFailed && !created && !async
      ensures !IsValid()
    {
      file := None;
      tracingPath := [];
      errorDetails := FileErrorFailed;
      created := false;
      async := false;
    }

    /**
     * File(path, flags): starts from FILE_OK, not created, not async, and
     * then runs Initialize with the same tracing switch and outcome.
     */
    constructor Open(path: Path, flags: nat, tracingEnabled: bool, outcome: OpenOutcome)
      ensures ReferencesParent(path) ==>
                file == None && tracingPath == [] &&
                errorDetails == FileErrorAccessDenied && !created && !async
      ensures !ReferencesParent(path) ==>
                tracingPath == (if tracingEnabled then path else []) &&
                (outcome.Opened? ==> file == Some(outcome.handle) && errorDetails == FileOk &&
                                     created == outcome.created && async == outcome.async) &&
                (outcome.OpenFailed? ==> file == None && errorDetails == outcome.error &&
                                         !created && !async)
      ensures IsValid() <==> !ReferencesParent(path) && outcome.Opened?
    {
      file := None;
      tracingPath := [];
      errorDetails := FileOk;
      created := false;
      async := false;
      new;
      Initialize(path, flags, tracingEnabled, outcome);
    }

    /** File(platform_file): adopts the handle, synchronous. */
    constructor FromPlatformFile(platformFile: Option<PlatformFile>)
      ensures file == platformFile && tracingPath == []
      ensures errorDetails == FileOk && !created && !async
      ensures IsValid() <==> platformFile.Some?
    {
      file := platformFile;
      tracingPath := [];
      errorDetails := FileOk;
      created := false;
      async := false;
    }

    /** File(platform_file, async): adopts the handle with the given async bit. */
    constructor FromPlatformFileAsync(platformFile: Option<PlatformFile>, async: bool)
      ensures file == platformFile && tracingPath == []
      ensures errorDetails == FileOk && !created && this.async == async
      ensures IsValid() <==> platformFile.Some?
    {
      file := platformFile;
      tracingPath := [];
      errorDetails := FileOk;
      created := false;
      this.async := async;
    }

    /** File(error_details): no handle, the given error, neither created nor async. */
    constructor FromError(errorDetails: Error)
      ensures file == None && tracingPath == []
      ensures this.errorDetails == errorDetails && !created && !async
      ensures !IsValid()
    {
      file := None;
      tracingPath := [];
      this.errorDetails := errorDetails;
      created := false;
      async := false;
    }

    /**
     * File(File&& other): takes other's handle, leaving other without one,
     * and copies its tracing path, error, created and async bits.
     */
    constructor Move(other: File)
      modifies other
      ensures file == old(other.file) && other.file == None
      ensures tracingPath == other.tracingPath == old(other.tracingPath)
      ensures errorDetails == other.errorDetails == old(other.errorDetails)
      ensures created == other.created == old(other.created)
      ensures async == other.async == old(other.async)
      ensures IsValid() == old(other.IsValid()) && !other.IsValid()
    {
      var taken := other.TakePlatformFile();
      file := taken;
      tracingPath := other.tracingPath;
      errorDetails := other.errorDetails;
      created := other.created;
      async := other.async;
    }

    /** Close: the handle is closed and the File holds none; nothing else changes. */
    method Close()
      modifies this
      ensures file == None
      ensures tracingPath == old(tracingPath) && errorDetails == old(errorDetails)
      ensures created == old(created) && async == old(async)
      ensures !IsValid()
    {
      file := None;
    }

    /** ~File: closes the handle. */
    method Destroy()
      modifies this
      ensures file == None
      ensures tracingPath == old(tracingPath) && errorDetails == old(errorDetails)
      ensures created == old(created) && async == old(async)
      ensures !IsValid()
    {
      Close();
    }

    /** TakePlatformFile: hands the handle to the caller, which now owns it. */
    method TakePlatformFile() returns (taken: Option<PlatformFile>)
      modifies this
      ensures taken == old(file) && file == None
      ensures tracingPath == old(tracingPath) && errorDetails == old(errorDetails)
      ensures created == old(created) && async == old(async)
      ensures !IsValid() && (taken.Some? <==> old(IsValid()))
    {
      taken := file;
      file := None;
    }

    /** SetPlatformFile: the File now owns the given handle. */
    method SetPlatformFile(platformFile: Option<PlatformFile>)
      modifies this
      ensures file == platformFile
      ensures tracingPath == old(tracingPath) && errorDetails == old(errorDetails)
      ensures created == old(created) && async == old(async)
      ensures IsValid() <==> platformFile.Some?
    {
      file := platformFile;
    }

    /**
     * operator=(File&& other): closes this File's own handle first, then
     * takes other's handle and copies its fields. Assigning a File to
     * itself therefore leaves it closed with its fields unchanged.
     */
    method MoveAssign(other: File)
      modifies this, other
      ensures other != this ==> file == old(other.file) && other.file == None
      ensures other == this ==> file == None
      ensures tracingPath == other.tracingPath == old(other.tracingPath)
      ensures errorDetails == other.errorDetails == old(other.errorDetails)
      ensures created == other.created == old(other.created)
      ensures async == other.async == old(other.async)
      ensures other != this ==> IsValid() == old(other.IsValid()) && !other.IsValid()
    {
      Close();
      var taken := other.TakePlatformFile();
      SetPlatformFile(taken);
      tracingPath := other.tracingPath;
      errorDetails := other.errorDetails;
      created := other.created;
      async := other.async;
    }

    /**
     * DoInitialize, whose platform work is not part of this model: on
     * success the File holds the new handle with FILE_OK and the created /
     * async bits the open reported; on failure it holds no handle and
     * records the error, keeping its other bits.
     */
    method DoInitialize(outcome: OpenOutcome)
      modifies this
      ensures tracingPath == old(tracingPath)
      ensures outcome.Opened? ==> file == Some(outcome.handle) && errorDetails == FileOk &&
                                  created == outcome.created && async == outcome.async
      ensures outcome.OpenFailed? ==> file == None && errorDetails == outcome.error &&
                                      created == old(created) && async == old(async)
    {
      match outcome
      case Opened(h, c, a) =>
        file := Some(h);
        errorDetails := FileOk;
        created := c;
        async := a;
      case OpenFailed(e) =>
        file := None;
        errorDetails := e;
    }

    /**
     * Initialize: a path that references its parent is refused with
     * FILE_ERROR_ACCESS_DENIED and nothing is opened; otherwise the path
     * is recorded when file tracing is on and DoInitialize opens it.
     */
    method Initialize(path: Path, flags: nat, tracingEnabled: bool, outcome: OpenOutcome)
      modifies this
      ensures ReferencesParent(path) ==>
                errorDetails == FileErrorAccessDenied && file == old(file) &&
                tracingPath == old(tracingPath) && created == old(created) && async == old(async)
      ensures !ReferencesParent(path) ==>
                tracingPath == (if tracingEnabled then path else old(tracingPath)) &&
                (outcome.Opened? ==> file == Some(outcome.handle) && errorDetails == FileOk &&
                                     created == outcome.created && async == outcome.async) &&
                (outcome.OpenFailed? ==> file == None && errorDetails == outcome.error &&
                                         created == old(created) && async == old(async))
    {
      if ReferencesParent(path) {
        errorDetails := FileErrorAccessDenied;
        return;
      }
      if tracingEnabled {
        tracingPath := path;
      }
      DoInitialize(outcome);
    }
  }
}
