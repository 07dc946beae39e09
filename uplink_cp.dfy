/**
 * The `cp` command of the uplink command line: which of upload, download or
 * remote copy its two arguments ask for, and how the object path of the
 * destination is normalised and defaulted.  Parsing an argument into a URL,
 * opening the bucket store and the transfers themselves are outside the
 * model: their outcomes are parameters.
 */
module UplinkCp {
  import opened Wrappers
  import opened GoPath

  const NO_OBJECT := "No object specified for copy"
  const NO_DESTINATION := "No destination specified"
  const NO_BUCKET := "No bucket specified. Please use format sj://bucket/"
  const INVALID_DESTINATION := "Invalid destination"
  const INVALID_SOURCE := "Invalid source"

  /** A parsed argument: `sj://host/path`, or a local file with no scheme and no host. */
  datatype ParsedUrl = ParsedUrl(scheme: string, host: string, path: string)

  /** A URL whose path the transfers rewrite in place. */
  class Url {
    var scheme: string
    var host: string
    var path: string

    constructor(u: ParsedUrl)
      ensures scheme == u.scheme && host == u.host && path == u.path
    {
      scheme := u.scheme;
      host := u.host;
      path := u.path;
    }
  }

  /** p without the one trailing separator that cleanAbsPath may add. */
  function Unslashed(p: string): string {
    if p != "/" && EndsWithSlash(p) then p[..|p| - 1] else p
  }

  /** cleanAbsPath: the path rooted and cleaned, keeping a trailing separator. */
  function CleanAbsPath(path: string): (r: string)
    ensures |r| > 0 && r[0] == '/'
  {
    var trailing := EndsWithSlash(path);
    var joined := Join("/", path);
    assert joined == Clean("/" + "/" + path);
    if !EndsWithSlash(joined) && trailing then joined + "/" else joined
  }

  /**
   * The result of cleanAbsPath is the rooted, cleaned input, followed by a
   * separator exactly when the input ends in one (the root aside).
   */
  lemma CleanAbsPathForm(path: string)
    ensures var r := CleanAbsPath(path);
      CleanAbs(Unslashed(r)) && Unslashed(r) == Clean("/" + path) &&
      (r == Unslashed(r) || (Unslashed(r) != "/" && r == Unslashed(r) + "/")) &&
      (EndsWithSlash(r) <==> EndsWithSlash(path) || r == "/")
  {
    var c := Clean("/" + "/" + path);
    DoubleRoot(path);
    LeadingRoot("/" + path);
    RootedCleanForm("/" + "/" + path);
    if c != "/" {
      CleanAbsNoTrailing(c);
      assert (c + "/")[..|c|] == c;
    }
  }

  lemma DoubleRoot(x: string)
    ensures "/" + "/" + x == "/" + ("/" + x)
  {
  }

  /** cleanAbsPath leaves its own results as they are. */
  lemma CleanAbsPathIdempotent(path: string)
    ensures CleanAbsPath(CleanAbsPath(path)) == CleanAbsPath(path)
  {
    var r := CleanAbsPath(path);
    var u := Unslashed(r);
    CleanAbsPathForm(path);
    CleanAbsElems(u);
    RootedClean(Elems(u));
    assert Clean(u) == u;
    DoubleRoot(r);
    LeadingRoot("/" + r);
    LeadingRoot(r);
    if r != u {
      assert r == u + "/";
      TrailingSlash(u);
      CleanAbsNoTrailing(u);
    }
    assert Clean("/" + "/" + r) == u;
  }

  /**
   * The object path a transfer writes to: the destination path cleaned, and
   * when it names a directory, the source's last element under it.
   */
  function DestinationPath(destPath: string, srcPath: string): string {
    var p := CleanAbsPath(destPath);
    if EndsWithSlash(p) then Join(p, Base(srcPath)) else p
  }

  /**
   * The destination is always a rooted clean path.  A destination that names
   * a directory (a trailing separator, or the root) gets the source's last
   * element appended; any other is the cleaned destination itself.
   */
  lemma DestinationPathForm(destPath: string, srcPath: string)
    ensures var r := DestinationPath(destPath, srcPath);
      var p := CleanAbsPath(destPath);
      CleanAbs(r) &&
      (!EndsWithSlash(p) ==> r == p && r == Clean("/" + destPath)) &&
      (EndsWithSlash(p) && Normal(Base(srcPath)) ==> r == p + Base(srcPath) && Base(r) == Base(srcPath))
  {
    CleanAbsPathForm(destPath);
    var p := CleanAbsPath(destPath);
    if EndsWithSlash(p) {
      DestinationUnderDir(p, Base(srcPath));
    }
  }

  lemma DestinationUnderDir(p: string, b: string)
    requires CleanAbs(Unslashed(p)) && EndsWithSlash(p)
    requires p == Unslashed(p) || (Unslashed(p) != "/" && p == Unslashed(p) + "/")
    ensures CleanAbs(Join(p, b))
    ensures Normal(b) ==> Join(p, b) == p + b && Base(Join(p, b)) == b
  {
    assert p[0] == '/';
    assert Join(p, b) == Clean(p + "/" + b);
    assert (p + "/" + b)[0] == '/';
    RootedCleanForm(p + "/" + b);
    if Normal(b) {
      JoinedBase(p, b);
      var u := Unslashed(p);
      if p == "/" {
        JoinUnderRoot(b);
      } else {
        assert p == u + "/" && u != "/";
        assert p + "/" + b == u + "/" + "/" + b;
        EmptyElem(u, b);
        JoinUnderElems(u, b);
      }
    }
  }

  /**
   * upload: a destination without a scheme is refused; otherwise its path is
   * rewritten to the object name used, before the file is read and stored.
   */
  method Upload(srcFile: string, destObj: Url, ioErr: Option<string>) returns (err: Option<string>)
    modifies destObj
    ensures destObj.scheme == old(destObj.scheme) && destObj.host == old(destObj.host)
    ensures old(destObj.scheme) == "" ==> err == Some(INVALID_DESTINATION) && destObj.path == old(destObj.path)
    ensures old(destObj.scheme) != "" ==> err == ioErr && destObj.path == DestinationPath(old(destObj.path), srcFile)
  {
    if destObj.scheme == "" {
      return Some(INVALID_DESTINATION);
    }
    destObj.path := CleanAbsPath(destObj.path);
    if EndsWithSlash(destObj.path) {
      destObj.path := Join(destObj.path, Base(srcFile));
    }
    err := ioErr;
  }

  /**
   * copy: once the source object and the destination bucket are open, the
   * destination path is rewritten to the object name used.  The source's path
   * is read after the destination's is cleaned, which matters only when both
   * are the same URL.
   */
  method Copy(srcObj: Url, destObj: Url, openErr: Option<string>, ioErr: Option<string>) returns (err: Option<string>)
    modifies destObj
    ensures destObj.scheme == old(destObj.scheme) && destObj.host == old(destObj.host)
    ensures openErr.Some? ==> err == openErr && destObj.path == old(destObj.path)
    ensures openErr.None? ==> err == ioErr
    ensures openErr.None? && srcObj != destObj ==> destObj.path == DestinationPath(old(destObj.path), old(srcObj.path))
    ensures openErr.None? && srcObj == destObj ==>
      destObj.path == DestinationPath(old(destObj.path), CleanAbsPath(old(destObj.path)))
  {
    if openErr.Some? {
      return openErr;
    }
    destObj.path := CleanAbsPath(destObj.path);
    if EndsWithSlash(destObj.path) {
      destObj.path := Join(destObj.path, Base(srcObj.path));
    }
    err := ioErr;
  }

  /**
   * download: a source without a scheme is refused; a destination that is a
   * directory receives a file named after the source's last element.
   */
  function DownloadTarget(src: ParsedUrl, destFile: string, destIsDir: bool): Result<string, string> {
    if src.scheme == "" then Err(INVALID_SOURCE)
    else if destIsDir then Ok(Join(destFile, Base(src.path)))
    else Ok(destFile)
  }

  /** A download into a directory writes a file with the source object's name. */
  lemma DownloadTargetName(src: ParsedUrl, destFile: string)
    requires src.scheme != "" && destFile != "" && Normal(Base(src.path))
    ensures DownloadTarget(src, destFile, true).Ok?
    ensures Base(DownloadTarget(src, destFile, true).value) == Base(src.path)
  {
    JoinedBase(destFile, Base(src.path));
  }

  /** What copyMain decides to do with its arguments. */
  datatype Command =
    | Fail(message: string)
    | UploadCmd(srcFile: string, dest: ParsedUrl)
    | DownloadCmd(src: ParsedUrl, destFile: string)
    | CopyCmd(src: ParsedUrl, dest: ParsedUrl)

  /**
   * copyMain's dispatch: both arguments are required; a local first argument
   * is an upload into a bucket, a local second argument a download from one,
   * and two remote arguments a copy.
   */
  function Dispatch(args: seq<string>, parse: string -> Result<ParsedUrl, string>, storeErr: Option<string>): (c: Command)
    ensures |args| == 0 ==> c == Fail(NO_OBJECT)
    ensures |args| == 1 ==> c == Fail(NO_DESTINATION)
    ensures c.UploadCmd? ==>
      |args| >= 2 && c.srcFile == args[0] && parse(args[0]).Ok? && parse(args[0]).value.scheme == "" &&
      parse(args[1]) == Ok(c.dest) && c.dest.host != "" && storeErr.None?
    ensures c.DownloadCmd? ==>
      |args| >= 2 && parse(args[0]) == Ok(c.src) && c.src.scheme != "" && c.src.host != "" &&
      parse(args[1]).Ok? && parse(args[1]).value.scheme == "" && c.destFile == args[1] && storeErr.None?
    ensures c.CopyCmd? ==>
      |args| >= 2 && parse(args[0]) == Ok(c.src) && parse(args[1]) == Ok(c.dest) &&
      c.src.scheme != "" && c.dest.scheme != "" && storeErr.None?
  {
    if |args| == 0 then Fail(NO_OBJECT)
    else if |args| == 1 then Fail(NO_DESTINATION)
    else
      match parse(args[0])
      case Err(e) => Fail(e)
      case Ok(u0) =>
        match parse(args[1])
        case Err(e) => Fail(e)
        case Ok(u1) =>
          if storeErr.Some? then Fail(storeErr.value)
          else if u0.scheme == "" then
            if u1.host == "" then Fail(NO_BUCKET) else UploadCmd(args[0], u1)
          else if u1.scheme == "" then
            if u0.host == "" then Fail(NO_BUCKET) else DownloadCmd(u0, args[1])
          else CopyCmd(u0, u1)
  }

  /** Every well-formed pair of arguments leads to exactly one of the three transfers or a refusal. */
  lemma DispatchTotal(args: seq<string>, parse: string -> Result<ParsedUrl, string>)
    requires |args| >= 2 && parse(args[0]).Ok? && parse(args[1]).Ok?
    ensures var u0 := parse(args[0]).value; var u1 := parse(args[1]).value;
      var c := Dispatch(args, parse, None);
      (c.UploadCmd? <==> u0.scheme == "" && u1.host != "") &&
      (c.DownloadCmd? <==> u0.scheme != "" && u1.scheme == "" && u0.host != "") &&
      (c.CopyCmd? <==> u0.scheme != "" && u1.scheme != "") &&
      (c.Fail? <==> c == Fail(NO_BUCKET))
  {
  }

  /** copyMain never reaches download's "Invalid source" refusal. */
  lemma NoInvalidSource(args: seq<string>, parse: string -> Result<ParsedUrl, string>, storeErr: Option<string>, destIsDir: bool)
    requires Dispatch(args, parse, storeErr).DownloadCmd?
    ensures var c := Dispatch(args, parse, storeErr); DownloadTarget(c.src, c.destFile, destIsDir).Ok?
  {
  }

  /**
   * copyMain: the refusal, or the transfer's outcome and the object path or
   * file it names as its destination (named whether or not the transfer then
   * succeeds).  `openErr` is the failure opening a copy's source or destination
   * bucket, `ioErr` that of the transfer after the destination is named.
   */
  method CopyMain(args: seq<string>, parse: string -> Result<ParsedUrl, string>, storeErr: Option<string>,
                  destIsDir: bool, openErr: Option<string>, ioErr: Option<string>)
    returns (err: Option<string>, target: Option<string>)
    ensures var c := Dispatch(args, parse, storeErr);
      match c
      case Fail(m) => err == Some(m) && target == None
      case UploadCmd(f, d) =>
        if d.scheme == "" then err == Some(INVALID_DESTINATION) && target == None
        else err == ioErr && target == Some(DestinationPath(d.path, f))
      case DownloadCmd(s, f) =>
        err == ioErr && target == Some(DownloadTarget(s, f, destIsDir).value)
      case CopyCmd(s, d) =>
        if openErr.Some? then err == openErr && target == None
        else err == ioErr && target == Some(DestinationPath(d.path, s.path))
  {
    var c := Dispatch(args, parse, storeErr);
    match c {
      case Fail(m) =>
        err, target := Some(m), None;
      case UploadCmd(f, d) =>
        var u1 := new Url(d);
        err := Upload(f, u1, ioErr);
        target := if d.scheme == "" then None else Some(u1.path);
      case DownloadCmd(s, f) =>
        var named := DownloadTarget(s, f, destIsDir);
        err, target := ioErr, Some(named.value);
      case CopyCmd(s, d) =>
        var u0 := new Url(s);
        var u1 := new Url(d);
        err := Copy(u0, u1, openErr, ioErr);
        target := if openErr.Some? then None else Some(u1.path);
    }
  }

  /** The empty path is the root; a directory keeps its trailing separator. */
  lemma CleanAbsPathEmpty()
    ensures CleanAbsPath("") == "/"
  {
    assert Split("/" + "/" + "") == [""] + ([""] + [""]) by {
      SplitConcat("", "" + "/" + "");
      SplitConcat("", "");
      assert "/" + "/" + "" == "" + "/" + ("" + "/" + "");
    }
    ResolveSkip([], [""] + [""], true);
    ResolveSkip([], [""], true);
    assert [""] == [""] + [];
    ResolveSkip([], [], true);
  }

  lemma CleanAbsPathDirectory(name: string)
    requires Normal(name)
    ensures CleanAbsPath(name + "/") == "/" + name + "/"
  {
    CleanAbsPathForm(name + "/");
    JoinUnderRoot(name);
    assert "/" + "/" + name == "/" + ("/" + name);
    LeadingRoot("/" + name);
    TrailingSlash("/" + name);
    assert "/" + (name + "/") == "/" + name + "/";
    assert Clean("/" + (name + "/")) == "/" + name;
    CleanAbsNoTrailing("/" + name);
  }
}
