/**
 * The TLS file options of a peer: where its root, leaf and client
 * certificates and keys live, and making sure the files it needs exist.
 * Paths are named "<base>.<kind>.<cert|key>"; relative paths are made
 * absolute against a working directory; the file system is a set of paths
 * plus a log of the files written.  Certificate generation itself is left
 * abstract: generating writes every required file and sets the certificate.
 */
module PeerTlsOptions {
  import opened Wrappers
  import opened GoPath

  datatype Role = RootCert | RootKey | LeafCert | LeafKey | ClientCert | ClientKey

  datatype TlsError =
    | BadOptions(role: Role)
    | NotExist(missing: seq<string>)

  /** "<base>.<kind>.<ext>" */
  function FileName(base: string, kind: string, ext: string): string {
    base + "." + kind + "." + ext
  }

  /** The roles whose files a peer needs: the root pair, and the client pair or the leaf pair. */
  function Required(client: bool): (rs: seq<Role>)
    ensures |rs| == 4 && forall i, j :: 0 <= i < j < |rs| ==> rs[i] != rs[j]
    ensures forall r :: r in rs <==> r in {RootCert, RootKey} || (client && r in {ClientCert, ClientKey}) || (!client && r in {LeafCert, LeafKey})
  {
    [RootCert, RootKey] + (if client then [ClientCert, ClientKey] else [LeafCert, LeafKey])
  }

  /** filepath.Abs: a rooted path cleaned, or a relative one joined to the working directory. */
  function Abs(cwd: string, path: string): string {
    if |path| > 0 && path[0] == '/' then Clean(path) else Join(cwd, path)
  }

  /** A plain file name made absolute is a clean rooted path ending in that name. */
  lemma AbsKeepsBase(cwd: string, name: string)
    requires |cwd| > 0 && cwd[0] == '/' && Normal(name)
    ensures CleanAbs(Abs(cwd, name)) && Base(Abs(cwd, name)) == name && Base(name) == name
  {
    assert Abs(cwd, name) == Clean(cwd + "/" + name);
    assert (cwd + "/" + name)[0] == '/';
    RootedCleanForm(cwd + "/" + name);
    JoinedBase(cwd, name);
    assert TrimSlashes(name) == name;
    assert Split(name) == [name];
  }

  /** The paths of the given roles, in order. */
  function PathsOf(paths: map<Role, string>, roles: seq<Role>): (ps: seq<string>)
    ensures |ps| == |roles|
    ensures forall i :: 0 <= i < |roles| ==> ps[i] == PathOf(paths, roles[i])
  {
    seq(|roles|, i requires 0 <= i < |roles| => PathOf(paths, roles[i]))
  }

  /** The path of a role; unset is empty. */
  function PathOf(paths: map<Role, string>, r: Role): string {
    if r in paths then paths[r] else ""
  }

  /** The paths that are not files, in order. */
  function Missing(paths: seq<string>, files: set<string>): seq<string>
    decreases |paths|
  {
    if |paths| == 0 then []
    else if paths[|paths| - 1] in files then Missing(paths[..|paths| - 1], files)
    else Missing(paths[..|paths| - 1], files) + [paths[|paths| - 1]]
  }

  /** Nothing is missing exactly when every path is a file, and whatever is missing is one of the paths. */
  lemma {:induction false} MissingNone(paths: seq<string>, files: set<string>)
    ensures |Missing(paths, files)| == 0 <==> forall p :: p in paths ==> p in files
    ensures forall p :: p in Missing(paths, files) ==> p in paths && p !in files
    decreases |paths|
  {
    if |paths| > 0 {
      var front := paths[..|paths| - 1];
      MissingNone(front, files);
      assert paths == front + [paths[|paths| - 1]];
    }
  }

  /**
   * The loop of EnsureAbsPaths on values: each role in turn gets absOf of its
   * relative path, up to the first role without one, which is reported;
   * roles not listed keep their absolute path.
   */
  method MakeAbsolute(roles: seq<Role>, rel: map<Role, string>, abs0: map<Role, string>, absOf: string -> string)
    returns (abs: map<Role, string>, missing: Option<Role>)
    ensures missing.Some? ==> missing.value in roles && PathOf(rel, missing.value) == ""
    ensures missing.None? ==> forall r :: r in roles ==> PathOf(rel, r) != "" && PathOf(abs, r) == absOf(PathOf(rel, r))
    ensures forall r :: r !in roles ==> PathOf(abs, r) == PathOf(abs0, r)
  {
    abs := abs0;
    for i := 0 to |roles|
      invariant forall j :: 0 <= j < i ==> PathOf(rel, roles[j]) != ""
      invariant forall j :: 0 <= j < i ==> PathOf(abs, roles[j]) == absOf(PathOf(rel, roles[j]))
      invariant forall r :: r !in roles ==> PathOf(abs, r) == PathOf(abs0, r)
    {
      var path := PathOf(rel, roles[i]);
      if path == "" {
        return abs, Some(roles[i]);
      }
      abs := abs[roles[i] := absOf(path)];
    }
    forall r | r in roles
      ensures PathOf(rel, r) != "" && PathOf(abs, r) == absOf(PathOf(rel, r))
    {
      var j :| 0 <= j < |roles| && roles[j] == r;
    }
    missing := None;
  }

  /** The file system: the files that exist, and the files written, in order. */
  class FileSystem {
    var files: set<string>
    var writes: seq<string>

    constructor(files: set<string>)
      ensures this.files == files && writes == []
    {
      this.files := files;
      writes := [];
    }
  }

  class TlsFileOptions {
    var relPaths: map<Role, string>
    var absPaths: map<Role, string>
    var hosts: string
    var client: bool
    var create: bool
    var overwrite: bool
    /** Whether the leaf (or client) certificate has been generated into the options. */
    var leafCertificate: bool
    var clientCertificate: bool

    constructor(relPaths: map<Role, string>, absPaths: map<Role, string>, hosts: string, client: bool, create: bool, overwrite: bool)
      ensures this.relPaths == relPaths && this.absPaths == absPaths && this.hosts == hosts
      ensures this.client == client && this.create == create && this.overwrite == overwrite
      ensures !leafCertificate && !clientCertificate
    {
      this.relPaths := relPaths;
      this.absPaths := absPaths;
      this.hosts := hosts;
      this.client := client;
      this.create := create;
      this.overwrite := overwrite;
      leafCertificate := false;
      clientCertificate := false;
    }

    /** The absolute paths of the required files. */
    function RequiredPaths(): seq<string>
      reads this
    {
      PathsOf(absPaths, Required(client))
    }

    lemma RequiredPathsListed()
      ensures forall r :: r in Required(client) ==> PathOf(absPaths, r) in RequiredPaths()
    {
      forall r | r in Required(client) ensures PathOf(absPaths, r) in RequiredPaths() {
        var i :| 0 <= i < 4 && Required(client)[i] == r;
        assert RequiredPaths()[i] == PathOf(absPaths, r);
      }
    }

    /**
     * EnsureAbsPaths: each required role gets the absolute form of its relative
     * path; a required role without a relative path is refused.
     */
    method EnsureAbsPaths(cwd: string) returns (err: Option<TlsError>)
      modifies this
      ensures relPaths == old(relPaths) && client == old(client)
      ensures hosts == old(hosts) && create == old(create) && overwrite == old(overwrite)
      ensures leafCertificate == old(leafCertificate) && clientCertificate == old(clientCertificate)
      ensures err.None? <==> forall r :: r in Required(client) ==> PathOf(relPaths, r) != ""
      ensures err.Some? ==> err.value.BadOptions? && err.value.role in Required(client) && PathOf(relPaths, err.value.role) == ""
      ensures err.None? ==> forall r :: r in Required(client) ==> PathOf(absPaths, r) == Abs(cwd, PathOf(relPaths, r))
      ensures forall r :: r !in Required(client) ==> PathOf(absPaths, r) == PathOf(old(absPaths), r)
    {
      var abs, missing := MakeAbsolute(Required(client), relPaths, absPaths, p => Abs(cwd, p));
      absPaths := abs;
      if missing.Some? {
        return Some(BadOptions(missing.value));
      }
      err := None;
    }

    /** hasRequiredFiles: the required files that do not exist, in order. */
    method MissingFiles(fs: FileSystem) returns (missing: seq<string>)
      ensures missing == Missing(RequiredPaths(), fs.files)
    {
      var paths := RequiredPaths();
      missing := [];
      for i := 0 to |paths|
        invariant missing == Missing(paths[..i], fs.files)
      {
        assert paths[..i + 1][..i] == paths[..i];
        if paths[i] !in fs.files {
          missing := missing + [paths[i]];
        }
      }
      assert paths[..|paths|] == paths;
    }

    /**
     * EnsureExists: with Create, and Overwrite or a missing file, every
     * required file is generated; otherwise a missing file is a NotExist
     * error, and when every required file exists the certificate is loaded
     * from them.  Either way the leaf (or client) certificate is set exactly
     * when there is no error.
     */
    method EnsureExists(fs: FileSystem) returns (err: Option<TlsError>)
      modifies this, fs
      ensures relPaths == old(relPaths) && absPaths == old(absPaths) && client == old(client)
      ensures hosts == old(hosts) && create == old(create) && overwrite == old(overwrite)
      ensures var paths := RequiredPaths(); var missing := Missing(paths, old(fs.files));
        if create && (overwrite || |missing| > 0) then
          err.None? && fs.files == old(fs.files) + (set p | p in paths) && fs.writes == old(fs.writes) + paths
        else
          err == (if |missing| > 0 then Some(NotExist(missing)) else None) &&
          fs.files == old(fs.files) && fs.writes == old(fs.writes)
      ensures leafCertificate == (old(leafCertificate) || (err.None? && !client))
      ensures clientCertificate == (old(clientCertificate) || (err.None? && client))
      ensures create ==> err.None? && forall r :: r in Required(client) ==> PathOf(absPaths, r) in fs.files
    {
      var missing := MissingFiles(fs);
      var paths := RequiredPaths();
      RequiredPathsListed();
      if create && (overwrite || |missing| > 0) {
        fs.files := fs.files + (set p | p in paths);
        fs.writes := fs.writes + paths;
      } else if |missing| > 0 {
        return Some(NotExist(missing));
      } else {
        MissingNone(paths, fs.files);
      }
      // generated or loaded from the existing files
      if client {
        clientCertificate := true;
      } else {
        leafCertificate := true;
      }
      err := None;
    }
  }

  /** The relative paths named from the bases: the root pair, and the client or the leaf pair. */
  function RelPaths(certBase: string, keyBase: string, client: bool): map<Role, string> {
    var root := map[RootCert := FileName(certBase, "root", "cert"), RootKey := FileName(keyBase, "root", "key")];
    if client then root[ClientCert := FileName(certBase, "client", "cert")][ClientKey := FileName(keyBase, "client", "key")]
    else root[LeafCert := FileName(certBase, "leaf", "cert")][LeafKey := FileName(keyBase, "leaf", "key")]
  }

  /** Each required role has its "<base>.<kind>.<ext>" name, which is never empty. */
  lemma RelPathsNamed(certBase: string, keyBase: string, client: bool)
    ensures var rel := RelPaths(certBase, keyBase, client);
      PathOf(rel, RootCert) == FileName(certBase, "root", "cert") &&
      PathOf(rel, RootKey) == FileName(keyBase, "root", "key") &&
      (client ==> PathOf(rel, ClientCert) == FileName(certBase, "client", "cert") &&
                  PathOf(rel, ClientKey) == FileName(keyBase, "client", "key")) &&
      (!client ==> PathOf(rel, LeafCert) == FileName(certBase, "leaf", "cert") &&
                   PathOf(rel, LeafKey) == FileName(keyBase, "leaf", "key")) &&
      forall r :: r in Required(client) ==> PathOf(rel, r) != ""
  {
  }

  /**
   * NewTLSFileOptions: the root pair is named from the certificate and key
   * bases, the client or leaf pair likewise by the client flag; the paths are
   * made absolute and the files ensured, so that the certificate is
   * generated or loaded unless a required file is missing without Create.
   */
  method NewTlsFileOptions(certBase: string, keyBase: string, hosts: string, client: bool, create: bool, overwrite: bool,
                           cwd: string, fs: FileSystem)
    returns (opts: TlsFileOptions, err: Option<TlsError>)
    modifies fs
    ensures fresh(opts)
    ensures PathOf(opts.relPaths, RootCert) == FileName(certBase, "root", "cert")
    ensures PathOf(opts.relPaths, RootKey) == FileName(keyBase, "root", "key")
    ensures client ==> PathOf(opts.relPaths, ClientCert) == FileName(certBase, "client", "cert") &&
                       PathOf(opts.relPaths, ClientKey) == FileName(keyBase, "client", "key")
    ensures !client ==> PathOf(opts.relPaths, LeafCert) == FileName(certBase, "leaf", "cert") &&
                        PathOf(opts.relPaths, LeafKey) == FileName(keyBase, "leaf", "key")
    ensures opts.hosts == hosts && opts.client == client && opts.overwrite == overwrite && opts.create == create
    ensures forall r :: r in Required(client) ==> PathOf(opts.absPaths, r) == Abs(cwd, PathOf(opts.relPaths, r))
    ensures create ==> err.None? && forall r :: r in Required(client) ==> PathOf(opts.absPaths, r) in fs.files
    ensures err.None? <==> create || |Missing(opts.RequiredPaths(), old(fs.files))| == 0
    ensures err.Some? ==> err == Some(NotExist(Missing(opts.RequiredPaths(), old(fs.files))))
    ensures (if client then opts.clientCertificate else opts.leafCertificate) <==> err.None?
  {
    var rel := RelPaths(certBase, keyBase, client);
    RelPathsNamed(certBase, keyBase, client);
    opts := new TlsFileOptions(rel, map[], hosts, client, create, overwrite);
    err := opts.EnsureAbsPaths(cwd);
    assert err.None?;
    err := opts.EnsureExists(fs);
  }
}
