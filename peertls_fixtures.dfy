/**
 * The TLS file-option scenarios: options named from generated base names, in
 * a fresh directory.
 */
module PeerTlsFixtures {
  import opened Wrappers
  import opened GoPath
  import opened PeerTlsOptions

  /** A plain base name gives plain file names. */
  lemma FileNameNormal(base: string, kind: string, ext: string)
    requires Normal(base) && Normal(kind) && Normal(ext)
    ensures Normal(FileName(base, kind, ext))
  {
    var f := FileName(base, kind, ext);
    assert f == base + ("." + (kind + ("." + ext)));
    assert '/' !in "." + ext;
    assert '/' !in kind + ("." + ext);
    assert '/' !in "." + (kind + ("." + ext));
    assert |f| >= 3;
  }

  /** The six relative paths of a base name. */
  function AllRelPaths(v: string): map<Role, string> {
    map[RootCert := FileName(v, "root", "cert"), RootKey := FileName(v, "root", "key"),
        LeafCert := FileName(v, "leaf", "cert"), LeafKey := FileName(v, "leaf", "key"),
        ClientCert := FileName(v, "client", "cert"), ClientKey := FileName(v, "client", "key")]
  }

  /** The root and leaf absolute paths under a directory. */
  function LeafAbsPaths(dir: string): map<Role, string> {
    map[RootCert := FileName(dir, "root", "cert"), RootKey := FileName(dir, "root", "key"),
        LeafCert := FileName(dir, "leaf", "cert"), LeafKey := FileName(dir, "leaf", "key")]
  }

  lemma LeafNamesNormal(v: string)
    requires Normal(v)
    ensures forall r :: r in Required(false) ==> Normal(PathOf(AllRelPaths(v), r))
  {
    FileNameNormal(v, "root", "cert");
    FileNameNormal(v, "root", "key");
    FileNameNormal(v, "leaf", "cert");
    FileNameNormal(v, "leaf", "key");
  }

  /**
   * Making the paths of a plain base name absolute gives every required role
   * a non-empty path with the same last element as its relative path.
   */
  method EnsureAbsPathFixture(v: string, cwd: string) returns (opts: TlsFileOptions, err: Option<TlsError>)
    requires Normal(v) && |cwd| > 0 && cwd[0] == '/'
    ensures err.None?
    ensures forall r :: r in Required(false) ==>
      PathOf(opts.absPaths, r) != "" && Base(PathOf(opts.absPaths, r)) == Base(PathOf(opts.relPaths, r))
  {
    opts := new TlsFileOptions(AllRelPaths(v), map[], "", false, false, false);
    err := opts.EnsureAbsPaths(cwd);
    LeafNamesNormal(v);
    forall r | r in Required(false)
      ensures PathOf(opts.absPaths, r) != "" && Base(PathOf(opts.absPaths, r)) == Base(PathOf(opts.relPaths, r))
    {
      AbsKeepsBase(cwd, PathOf(opts.relPaths, r));
    }
  }

  /** With Create, every required file exists afterwards. */
  method EnsureExistsCreateFixture(dir: string, fs: FileSystem) returns (opts: TlsFileOptions, err: Option<TlsError>)
    modifies fs
    ensures err.None?
    ensures forall r :: r in Required(false) ==> PathOf(opts.absPaths, r) in fs.files
  {
    opts := new TlsFileOptions(map[], LeafAbsPaths(dir), "127.0.0.1", false, true, false);
    err := opts.EnsureExists(fs);
  }

  /**
   * With Create but not Overwrite, when every required file already exists,
   * nothing is written and the leaf certificate is loaded from the files.
   */
  method EnsureExistsLoadFixture(dir: string) returns (opts: TlsFileOptions, err: Option<TlsError>, writes: seq<string>)
    ensures err.None? && opts.leafCertificate && writes == []
  {
    var paths := LeafAbsPaths(dir);
    var fs := new FileSystem(set r | r in Required(false) :: PathOf(paths, r));
    opts := new TlsFileOptions(map[], paths, "127.0.0.1", false, true, false);
    opts.RequiredPathsListed();
    assert forall p :: p in opts.RequiredPaths() ==> p in fs.files;
    MissingNone(opts.RequiredPaths(), fs.files);
    err := opts.EnsureExists(fs);
    writes := fs.writes;
  }

  /** Without Create, in an empty directory, the files are reported as not existing. */
  method EnsureExistsNotExistFixture(dir: string) returns (err: Option<TlsError>)
    ensures err.Some? && err.value.NotExist?
  {
    var fs := new FileSystem({});
    var opts := new TlsFileOptions(map[], LeafAbsPaths(dir), "127.0.0.1", false, false, false);
    MissingNone(opts.RequiredPaths(), {});
    assert opts.RequiredPaths()[0] in opts.RequiredPaths();
    err := opts.EnsureExists(fs);
  }

  /**
   * New options with Create in an empty directory: root, and client or leaf,
   * paths named from the bases, the settings echoed, and the certificate set.
   */
  method NewTlsFileOptionsFixture(certBase: string, keyBase: string, hosts: string, client: bool, overwrite: bool, cwd: string)
    returns (opts: TlsFileOptions, err: Option<TlsError>)
    ensures err.None?
    ensures PathOf(opts.relPaths, RootCert) == FileName(certBase, "root", "cert")
    ensures PathOf(opts.relPaths, RootKey) == FileName(keyBase, "root", "key")
    ensures client ==> PathOf(opts.relPaths, ClientCert) == FileName(certBase, "client", "cert") && opts.clientCertificate
    ensures !client ==> PathOf(opts.relPaths, LeafCert) == FileName(certBase, "leaf", "cert") && opts.leafCertificate
    ensures opts.hosts == hosts && opts.client == client && opts.overwrite == overwrite
  {
    var fs := new FileSystem({});
    opts, err := NewTlsFileOptions(certBase, keyBase, hosts, client, true, overwrite, cwd, fs);
    MissingNone(opts.RequiredPaths(), {});
    assert opts.RequiredPaths()[0] in opts.RequiredPaths();
  }
}
