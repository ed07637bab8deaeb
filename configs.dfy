/** `collect_config_files`: one candidate path per configuration kind, built from the
    application name and the PHP version; an existing candidate is copied into the report
    directory and its new path recorded, a missing one is recorded as `"Not found"`. */
module Configs {
  import opened Text
  import opened Paths
  import opened Host

  /** `Path("/etc/nginx-rc/conf.d")` */
  const NginxConfDir := Path(true, ["etc", "nginx-rc", "conf.d"])
  /** `Path("/etc/php-rc")` */
  const PhpConfBase := Path(true, ["etc", "php-rc"])
  /** The relative path `"fpm/pool.d"` as a path object. */
  const PoolDir := Path(false, ["fpm", "pool.d"])
  const NotFound := "Not found"

  /** `DEFAULT_NGINX_CONF_DIR / f"{app_name}.conf"` */
  function NginxCandidate(appName: string): Path {
    Child(NginxConfDir, appName + ".conf")
  }

  /** `DEFAULT_PHP_CONF_BASE / php_version / "fpm/pool.d" / f"{app_name}.conf"` */
  function PhpCandidate(appName: string, phpVersion: string): Path {
    Child(Concat(Child(PhpConfBase, phpVersion), PoolDir), appName + ".conf")
  }

  /** Where a copied candidate lands: `output_dir / candidate.name`. */
  function CopiedTo(outputDir: Path, candidate: Path): Path {
    Child(outputDir, Name(candidate))
  }

  /** The result for one kind: `None` where `shutil.copy` raises and ends the script. */
  function ConfigResult(host: Host, outputDir: Path, candidate: Path): Option<string> {
    if candidate !in host.files then Some(NotFound)
    else if host.copy(candidate, outputDir).CopyFailed? then None
    else Some(ToString(CopiedTo(outputDir, candidate)))
  }

  /** The results of both kinds, or `None` when a copy raised. */
  function Configs(host: Host, outputDir: Path, appName: string, phpVersion: string): Option<map<string, string>> {
    match ConfigResult(host, outputDir, NginxCandidate(appName))
    case None => None
    case Some(nginx) =>
      match ConfigResult(host, outputDir, PhpCandidate(appName, phpVersion))
      case None => None
      case Some(php) => Some(map["nginx_config" := nginx, "php_fpm_config" := php])
  }

  /** The copy `shutil.copy(candidate, output_dir)` makes: none when the candidate is not a
      file or the copy raises. */
  function CopyWrite(host: Host, outputDir: Path, candidate: Path): seq<Write> {
    if candidate in host.files && host.copy(candidate, outputDir) == Copied
    then [Write(CopiedTo(outputDir, candidate), host.files[candidate])]
    else []
  }

  /** The files the two copies write, in order; a failed nginx copy ends the script before the
      PHP-FPM lookup. */
  function ConfigWrites(host: Host, outputDir: Path, appName: string, phpVersion: string): seq<Write> {
    var nginx := NginxCandidate(appName);
    if nginx in host.files && host.copy(nginx, outputDir).CopyFailed? then []
    else CopyWrite(host, outputDir, nginx) + CopyWrite(host, outputDir, PhpCandidate(appName, phpVersion))
  }

  /** `collect_config_files`, filling the results key by key. */
  method CollectConfigFiles(host: Host, outputDir: Path, appName: string, phpVersion: string)
    returns (results: Option<map<string, string>>, writes: seq<Write>)
    ensures results == Configs(host, outputDir, appName, phpVersion)
    ensures writes == ConfigWrites(host, outputDir, appName, phpVersion)
  {
    var found: map<string, string> := map[];
    writes := [];
    var nginxConfPath := Child(NginxConfDir, appName + ".conf");
    assert nginxConfPath == NginxCandidate(appName);
    if nginxConfPath in host.files {
      if host.copy(nginxConfPath, outputDir).CopyFailed? {
        return None, writes;
      }
      writes := writes + [Write(CopiedTo(outputDir, nginxConfPath), host.files[nginxConfPath])];
      found := found["nginx_config" := ToString(CopiedTo(outputDir, nginxConfPath))];
    } else {
      found := found["nginx_config" := NotFound];
    }
    assert found == map["nginx_config" := ConfigResult(host, outputDir, nginxConfPath).value];
    assert writes == CopyWrite(host, outputDir, nginxConfPath);
    var phpConfPath := Child(Concat(Child(PhpConfBase, phpVersion), PoolDir), appName + ".conf");
    assert phpConfPath == PhpCandidate(appName, phpVersion);
    if phpConfPath in host.files {
      if host.copy(phpConfPath, outputDir).CopyFailed? {
        return None, writes;
      }
      writes := writes + [Write(CopiedTo(outputDir, phpConfPath), host.files[phpConfPath])];
      found := found["php_fpm_config" := ToString(CopiedTo(outputDir, phpConfPath))];
    } else {
      found := found["php_fpm_config" := NotFound];
    }
    return Some(found), writes;
  }

  /** Joining the string `"fpm/pool.d"` adds the two parts of `PoolDir`. */
  lemma PoolDirParts(base: Path)
    ensures Child(base, "fpm/pool.d") == Concat(base, PoolDir)
  {
    PoolDirSplit();
    var pieces := ["fpm", "pool.d"];
    assert IsPart(pieces[0]) && IsPart(pieces[1]);
    assert KeepParts(pieces) == pieces;
  }

  lemma PoolDirSplit()
    ensures Split("fpm/pool.d", '/') == ["fpm", "pool.d"]
  {
    var a, b := "fpm", "pool.d";
    assert '/' !in a && '/' !in b;
    assert "fpm/pool.d" == a + ("/" + b);
    SplitTwo(a, b, '/');
  }

  lemma SplitTwo(a: string, b: string, sep: char)
    requires sep !in a && sep !in b
    ensures Split(a + ([sep] + b), sep) == [a, b]
  {
    var tail := [sep] + b;
    assert tail != [] && tail[0] == sep && tail[1..] == b;
    SplitSeparatorFree(b, sep);
    assert Split(tail, sep) == [""] + Split(b, sep);
    SplitCons(a, tail, sep);
    assert a + "" == a;
  }

  lemma NotFoundIsNotConf()
    ensures !EndsWith(NotFound, ".conf")
  {
  }

  /** A candidate's file name ends in `.conf`, and so does the path it is copied to. */
  lemma CandidateNames(outputDir: Path, appName: string, phpVersion: string)
    ensures EndsWith(Name(NginxCandidate(appName)), ".conf")
    ensures EndsWith(Name(PhpCandidate(appName, phpVersion)), ".conf")
    ensures EndsWith(ToString(CopiedTo(outputDir, NginxCandidate(appName))), ".conf")
    ensures EndsWith(ToString(CopiedTo(outputDir, PhpCandidate(appName, phpVersion))), ".conf")
  {
    ChildEndsWith(NginxConfDir, appName + ".conf", ".conf");
    ChildEndsWith(Concat(Child(PhpConfBase, phpVersion), PoolDir), appName + ".conf", ".conf");
    ChildEndsWith(outputDir, Name(NginxCandidate(appName)), ".conf");
    ChildEndsWith(outputDir, Name(PhpCandidate(appName, phpVersion)), ".conf");
  }

  /** A kind is recorded as `"Not found"` exactly when its candidate is not a file; when it
      is, the script goes on exactly when the copy succeeds, and records the copy's path. */
  lemma ConfigResultMeaning(host: Host, outputDir: Path, appName: string, phpVersion: string, candidate: Path)
    requires candidate == NginxCandidate(appName) || candidate == PhpCandidate(appName, phpVersion)
    ensures ConfigResult(host, outputDir, candidate) == Some(NotFound) <==> candidate !in host.files
    ensures candidate in host.files ==>
            (ConfigResult(host, outputDir, candidate).Some? <==> host.copy(candidate, outputDir) == Copied)
    ensures ConfigResult(host, outputDir, candidate).Some? && candidate in host.files ==>
            ConfigResult(host, outputDir, candidate).value == ToString(CopiedTo(outputDir, candidate))
  {
    CandidateNames(outputDir, appName, phpVersion);
    NotFoundIsNotConf();
  }

  /** With an application name that is a single file-name part, the candidates are named
      after the application and the copies keep that name. */
  lemma CandidateNameIsApp(outputDir: Path, appName: string, phpVersion: string)
    requires IsPart(appName + ".conf")
    ensures Name(NginxCandidate(appName)) == appName + ".conf"
    ensures Name(PhpCandidate(appName, phpVersion)) == appName + ".conf"
    ensures Name(CopiedTo(outputDir, NginxCandidate(appName))) == appName + ".conf"
    ensures CopiedTo(outputDir, NginxCandidate(appName)) == CopiedTo(outputDir, PhpCandidate(appName, phpVersion))
  {
    var x := appName + ".conf";
    SplitSeparatorFree(x, '/');
    assert FromString(x).parts == [x];
  }

  /** Whatever the application name, both candidates carry the same file name, so both
      copies land on one path in the report directory. */
  lemma SharedCopyPath(outputDir: Path, appName: string, phpVersion: string)
    ensures Name(NginxCandidate(appName)) == Name(PhpCandidate(appName, phpVersion))
    ensures CopiedTo(outputDir, NginxCandidate(appName)) == CopiedTo(outputDir, PhpCandidate(appName, phpVersion))
  {
    var x := appName + ".conf";
    FromStringEndsWith(x, ".conf");
    assert Name(NginxCandidate(appName)) == Name(FromString(x));
    assert Name(PhpCandidate(appName, phpVersion)) == Name(FromString(x));
  }

  /** When both configurations exist and are copied, the two results name the same file, and
      that file holds the PHP-FPM configuration: the nginx copy is overwritten. */
  lemma ConfigCopyOverwritten(host: Host, outputDir: Path, appName: string, phpVersion: string)
    requires NginxCandidate(appName) in host.files && PhpCandidate(appName, phpVersion) in host.files
    requires Configs(host, outputDir, appName, phpVersion).Some?
    ensures Configs(host, outputDir, appName, phpVersion).value["nginx_config"]
            == Configs(host, outputDir, appName, phpVersion).value["php_fpm_config"]
    ensures |ConfigWrites(host, outputDir, appName, phpVersion)| == 2
    ensures LastWritten(ConfigWrites(host, outputDir, appName, phpVersion), CopiedTo(outputDir, NginxCandidate(appName)))
            == Some(host.files[PhpCandidate(appName, phpVersion)])
  {
    SharedCopyPath(outputDir, appName, phpVersion);
    var ws := ConfigWrites(host, outputDir, appName, phpVersion);
    assert ws[1] == Write(CopiedTo(outputDir, NginxCandidate(appName)), host.files[PhpCandidate(appName, phpVersion)]);
  }

  /** Both keys are always present when the script goes on. */
  lemma ConfigKeys(host: Host, outputDir: Path, appName: string, phpVersion: string)
    requires Configs(host, outputDir, appName, phpVersion).Some?
    ensures Configs(host, outputDir, appName, phpVersion).value.Keys == {"nginx_config", "php_fpm_config"}
  {
  }
}
