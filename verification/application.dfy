/** ApplicationCheck of both health files: a fixed list of directories must exist and
    be readable; each is reported under its basename. */
module Application {
  import opened Base
  import opened PhpLang
  import opened Results
  import OrderedMap

  /** What is_dir(), is_readable() and is_writable() answer for one path. */
  datatype PathProbe = PathProbe(isDir: bool, readable: bool, writable: bool)

  /** The filesystem as the check sees it (a path missing from `fs` is not a
      directory), ini_get('open_basedir') (None for false) and
      $_SERVER['DOCUMENT_ROOT'] (None when unset or null). */
  datatype AppEnv = AppEnv(fs: map<string, PathProbe>, openBasedir: Option<string>, documentRoot: Option<string>)

  /** php/health.php checks only paths inside a typical open_basedir. */
  const HARDENED_DIRS: seq<string> := ["/var/www/html", "/var/www/html/public", "/tmp"]
  /** health.php also checks the log directories. */
  const LEGACY_DIRS: seq<string> := ["/var/www/html", "/var/www/html/public", "/var/log/php", "/var/log/nginx"]

  function Dirs(v: Variant): seq<string> {
    match v
    case Hardened => HARDENED_DIRS
    case Legacy => LEGACY_DIRS
  }

  function Probe(env: AppEnv, path: string): PathProbe {
    if path in env.fs then env.fs[path] else PathProbe(false, false, false)
  }

  /** A directory counts when it exists and is readable; writability is reported
      but never required. */
  predicate DirOk(env: AppEnv, path: string) {
    Probe(env, path).isDir && Probe(env, path).readable
  }

  /** The status array for one directory: readable and writable are only checked
      for a directory that exists. */
  function DirEntry(env: AppEnv, path: string): (j: Json)
    ensures j.JObj? && |j.fields| == 4
    ensures j.fields[1] == ("exists", JBool(Probe(env, path).isDir))
    ensures j.fields[2].1 == JBool(DirOk(env, path))
  {
    var p := Probe(env, path);
    JObj([
      ("path", JStr(path)),
      ("exists", JBool(p.isDir)),
      ("readable", JBool(p.isDir && p.readable)),
      ("writable", JBool(p.isDir && p.writable))])
  }

  function Basenames(dirs: seq<string>): (b: seq<string>)
    ensures |b| == |dirs| && forall i :: 0 <= i < |dirs| ==> b[i] == Basename(dirs[i])
  {
    seq(|dirs|, i requires 0 <= i < |dirs| => Basename(dirs[i]))
  }

  lemma BasenamesSnoc(dirs: seq<string>)
    requires |dirs| > 0
    ensures Basenames(dirs) == Basenames(dirs[..|dirs| - 1]) + [Basename(dirs[|dirs| - 1])]
  {
    var init := dirs[..|dirs| - 1];
    assert forall i :: 0 <= i < |init| ==> init[i] == dirs[i];
  }

  /** `$directoryStatus[basename($dir)] = ...` for each directory in order. */
  function Directories(env: AppEnv, dirs: seq<string>): (m: Fields)
    ensures OrderedMap.Valid(m)
    decreases |dirs|
  {
    if |dirs| == 0 then []
    else
      var m := Directories(env, dirs[..|dirs| - 1]);
      var d := dirs[|dirs| - 1];
      OrderedMap.PutValid(m, Basename(d), DirEntry(env, d));
      OrderedMap.Put(m, Basename(d), DirEntry(env, d))
  }

  /** When no two directories share a basename, the map's keys are the basenames in
      list order and each maps to its own directory's status. */
  lemma {:induction false} DirectoriesByBasename(env: AppEnv, dirs: seq<string>)
    requires OrderedMap.Distinct(Basenames(dirs))
    ensures OrderedMap.Keys(Directories(env, dirs)) == Basenames(dirs)
    ensures forall i :: 0 <= i < |dirs| ==>
      OrderedMap.Get(Directories(env, dirs), Basename(dirs[i])) == Some(DirEntry(env, dirs[i]))
    decreases |dirs|
  {
    if |dirs| > 0 {
      var init := dirs[..|dirs| - 1];
      var d := dirs[|dirs| - 1];
      var bs := Basenames(dirs);
      BasenamesSnoc(dirs);
      var bi := Basenames(init);
      assert forall k :: 0 <= k < |bi| ==> bi[k] == bs[k];
      assert OrderedMap.Distinct(bi) by {
        forall a, b | 0 <= a < b < |bi| ensures bi[a] != bi[b] {
          assert bs[a] != bs[b];
        }
      }
      DirectoriesByBasename(env, init);
      assert Basename(d) !in bi by {
        forall k | 0 <= k < |bi| ensures bi[k] != Basename(d) {
          assert bs[k] != bs[|dirs| - 1];
        }
      }
      var m := Directories(env, init);
      OrderedMap.PutKeys(m, Basename(d), DirEntry(env, d));
      forall i | 0 <= i < |dirs|
        ensures OrderedMap.Get(Directories(env, dirs), Basename(dirs[i])) == Some(DirEntry(env, dirs[i]))
      {
        OrderedMap.PutGet(m, Basename(d), DirEntry(env, d), Basename(dirs[i]));
        if i < |dirs| - 1 {
          assert init[i] == dirs[i];
          assert bs[i] != bs[|dirs| - 1];
        }
      }
    }
  }

  /** `$allHealthy` after the loop. */
  function AllOk(env: AppEnv, dirs: seq<string>): (ok: bool)
    ensures ok <==> forall i :: 0 <= i < |dirs| ==> DirOk(env, dirs[i])
  {
    if |dirs| == 0 then true else DirOk(env, dirs[0]) && AllOk(env, dirs[1..])
  }

  /** The note the hardened check adds while an open_basedir restriction is in force. */
  function SecurityNote(v: Variant, env: AppEnv): (f: Fields)
    ensures OrderedMap.Keys(f) == if v == Hardened && !Falsy(env.openBasedir) then ["security_note", "open_basedir"] else []
  {
    if v == Hardened && !Falsy(env.openBasedir) then
      [("security_note", JStr("Log directories (/var/log) excluded per open_basedir policy")),
       ("open_basedir", JStr(env.openBasedir.value))]
    else []
  }

  function Details(v: Variant, env: AppEnv): (f: Fields)
    ensures OrderedMap.Keys(f) == ["directories", "document_root"] + OrderedMap.Keys(SecurityNote(v, env))
    ensures f[0].1 == JObj(Directories(env, Dirs(v)))
    ensures f[1].1 == JStr(env.documentRoot.GetOr("unknown"))
  {
    var base := [
      ("directories", JObj(Directories(env, Dirs(v)))),
      ("document_root", JStr(env.documentRoot.GetOr("unknown")))];
    var note := SecurityNote(v, env);
    OrderedMap.KeysConcat(base, note);
    assert OrderedMap.Keys(base) == ["directories", "document_root"];
    base + note
  }

  /** performCheck(): healthy exactly when every listed directory exists and is
      readable. The details hold the directory map and the document root
      ("unknown" when unset); the hardened check adds a security note and the
      open_basedir value when one is in force. */
  function AppCheck(v: Variant, env: AppEnv): (r: Performed)
    ensures r.healthy <==> forall i :: 0 <= i < |Dirs(v)| ==> DirOk(env, Dirs(v)[i])
    ensures r.status == (if r.healthy then "healthy" else "warning") && r.error.None?
    ensures r.details.Some?
    ensures OrderedMap.Keys(r.details.value) == ["directories", "document_root"]
      + (if v == Hardened && !Falsy(env.openBasedir) then ["security_note", "open_basedir"] else [])
    ensures r.details.value[0].1 == JObj(Directories(env, Dirs(v)))
    ensures r.details.value[1].1 == JStr(env.documentRoot.GetOr("unknown"))
  {
    var healthy := AllOk(env, Dirs(v));
    Performed(healthy, if healthy then "healthy" else "warning", Some(Details(v, env)), None)
  }

  lemma HardenedBasenames()
    ensures Basenames(HARDENED_DIRS) == ["html", "public", "tmp"]
  {
    BasenameOfJoined("/var/www", "html");
    BasenameOfJoined("/var/www/html", "public");
    BasenameOfJoined("", "tmp");
    assert "/var/www" + "/" + "html" == HARDENED_DIRS[0];
    assert "/var/www/html" + "/" + "public" == HARDENED_DIRS[1];
    assert "" + "/" + "tmp" == HARDENED_DIRS[2];
  }

  lemma LegacyBasenames()
    ensures Basenames(LEGACY_DIRS) == ["html", "public", "php", "nginx"]
  {
    BasenameOfJoined("/var/www", "html");
    BasenameOfJoined("/var/www/html", "public");
    BasenameOfJoined("/var/log", "php");
    BasenameOfJoined("/var/log", "nginx");
    assert "/var/www" + "/" + "html" == LEGACY_DIRS[0];
    assert "/var/www/html" + "/" + "public" == LEGACY_DIRS[1];
    assert "/var/log" + "/" + "php" == LEGACY_DIRS[2];
    assert "/var/log" + "/" + "nginx" == LEGACY_DIRS[3];
  }

  /** The directory map has one entry per listed directory, keyed by its basename. */
  lemma DirectoryKeys(v: Variant, env: AppEnv)
    ensures OrderedMap.Keys(Directories(env, Dirs(v))) ==
      if v == Hardened then ["html", "public", "tmp"] else ["html", "public", "php", "nginx"]
  {
    if v == Hardened {
      HardenedBasenames();
    } else {
      LegacyBasenames();
    }
    DirectoriesByBasename(env, Dirs(v));
  }

  /** Whether a directory is writable never changes the verdict. */
  lemma WritabilityIrrelevant(v: Variant, env: AppEnv, path: string, writable: bool)
    requires path in env.fs
    ensures AppCheck(v, env.(fs := env.fs[path := env.fs[path].(writable := writable)])).healthy
      == AppCheck(v, env).healthy
  {
    var env' := env.(fs := env.fs[path := env.fs[path].(writable := writable)]);
    var dirs := Dirs(v);
    forall i | 0 <= i < |dirs| ensures DirOk(env', dirs[i]) == DirOk(env, dirs[i]) {
      if dirs[i] == path {
        assert Probe(env', path) == Probe(env, path).(writable := writable);
      } else {
        assert Probe(env', dirs[i]) == Probe(env, dirs[i]);
      }
    }
    assert AllOk(env', dirs) == AllOk(env, dirs);
  }

  /** A missing log directory makes only the legacy check unhealthy. */
  lemma MissingLogDirectory(env: AppEnv)
    requires "/var/log/nginx" !in env.fs
    requires forall i :: 0 <= i < |HARDENED_DIRS| ==> DirOk(env, HARDENED_DIRS[i])
    ensures AppCheck(Hardened, env).healthy
    ensures !AppCheck(Legacy, env).healthy
  {
    assert !DirOk(env, LEGACY_DIRS[3]);
  }
}
