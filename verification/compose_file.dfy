/**
 * Composing an origin's files from pkg/compose/file.go.
 *
 * getWhitelistedFiles walks the origin's directory tree depth-first in
 * listing order and yields, for every whitelisted file, its path in the
 * remote repository and the local path it is composed to; composeFile then
 * creates the local parent directory and writes the file, postprocessed for
 * Markdown and Asciidoc, raw otherwise.
 *
 * Origin and Config are not part of this model: an origin here carries the
 * fields the code above reads (the config's ContentWorkingDir included), a
 * file's format is DetermineFormat of its remote path, and a file is
 * whitelisted when shouldIgnoreFile rejects it not.
 */
module Compose {
  import opened GoStrings
  import GoFilepath
  import opened FileTree
  import opened Helpers
  import opened Workarounds

  /** A file of an origin: its path in the remote repository and its local path. */
  datatype OriginFile = OriginFile(remotePath: string, localPath: string)

  datatype Origin = Origin(
    url: string,
    branch: string,
    sourceDir: string,
    targetDir: string,
    fileWhitelist: seq<string>,
    contentWorkingDir: string,
    files: seq<OriginFile>)

  /**
   * NewOrigin: the four given fields set, the whitelist and the file list
   * empty. `new(Origin)` leaves the config pointer nil, so a fresh origin has
   * no working dir; `contentWorkingDir` is a placeholder here, and
   * WorkingDirUnobserved shows that no walk can read it while the whitelist
   * is empty.
   */
  function NewOrigin(url: string, branch: string, sourceDir: string, targetDir: string): (o: Origin)
    ensures o.url == url && o.branch == branch
    ensures o.sourceDir == sourceDir && o.targetDir == targetDir
    ensures o.fileWhitelist == [] && o.contentWorkingDir == "" && o.files == []
  {
    Origin(url, branch, sourceDir, targetDir, [], "", [])
  }

  /** FileIsWhitelisted, taken to be the negation of shouldIgnoreFile. */
  function FileIsWhitelisted(name: string, whitelist: seq<string>): (r: bool)
    ensures r <==> exists i :: 0 <= i < |whitelist| && SuffixFold(name, whitelist[i])
  {
    !ShouldIgnoreFile(name, whitelist)
  }

  // ---------------------------------------------------------------------------
  // getLocalFilePath

  /**
   * getLocalFilePath: strip the remote doc dir from the front of the remote
   * path if it is there, and join compose dir, target dir and the rest.
   */
  function GetLocalFilePath(composeDir: string, remoteDocDir: string, targetDir: string, remoteFile: string): (r: string)
    ensures r == "" <==> composeDir == "" && targetDir == "" && TrimPrefix(remoteFile, remoteDocDir) == ""
  {
    var relativeFilePath := TrimPrefix(remoteFile, remoteDocDir);
    var parts := [composeDir, targetDir, relativeFilePath];
    assert parts[0] == composeDir && parts[1] == targetDir && parts[2] == relativeFilePath;
    GoFilepath.Join(parts)
  }

  /** A non-empty local path is a clean path. */
  lemma LocalPathIsClean(composeDir: string, remoteDocDir: string, targetDir: string, remoteFile: string)
    requires GetLocalFilePath(composeDir, remoteDocDir, targetDir, remoteFile) != ""
    ensures var r := GetLocalFilePath(composeDir, remoteDocDir, targetDir, remoteFile);
            GoFilepath.Clean(r) == r
  {
    GoFilepath.JoinIsClean([composeDir, targetDir, TrimPrefix(remoteFile, remoteDocDir)]);
  }

  /** Whether all elements are names. */
  predicate Names(xs: seq<string>) {
    forall i :: 0 <= i < |xs| ==> GoFilepath.IsName(xs[i])
  }

  lemma KeepOfNames(xs: seq<string>)
    requires Names(xs)
    ensures GoFilepath.Plain(xs) && GoFilepath.Keep(xs) == xs
  {
    if |xs| > 0 {
      KeepOfNames(xs[1..]);
      assert xs == [xs[0]] + xs[1..];
    }
  }

  /** The names a target directory contributes: none for "" and ".", itself for a name. */
  function TargetNames(t: string): (r: seq<string>)
    requires t == "" || t == "." || GoFilepath.IsName(t)
    ensures GoFilepath.Keep([t]) == r
  {
    if t == "" || t == "." then [] else [t]
  }

  /** Pieces that start with an empty or `.` piece followed by names keep just the names. */
  lemma KeepLeading(h: string, xs: seq<string>)
    requires h == "" || h == "."
    requires Names(xs)
    ensures GoFilepath.Plain([h] + xs) && GoFilepath.Keep([h] + xs) == xs
  {
    KeepOfNames(xs);
    assert ([h] + xs)[1..] == xs;
  }

  /** The kept names of compose dir, target dir and remote pieces, run together. */
  lemma KeepJoined(h: string, cs: seq<string>, t: string, rp: seq<string>)
    requires h == "" || h == "."
    requires Names(cs) && (t == "" || t == "." || GoFilepath.IsName(t)) && GoFilepath.Plain(rp)
    ensures GoFilepath.Plain([h] + cs + [t] + rp)
    ensures GoFilepath.Keep([h] + cs + [t] + rp) == cs + TargetNames(t) + GoFilepath.Keep(rp)
    ensures ([h] + cs + [t] + rp)[0] == h
  {
    var all := [h] + cs + [t] + rp;
    forall i | 0 <= i < |all|
      ensures all[i] == "" || all[i] == "." || GoFilepath.IsName(all[i])
    {
      if i == 0 {
      } else if i <= |cs| {
        assert all[i] == cs[i - 1];
      } else if i == |cs| + 1 {
      } else {
        assert all[i] == rp[i - |cs| - 2];
      }
    }
    GoFilepath.KeepAppend([h] + cs + [t], rp);
    GoFilepath.KeepAppend([h] + cs, [t]);
    KeepLeading(h, cs);
  }

  /**
   * Join of a compose dir, a target dir and a remaining remote path given by
   * pieces that are empty, `.` or names: the pieces are run together, their
   * empty and `.` pieces dropped, and the result is rooted exactly when the
   * compose dir is.
   */
  lemma JoinOfPieces(cp: seq<string>, tp: seq<string>, rp: seq<string>)
    requires |cp| >= 1 && |tp| >= 1 && |rp| >= 1
    requires GoFilepath.Plain(cp + tp + rp) && GoFilepath.JoinSlash(cp) != ""
    ensures GoFilepath.Join([GoFilepath.JoinSlash(cp), GoFilepath.JoinSlash(tp), GoFilepath.JoinSlash(rp)])
            == GoFilepath.Render(cp[0] == "", GoFilepath.Keep(cp + tp + rp))
  {
    var c, t, r := GoFilepath.JoinSlash(cp), GoFilepath.JoinSlash(tp), GoFilepath.JoinSlash(rp);
    var parts := [c, t, r];
    assert GoFilepath.JoinSlash(parts) == c + "/" + (t + "/" + r) by {
      GoFilepath.JoinSlashCons(c, [t, r]);
      assert [c] + [t, r] == parts;
      GoFilepath.JoinSlashCons(t, [r]);
      assert [t] + [r] == [t, r];
    }
    GoFilepath.JoinSlashAppend(tp, rp);
    GoFilepath.JoinSlashAppend(cp, tp + rp);
    assert cp + (tp + rp) == cp + tp + rp;
    GoFilepath.CleanPlain(cp + tp + rp);
  }

  /** getLocalFilePath on pieces: see JoinOfPieces. */
  lemma LocalPathOfPieces(cp: seq<string>, tp: seq<string>, rp: seq<string>, remoteDocDir: string, remoteFile: string)
    requires |cp| >= 1 && |tp| >= 1 && |rp| >= 1
    requires GoFilepath.Plain(cp + tp + rp) && GoFilepath.JoinSlash(cp) != ""
    requires TrimPrefix(remoteFile, remoteDocDir) == GoFilepath.JoinSlash(rp)
    ensures GetLocalFilePath(GoFilepath.JoinSlash(cp), remoteDocDir, GoFilepath.JoinSlash(tp), remoteFile)
            == GoFilepath.Render(cp[0] == "", GoFilepath.Keep(cp + tp + rp))
  {
    JoinOfPieces(cp, tp, rp);
  }

  /** A compose dir `h/cs`, with h empty (rooted) or `.`, joined as pieces. */
  lemma JoinLeading(h: string, cs: seq<string>)
    requires h == "" || h == "."
    requires |cs| >= 1
    ensures GoFilepath.JoinSlash([h] + cs) == h + "/" + GoFilepath.JoinSlash(cs)
    ensures GoFilepath.JoinSlash([h] + cs) != ""
  {
    GoFilepath.JoinSlashCons(h, cs);
  }

  /** Names joined by separators do not start with a dot when the first name does not. */
  lemma NoLeadingDot(rs: seq<string>)
    requires |rs| >= 1 && Names(rs) && rs[0][0] != '.'
    ensures TrimPrefix(GoFilepath.JoinSlash(rs), ".") == GoFilepath.JoinSlash(rs)
  {
    GoFilepath.JoinSlashHead(rs);
    assert !HasPrefix(GoFilepath.JoinSlash(rs), ".") by {
      assert GoFilepath.JoinSlash(rs)[0] != "."[0];
    }
  }

  /**
   * With `.` as remote doc dir, a remote path whose first element does not
   * start with a dot is kept whole below the compose dir and the target dir
   * ("." and "" add nothing): `filename.md` and `docs/filename.md` below
   * `/tmp/compose`, with target `.`, `""` or `localTarget`.
   */
  lemma LocalPathKeepsStructure(composeDir: string, remoteDocDir: string, cs: seq<string>, t: string, rs: seq<string>)
    requires |cs| >= 1 && Names(cs) && |rs| >= 1 && Names(rs)
    requires t == "" || t == "." || GoFilepath.IsName(t)
    requires rs[0][0] != '.'
    requires composeDir == "/" + GoFilepath.JoinSlash(cs) && remoteDocDir == "."
    ensures GetLocalFilePath(composeDir, remoteDocDir, t, GoFilepath.JoinSlash(rs))
            == "/" + GoFilepath.JoinSlash(cs + TargetNames(t) + rs)
  {
    JoinLeading("", cs);
    assert "" + "/" + GoFilepath.JoinSlash(cs) == "/" + GoFilepath.JoinSlash(cs);
    NoLeadingDot(rs);
    assert GoFilepath.JoinSlash([t]) == t;
    KeepOfNames(rs);
    KeepJoined("", cs, t, rs);
    LocalPathOfPieces([""] + cs, [t], rs, remoteDocDir, GoFilepath.JoinSlash(rs));
  }

  /**
   * A remote doc dir that is a name is stripped with the separator after
   * it: `docs/filename.md` from remote doc dir `docs` lands directly below
   * the compose dir.
   */
  lemma LocalPathStripsSourceDir(composeDir: string, d: string, targetDir: string, cs: seq<string>, rs: seq<string>)
    requires |cs| >= 1 && Names(cs) && |rs| >= 1 && Names(rs) && GoFilepath.IsName(d)
    requires targetDir == "" || targetDir == "." || GoFilepath.IsName(targetDir)
    requires composeDir == "/" + GoFilepath.JoinSlash(cs)
    ensures GetLocalFilePath(composeDir, d, targetDir, d + "/" + GoFilepath.JoinSlash(rs))
            == "/" + GoFilepath.JoinSlash(cs + TargetNames(targetDir) + rs)
  {
    JoinLeading("", cs);
    assert "" + "/" + GoFilepath.JoinSlash(cs) == "/" + GoFilepath.JoinSlash(cs);
    JoinLeading("", rs);
    var rel := "/" + GoFilepath.JoinSlash(rs);
    var remote := d + "/" + GoFilepath.JoinSlash(rs);
    assert remote == d + rel;
    assert TrimPrefix(remote, d) == rel by {
      assert HasPrefix(remote, d);
      assert d + TrimPrefix(remote, d) == d + rel;
      assert TrimPrefix(remote, d) == (d + rel)[|d|..];
    }
    assert GoFilepath.JoinSlash([targetDir]) == targetDir;
    KeepLeading("", rs);
    KeepJoined("", cs, targetDir, [""] + rs);
    LocalPathOfPieces([""] + cs, [targetDir], [""] + rs, d, remote);
  }

  /** A relative compose dir such as `./compose` gives a relative, cleaned local path. */
  lemma LocalPathRelativeCompose(composeDir: string, remoteDocDir: string, targetDir: string, cs: seq<string>, rs: seq<string>)
    requires |cs| >= 1 && Names(cs) && |rs| >= 1 && Names(rs)
    requires rs[0][0] != '.'
    requires targetDir == "" || targetDir == "." || GoFilepath.IsName(targetDir)
    requires composeDir == "." + "/" + GoFilepath.JoinSlash(cs) && remoteDocDir == "."
    ensures GetLocalFilePath(composeDir, remoteDocDir, targetDir, GoFilepath.JoinSlash(rs))
            == GoFilepath.JoinSlash(cs + TargetNames(targetDir) + rs)
  {
    var dot := remoteDocDir;  // the compose dir's leading `.` is the same one-character string
    JoinLeading(dot, cs);
    NoLeadingDot(rs);
    assert GoFilepath.JoinSlash([targetDir]) == targetDir;
    KeepOfNames(rs);
    KeepJoined(dot, cs, targetDir, rs);
    LocalPathOfPieces([dot] + cs, [targetDir], rs, remoteDocDir, GoFilepath.JoinSlash(rs));
    assert |cs + TargetNames(targetDir) + rs| > 0;
  }

  // ---------------------------------------------------------------------------
  // Stripping the remote doc dir by whole elements

  /**
   * As written, with `.` as remote doc dir a remote path that starts with a
   * hidden directory or file (`.github/...`) loses its leading dot:
   * TrimPrefix removes the character, not a path element.
   */
  lemma LocalPathDropsLeadingDot(composeDir: string, remoteDocDir: string, targetDir: string, cs: seq<string>, rs: seq<string>)
    requires |cs| >= 1 && Names(cs) && |rs| >= 1 && Names(rs)
    requires targetDir == "" || targetDir == "." || GoFilepath.IsName(targetDir)
    requires composeDir == "/" + GoFilepath.JoinSlash(cs) && remoteDocDir == "."
    ensures var remote := "." + GoFilepath.JoinSlash(rs);
            var local := GetLocalFilePath(composeDir, remoteDocDir, targetDir, remote);
            local == "/" + GoFilepath.JoinSlash(cs + TargetNames(targetDir) + rs) &&
            local != "/" + GoFilepath.JoinSlash(cs + TargetNames(targetDir)) + "/" + remote
  {
    JoinLeading("", cs);
    assert "" + "/" + GoFilepath.JoinSlash(cs) == "/" + GoFilepath.JoinSlash(cs);
    var remote := remoteDocDir + GoFilepath.JoinSlash(rs);
    assert TrimPrefix(remote, remoteDocDir) == GoFilepath.JoinSlash(rs) by {
      assert HasPrefix(remote, remoteDocDir);
      assert TrimPrefix(remote, remoteDocDir) == remote[1..];
    }
    assert GoFilepath.JoinSlash([targetDir]) == targetDir;
    KeepOfNames(rs);
    KeepJoined("", cs, targetDir, rs);
    LocalPathOfPieces([""] + cs, [targetDir], rs, remoteDocDir, remote);
    var above := cs + TargetNames(targetDir);
    GoFilepath.JoinSlashAppend(above, rs);
    var local := "/" + GoFilepath.JoinSlash(above + rs);
    assert |local| + 1 == |"/" + GoFilepath.JoinSlash(above) + "/" + remote|;
  }

  /**
   * The remote path relative to the source dir, stripped by whole path
   * elements: the clean source dir and one separator, or nothing when the
   * source dir is `.` or not a leading part of the remote path.
   */
  function RelativeToSource(remoteFile: string, sourceDir: string): (rel: string)
    ensures rel == remoteFile || GoFilepath.Clean(sourceDir) + "/" + rel == remoteFile
  {
    var src := GoFilepath.Clean(sourceDir);
    if src != "." && HasPrefix(remoteFile, src + "/") then
      assert remoteFile == src + "/" + remoteFile[|src| + 1..];
      remoteFile[|src| + 1..]
    else remoteFile
  }

  /** getLocalFilePath with the remote doc dir stripped by whole elements. */
  function GetLocalFilePathIntended(composeDir: string, remoteDocDir: string, targetDir: string, remoteFile: string): (r: string)
    ensures r == "" <==> composeDir == "" && targetDir == "" && RelativeToSource(remoteFile, remoteDocDir) == ""
  {
    var relativeFilePath := RelativeToSource(remoteFile, remoteDocDir);
    var parts := [composeDir, targetDir, relativeFilePath];
    assert parts[0] == composeDir && parts[1] == targetDir && parts[2] == relativeFilePath;
    GoFilepath.Join(parts)
  }

  lemma SourceDirIsClean(ds: seq<string>)
    requires |ds| >= 1 && Names(ds)
    ensures GoFilepath.Clean(GoFilepath.JoinSlash(ds)) == GoFilepath.JoinSlash(ds)
    ensures GoFilepath.JoinSlash(ds) != "."
  {
    KeepOfNames(ds);
    GoFilepath.JoinSlashHead(ds);
    GoFilepath.CleanPlain(ds);
    if |ds| > 1 {
      GoFilepath.JoinSlashCons(ds[0], ds[1..]);
      assert ds == [ds[0]] + ds[1..];
    }
  }

  /** The whole-element strip of `ds/rs` from source dir `ds` (or `.` for none) is `rs`. */
  lemma RelativeToSourceOfPieces(ds: seq<string>, rs: seq<string>)
    requires Names(ds) && |rs| >= 1 && Names(rs)
    ensures RelativeToSource(GoFilepath.JoinSlash(ds + rs), if |ds| == 0 then "." else GoFilepath.JoinSlash(ds))
            == GoFilepath.JoinSlash(rs)
  {
    if |ds| == 0 {
      GoFilepath.CleanOfDot();
      assert ds + rs == rs;
    } else {
      var src := GoFilepath.JoinSlash(ds);
      var remote := GoFilepath.JoinSlash(ds + rs);
      SourceDirIsClean(ds);
      GoFilepath.JoinSlashAppend(ds, rs);
      assert remote == src + "/" + GoFilepath.JoinSlash(rs);
      assert HasPrefix(remote, src + "/");
      assert remote[|src| + 1..] == GoFilepath.JoinSlash(rs);
    }
  }

  /**
   * A source dir written with a leading `./`: the walk's Join has cleaned the
   * remote path to `ds/rs`, so as written TrimPrefix strips nothing and the
   * file keeps `ds` in its local path, while the whole-element strip of the
   * cleaned source dir leaves `rs`.
   */
  lemma SourceDirWithDot(sourceDir: string, ds: seq<string>, rs: seq<string>)
    requires |ds| >= 1 && Names(ds) && ds[0][0] != '.' && |rs| >= 1 && Names(rs)
    requires sourceDir == "." + "/" + GoFilepath.JoinSlash(ds)
    ensures TrimPrefix(GoFilepath.JoinSlash(ds + rs), sourceDir) == GoFilepath.JoinSlash(ds + rs)
    ensures RelativeToSource(GoFilepath.JoinSlash(ds + rs), sourceDir) == GoFilepath.JoinSlash(rs)
  {
    var remote := GoFilepath.JoinSlash(ds + rs);
    GoFilepath.JoinSlashHead(ds + rs);
    assert remote[0] != sourceDir[0];
    CleanDotPrefix(sourceDir, ds);
    var src := GoFilepath.JoinSlash(ds);
    SourceDirIsClean(ds);
    GoFilepath.JoinSlashAppend(ds, rs);
    assert remote == src + "/" + GoFilepath.JoinSlash(rs);
    assert HasPrefix(remote, src + "/");
    assert remote[|src| + 1..] == GoFilepath.JoinSlash(rs);
  }

  /** Cleaning `./ds` drops the leading `.` element. */
  lemma CleanDotPrefix(sourceDir: string, ds: seq<string>)
    requires |ds| >= 1 && Names(ds)
    requires sourceDir == "." + "/" + GoFilepath.JoinSlash(ds)
    ensures GoFilepath.Clean(sourceDir) == GoFilepath.JoinSlash(ds)
  {
    var p := [sourceDir[..1]] + ds;
    assert sourceDir[..1] == ".";
    JoinLeading(sourceDir[..1], ds);
    KeepOfNames(ds);
    assert p[1..] == ds;
    assert GoFilepath.Plain(p);
    assert GoFilepath.Keep(p) == ds;
    GoFilepath.CleanPlain(p);
  }

  /**
   * Stripping by whole elements keeps the structure below the source dir,
   * hidden elements included: a file at `ds/rs` in the repository, with
   * source dir `ds` (or `.` when `ds` is empty), lands at
   * `compose/target/rs`.
   */
  lemma LocalPathIntendedKeepsStructure(composeDir: string, sourceDir: string, cs: seq<string>, ds: seq<string>, t: string, rs: seq<string>)
    requires |cs| >= 1 && Names(cs) && Names(ds) && |rs| >= 1 && Names(rs)
    requires t == "" || t == "." || GoFilepath.IsName(t)
    requires composeDir == "/" + GoFilepath.JoinSlash(cs)
    requires sourceDir == if |ds| == 0 then "." else GoFilepath.JoinSlash(ds)
    ensures GetLocalFilePathIntended(composeDir, sourceDir, t, GoFilepath.JoinSlash(ds + rs))
            == "/" + GoFilepath.JoinSlash(cs + TargetNames(t) + rs)
  {
    RelativeToSourceOfPieces(ds, rs);
    JoinLeading("", cs);
    assert "" + "/" + GoFilepath.JoinSlash(cs) == "/" + GoFilepath.JoinSlash(cs);
    assert GoFilepath.JoinSlash([t]) == t;
    KeepOfNames(rs);
    KeepJoined("", cs, t, rs);
    JoinOfPieces([""] + cs, [t], rs);
  }

  // ---------------------------------------------------------------------------
  // getWhitelistedFiles

  /**
   * The local path of a remote file of the origin: getLocalFilePath as
   * written, or with the source dir stripped by whole elements.
   */
  function LocalPath(o: Origin, remotePath: string, rd: Reading): (r: string)
  {
    match rd
    case AsWritten => GetLocalFilePath(o.contentWorkingDir, o.sourceDir, o.targetDir, remotePath)
    case Intended => GetLocalFilePathIntended(o.contentWorkingDir, o.sourceDir, o.targetDir, remotePath)
  }

  /** Every file's local path is the one its remote path gives. */
  predicate LocalPathsAgree(o: Origin, files: seq<OriginFile>, rd: Reading) {
    forall i :: 0 <= i < |files| ==> files[i].localPath == LocalPath(o, files[i].remotePath, rd)
  }

  /** The origin file for a whitelisted file at `remotePath`. */
  function MakeOriginFile(o: Origin, remotePath: string, rd: Reading): (f: OriginFile)
    ensures f.remotePath == remotePath
    ensures LocalPathsAgree(o, [f], rd)
  {
    OriginFile(remotePath, LocalPath(o, remotePath, rd))
  }

  /**
   * getWhitelistedFiles over the listing of `startdir`: an unreadable
   * directory contributes nothing.
   */
  function WhitelistedFiles(o: Origin, startdir: string, l: Listing, rd: Reading): (r: seq<OriginFile>)
    ensures LocalPathsAgree(o, r, rd)
    decreases l
  {
    match l
    case Unreadable => []
    case Listed(es) => WalkEntries(o, startdir, es, rd)
  }

  /** The loop over the entries, each one's files spliced in at its position. */
  function WalkEntries(o: Origin, startdir: string, es: seq<Entry>, rd: Reading): (r: seq<OriginFile>)
    ensures LocalPathsAgree(o, r, rd)
    decreases es
  {
    if |es| == 0 then []
    else
      var first := WalkEntry(o, startdir, es[0], rd);
      var rest := WalkEntries(o, startdir, es[1..], rd);
      AgreeAppend(o, first, rest, rd);
      first + rest
  }

  lemma AgreeAppend(o: Origin, a: seq<OriginFile>, b: seq<OriginFile>, rd: Reading)
    requires LocalPathsAgree(o, a, rd) && LocalPathsAgree(o, b, rd)
    ensures LocalPathsAgree(o, a + b, rd)
  {
    forall i | 0 <= i < |a + b|
      ensures (a + b)[i].localPath == LocalPath(o, (a + b)[i].remotePath, rd)
    {
      if i >= |a| {
        assert (a + b)[i] == b[i - |a|];
      }
    }
  }

  /** A directory is walked at `Join(startdir, name)`; a whitelisted file is returned. */
  function WalkEntry(o: Origin, startdir: string, e: Entry, rd: Reading): (r: seq<OriginFile>)
    ensures LocalPathsAgree(o, r, rd)
    decreases e
  {
    var remotePath := GoFilepath.Join([startdir, e.name]);
    match e
    case Dir(_, l) => WhitelistedFiles(o, remotePath, l, rd)
    case File(name, _) =>
      if FileIsWhitelisted(name, o.fileWhitelist) then [MakeOriginFile(o, remotePath, rd)] else []
  }

  /** The remote directory of a file below `startdir`: one Join per parent directory. */
  function RemoteDir(startdir: string, parents: seq<string>): (r: string)
    decreases |parents|
  {
    if |parents| == 0 then startdir
    else RemoteDir(GoFilepath.Join([startdir, parents[0]]), parents[1..])
  }

  /** The origin file for a located file if it is whitelisted, at its remote path below `startdir`. */
  function Pick(o: Origin, startdir: string, f: Located, rd: Reading): (r: seq<OriginFile>)
  {
    if FileIsWhitelisted(f.name, o.fileWhitelist)
    then [MakeOriginFile(o, GoFilepath.Join([RemoteDir(startdir, f.parents), f.name]), rd)]
    else []
  }

  /** The whitelisted files of a flat list, in order. */
  function Selected(o: Origin, startdir: string, fs: seq<Located>, rd: Reading): (r: seq<OriginFile>)
    decreases |fs|
  {
    if |fs| == 0 then []
    else Pick(o, startdir, fs[0], rd) + Selected(o, startdir, fs[1..], rd)
  }

  lemma {:induction false} SelectedAppend(o: Origin, startdir: string, a: seq<Located>, b: seq<Located>, rd: Reading)
    ensures Selected(o, startdir, a + b, rd) == Selected(o, startdir, a, rd) + Selected(o, startdir, b, rd)
    decreases |a|
  {
    if |a| == 0 {
      assert a + b == b;
    } else {
      assert (a + b)[0] == a[0];
      assert (a + b)[1..] == a[1..] + b;
      SelectedAppend(o, startdir, a[1..], b, rd);
    }
  }

  lemma {:induction false} SelectedUnder(o: Origin, startdir: string, dir: string, fs: seq<Located>, rd: Reading)
    ensures Selected(o, startdir, Under(dir, fs), rd) == Selected(o, GoFilepath.Join([startdir, dir]), fs, rd)
    decreases |fs|
  {
    if |fs| > 0 {
      var u := Under(dir, fs);
      assert u[1..] == Under(dir, fs[1..]);
      assert ([dir] + fs[0].parents)[1..] == fs[0].parents;
      SelectedUnder(o, startdir, dir, fs[1..], rd);
    }
  }

  /**
   * getWhitelistedFiles returns exactly the whitelisted files of the tree,
   * depth-first in listing order, each at the remote path the Joins of its
   * parent directories give; directories themselves are never returned.
   */
  lemma {:induction false} WalkIsFlat(o: Origin, startdir: string, l: Listing, rd: Reading)
    ensures WhitelistedFiles(o, startdir, l, rd) == Selected(o, startdir, Flatten(l), rd)
    decreases l
  {
    match l
    case Unreadable =>
    case Listed(es) => WalkEntriesFlat(o, startdir, es, rd);
  }

  lemma {:induction false} WalkEntriesFlat(o: Origin, startdir: string, es: seq<Entry>, rd: Reading)
    ensures WalkEntries(o, startdir, es, rd) == Selected(o, startdir, FlattenEntries(es), rd)
    decreases es
  {
    if |es| > 0 {
      var e := es[0];
      WalkEntriesFlat(o, startdir, es[1..], rd);
      SelectedAppend(o, startdir, FlattenEntry(e), FlattenEntries(es[1..]), rd);
      match e
      case File(name, content) =>
        assert Selected(o, startdir, FlattenEntry(e), rd) == WalkEntry(o, startdir, e, rd) + [];
      case Dir(name, sub) =>
        WalkIsFlat(o, GoFilepath.Join([startdir, name]), sub, rd);
        SelectedUnder(o, startdir, name, Flatten(sub), rd);
    }
  }

  /** The files of consecutive entries come out consecutively. */
  lemma {:induction false} WalkEntriesAppend(o: Origin, startdir: string, a: seq<Entry>, b: seq<Entry>, rd: Reading)
    ensures WalkEntries(o, startdir, a + b, rd) == WalkEntries(o, startdir, a, rd) + WalkEntries(o, startdir, b, rd)
    decreases |a|
  {
    if |a| == 0 {
      assert a + b == b;
    } else {
      assert (a + b)[0] == a[0];
      assert (a + b)[1..] == a[1..] + b;
      WalkEntriesAppend(o, startdir, a[1..], b, rd);
    }
  }

  lemma {:induction false} SelectedNone(o: Origin, startdir: string, fs: seq<Located>, rd: Reading)
    requires o.fileWhitelist == []
    ensures Selected(o, startdir, fs, rd) == []
    decreases |fs|
  {
    if |fs| > 0 {
      SelectedNone(o, startdir, fs[1..], rd);
    }
  }

  /** An origin fresh from NewOrigin has an empty whitelist and so finds no file in any tree. */
  lemma NewOriginFindsNothing(url: string, branch: string, sourceDir: string, targetDir: string, startdir: string, l: Listing, rd: Reading)
    ensures WhitelistedFiles(NewOrigin(url, branch, sourceDir, targetDir), startdir, l, rd) == []
  {
    var o := NewOrigin(url, branch, sourceDir, targetDir);
    WalkIsFlat(o, startdir, l, rd);
    SelectedNone(o, startdir, Flatten(l), rd);
  }

  /** With an empty whitelist the walk never reads the working dir: any value gives the same, empty, result. */
  lemma WorkingDirUnobserved(o: Origin, w: string, startdir: string, l: Listing, rd: Reading)
    requires o.fileWhitelist == []
    ensures WhitelistedFiles(o.(contentWorkingDir := w), startdir, l, rd) == WhitelistedFiles(o, startdir, l, rd) == []
  {
    var o' := o.(contentWorkingDir := w);
    WalkIsFlat(o, startdir, l, rd);
    SelectedNone(o, startdir, Flatten(l), rd);
    WalkIsFlat(o', startdir, l, rd);
    SelectedNone(o', startdir, Flatten(l), rd);
  }

  // ---------------------------------------------------------------------------
  // composeFile

  /**
   * composeFile on a file whose remote content is `content`: create the
   * local parent directory, then write Markdown and Asciidoc postprocessed
   * with their own postprocessor and copy anything else byte for byte.
   */
  function ComposeFile(file: OriginFile, content: string): (r: seq<Action>)
    ensures |r| == 2 && r[0] == MkdirAll(GoFilepath.Dir(file.localPath))
    ensures IsMarkdown(file.remotePath) ==> r[1] == WriteFile(file.localPath, MarkdownPostprocessing(content))
    ensures IsAsciidoc(file.remotePath) ==> r[1] == WriteFile(file.localPath, AsciidocPostprocessing(content))
    ensures !IsMarkdown(file.remotePath) && !IsAsciidoc(file.remotePath) ==> r[1] == CopyFile(file.localPath, content)
  {
    var contentFormat := DetermineFormat(file.remotePath);
    [MkdirAll(GoFilepath.Dir(file.localPath))] +
    (if contentFormat == Asciidoc || contentFormat == Markdown
     then [WriteFile(file.localPath, Postprocess(contentFormat, content))]
     else [CopyFile(file.localPath, content)])
  }

  /** A Markdown file without `](` and without escape markers is written unchanged. */
  lemma ComposePlainMarkdown(file: OriginFile, content: string)
    requires IsMarkdown(file.remotePath)
    requires !Contains(content, LinkOpen)
    requires !Contains(content, LinkHttpMarker) && !Contains(content, DoubleOpenMarker)
    ensures ComposeFile(file, content)[1] == WriteFile(file.localPath, content)
  {
    MarkdownUntouched(content);
  }

  /** An Asciidoc file without `image:` and without the escape marker is written unchanged. */
  lemma ComposePlainAsciidoc(file: OriginFile, content: string)
    requires IsAsciidoc(file.remotePath)
    requires !Contains(content, ImageMacro) && !Contains(content, ImageMarker)
    ensures ComposeFile(file, content)[1] == WriteFile(file.localPath, content)
  {
    AsciidocUntouched(content);
  }
}
