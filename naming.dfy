/**
 * Where `process_media` and `process_image` (media_archive.py:41, 70-76) put
 * a file's proxy: the shadow path, the "-thumbnail" name and the path the
 * image proxy is finally saved to.
 */
module Naming {
  import opened Seqs
  import opened PyStr
  import opened PosixPath

  const ThumbnailSuffix: string := "-thumbnail"
  /** Inserted before the last dot of an image proxy's path. */
  const ImageInfix: string := "_optimize=True_quality=75"

  /** `original_path.replace(root_dir, shadow_root, 1)` */
  function ShadowPath(originalPath: string, rootDir: string, shadowRoot: string): string {
    ReplaceFirst(originalPath, rootDir, shadowRoot)
  }

  /** A path that begins with the root has that prefix swapped for the shadow root. */
  lemma ShadowPathAtRoot(originalPath: string, rootDir: string, shadowRoot: string)
    requires StartsWith(originalPath, rootDir)
    ensures ShadowPath(originalPath, rootDir, shadowRoot) == shadowRoot + originalPath[|rootDir|..]
  {
    ReplaceFirstAtStart(originalPath, rootDir, shadowRoot);
  }

  /** `filename + '-thumbnail' + ext` after `os.path.splitext`. */
  function ThumbnailName(filename: string): (r: string)
    ensures Sep !in filename ==> Sep !in r
    ensures |r| == |filename| + |ThumbnailSuffix|
  {
    var (stem, ext) := Splitext(filename);
    stem + ThumbnailSuffix + ext
  }

  /** A name ending in "-thumbnail" and an extension splits off that extension. */
  lemma SplitextAfterSuffix(stem: string, ext: string)
    requires Sep !in stem + ThumbnailSuffix + ext
    requires ext != [] && ext[0] == ExtSep && ExtSep !in ext[1..]
    ensures Splitext(stem + ThumbnailSuffix + ext) == (stem + ThumbnailSuffix, ext)
  {
    var p := stem + ThumbnailSuffix + ext;
    var dot := |stem| + |ThumbnailSuffix|;
    assert p[dot - 1] == 'l' && p[dot] == ExtSep;
    assert forall j :: dot < j < |p| ==> p[j] == ext[1..][j - dot - 1];
    SplitextAt(p, dot - 1, dot);
    assert p[..dot] == stem + ThumbnailSuffix && p[dot..] == ext;
  }

  /** A name with no extension keeps none when "-thumbnail" is appended. */
  lemma SplitextWithoutExtension(filename: string)
    requires Sep !in filename + ThumbnailSuffix
    requires Splitext(filename).1 == []
    ensures Splitext(filename + ThumbnailSuffix) == (filename + ThumbnailSuffix, [])
  {
    SplitextExtension(filename);
    SplitextExtension(filename + ThumbnailSuffix);
  }

  /**
   * The proxy name splits back into the file's own extension and its stem
   * followed by "-thumbnail".
   */
  lemma ThumbnailNameSplit(filename: string)
    requires Sep !in filename
    ensures Splitext(ThumbnailName(filename))
            == (Splitext(filename).0 + ThumbnailSuffix, Splitext(filename).1)
  {
    var split := Splitext(filename);
    var stem, ext := split.0, split.1;
    assert ThumbnailName(filename) == stem + ThumbnailSuffix + ext;
    if ext != [] {
      SplitextAfterSuffix(stem, ext);
    } else {
      assert stem == filename;
      SplitextWithoutExtension(filename);
    }
  }

  /** Distinct file names get distinct proxy names. */
  lemma ThumbnailNameInjective(f1: string, f2: string)
    requires Sep !in f1 && Sep !in f2
    requires ThumbnailName(f1) == ThumbnailName(f2)
    ensures f1 == f2
  {
    ThumbnailNameSplit(f1);
    ThumbnailNameSplit(f2);
    var (s1, e1) := Splitext(f1);
    var (s2, e2) := Splitext(f2);
    assert s1 + ThumbnailSuffix == s2 + ThumbnailSuffix;
    assert s1 == (s1 + ThumbnailSuffix)[..|s1|];
  }

  /** `os.path.dirname(shadow_path)`: the directory `process_media` creates. */
  function ShadowDir(originalPath: string, rootDir: string, shadowRoot: string): (r: string)
  {
    Dirname(ShadowPath(originalPath, rootDir, shadowRoot))
  }

  /**
   * `os.path.join(shadow_dir, filename + '-thumbnail' + ext)`: the proxy sits
   * in the shadow directory of the original.
   */
  function ThumbnailPath(originalPath: string, filename: string, rootDir: string,
                         shadowRoot: string): (r: string)
    ensures EndsWith(r, ThumbnailName(filename))
  {
    Join(ShadowDir(originalPath, rootDir, shadowRoot), ThumbnailName(filename))
  }

  /** The proxy's directory is the one `process_media` creates, and its base name the proxy name. */
  lemma ThumbnailInShadowDir(originalPath: string, filename: string, rootDir: string, shadowRoot: string)
    requires filename != [] && Sep !in filename
    requires ShadowDir(originalPath, rootDir, shadowRoot) == []
             || NoTrailingSep(ShadowDir(originalPath, rootDir, shadowRoot))
    ensures Dirname(ThumbnailPath(originalPath, filename, rootDir, shadowRoot))
            == ShadowDir(originalPath, rootDir, shadowRoot)
    ensures Basename(ThumbnailPath(originalPath, filename, rootDir, shadowRoot))
            == ThumbnailName(filename)
  {
    JoinSplit(ShadowDir(originalPath, rootDir, shadowRoot), ThumbnailName(filename));
  }

  /** A non-empty path without a trailing separator. */
  predicate NoTrailingSep(p: string) {
    p != [] && p[|p| - 1] != Sep
  }

  /** A path tail below a directory: empty, or `/`-led without a trailing `/`. */
  predicate SubPath(rest: string) {
    rest == [] || (rest[0] == Sep && rest[|rest| - 1] != Sep)
  }

  /** Joining onto a directory without a trailing separator inserts one. */
  lemma JoinInsertsSep(dir: string, name: string)
    requires NoTrailingSep(dir) && name != [] && Sep !in name
    ensures Join(dir, name) == dir + [Sep] + name
  {
    assert name[0] != Sep;
  }

  /** The shadow path of `root + rest/file` is `shadowRoot + rest/file`. */
  lemma ShadowPathBelowRoot(rootDir: string, shadowRoot: string, rest: string, file: string)
    requires NoTrailingSep(rootDir) && SubPath(rest) && file != [] && Sep !in file
    ensures ShadowPath(Join(rootDir + rest, file), rootDir, shadowRoot)
            == shadowRoot + rest + [Sep] + file
  {
    JoinInsertsSep(rootDir + rest, file);
    var p, tail := rootDir + rest + [Sep] + file, rest + [Sep] + file;
    AppendAssoc4(rootDir, rest, [Sep], file);
    AppendAssoc4(shadowRoot, rest, [Sep], file);
    assert p[|rootDir|..] == tail;
    ShadowPathAtRoot(p, rootDir, shadowRoot);
  }

  /**
   * Mirroring: a file `rest/file` below the root gets its proxy at
   * `rest/<stem>-thumbnail<ext>` below the shadow root.
   */
  lemma ThumbnailMirrors(rootDir: string, shadowRoot: string, rest: string, file: string)
    requires NoTrailingSep(rootDir) && NoTrailingSep(shadowRoot) && SubPath(rest)
    requires file != [] && Sep !in file
    ensures ThumbnailPath(Join(rootDir + rest, file), file, rootDir, shadowRoot)
            == shadowRoot + rest + [Sep] + ThumbnailName(file)
  {
    var shadowDir := shadowRoot + rest;
    assert NoTrailingSep(shadowDir);
    ShadowPathBelowRoot(rootDir, shadowRoot, rest, file);
    JoinInsertsSep(shadowDir, file);
    JoinSplit(shadowDir, file);
    JoinInsertsSep(shadowDir, ThumbnailName(file));
  }

  /** A path ending in `/name`, with no separator in `name`, determines its directory and name. */
  lemma SplitAtLastSep(d1: string, n1: string, d2: string, n2: string)
    requires Sep !in n1 && Sep !in n2
    requires d1 + [Sep] + n1 == d2 + [Sep] + n2
    ensures d1 == d2 && n1 == n2
  {
    RSplitOnceUnique(d1 + [Sep] + n1, Sep, d1, n1);
    RSplitOnceUnique(d2 + [Sep] + n2, Sep, d2, n2);
  }

  /** Two distinct files below the root never share a proxy path. */
  lemma ThumbnailPathsDistinct(rootDir: string, shadowRoot: string,
                               rest1: string, file1: string, rest2: string, file2: string)
    requires NoTrailingSep(rootDir) && NoTrailingSep(shadowRoot)
    requires SubPath(rest1) && file1 != [] && Sep !in file1
    requires SubPath(rest2) && file2 != [] && Sep !in file2
    requires rest1 != rest2 || file1 != file2
    ensures ThumbnailPath(Join(rootDir + rest1, file1), file1, rootDir, shadowRoot)
            != ThumbnailPath(Join(rootDir + rest2, file2), file2, rootDir, shadowRoot)
  {
    ThumbnailMirrors(rootDir, shadowRoot, rest1, file1);
    ThumbnailMirrors(rootDir, shadowRoot, rest2, file2);
    var d1, d2 := shadowRoot + rest1, shadowRoot + rest2;
    var n1, n2 := ThumbnailName(file1), ThumbnailName(file2);
    if d1 + [Sep] + n1 == d2 + [Sep] + n2 {
      SplitAtLastSep(d1, n1, d2, n2);
      assert rest1 == d1[|shadowRoot|..] && rest2 == d2[|shadowRoot|..];
      ThumbnailNameInjective(file1, file2);
      assert false;
    }
  }

  /**
   * The path `process_image` saves to: with a dot, `ImageInfix` goes before
   * the last dot of the whole path; without one, the path is kept.
   */
  function ImageSavePath(thumbnailPath: string): (r: string)
    ensures ExtSep !in thumbnailPath ==> r == thumbnailPath
    ensures ExtSep in thumbnailPath ==> ExtSep in r
    ensures ExtSep in thumbnailPath ==>
              RSplitOnce(r, ExtSep).value.1 == RSplitOnce(thumbnailPath, ExtSep).value.1
  {
    match RSplitOnce(thumbnailPath, ExtSep)
    case None => thumbnailPath
    case Some((prefix, suffix)) =>
      RSplitOnceUnique(prefix + ImageInfix + [ExtSep] + suffix, ExtSep, prefix + ImageInfix, suffix);
      prefix + ImageInfix + [ExtSep] + suffix
  }

  /** Any split of the path at its last dot gives the saved path by inserting the infix there. */
  lemma ImageSavePathAtLastDot(prefix: string, suffix: string)
    requires ExtSep !in suffix
    ensures ImageSavePath(prefix + [ExtSep] + suffix) == prefix + ImageInfix + [ExtSep] + suffix
  {
    RSplitOnceUnique(prefix + [ExtSep] + suffix, ExtSep, prefix, suffix);
  }

  /** Distinct proxy paths give distinct image save paths. */
  lemma ImageSavePathInjective(t1: string, t2: string)
    requires ImageSavePath(t1) == ImageSavePath(t2)
    ensures t1 == t2
  {
    if ExtSep in t1 && ExtSep in t2 {
      var (a1, b1) := RSplitOnce(t1, ExtSep).value;
      var (a2, b2) := RSplitOnce(t2, ExtSep).value;
      var r := ImageSavePath(t1);
      RSplitOnceUnique(r, ExtSep, a1 + ImageInfix, b1);
      RSplitOnceUnique(r, ExtSep, a2 + ImageInfix, b2);
      assert a1 == (a1 + ImageInfix)[..|a1|];
      assert a2 == (a2 + ImageInfix)[..|a2|];
    }
  }

  /**
   * When the proxy's base name has no dot but a directory name does, the
   * infix lands in that directory name and the base name is kept.
   */
  lemma ImageInfixInDirectoryName(dir: string, name: string)
    requires ExtSep in dir && name != [] && Sep !in name && ExtSep !in name
    ensures ImageSavePath(dir + [Sep] + name) != dir + [Sep] + name
    ensures EndsWith(ImageSavePath(dir + [Sep] + name), [Sep] + name)
  {
    var (a, b) := RSplitOnce(dir, ExtSep).value;
    var p := dir + [Sep] + name;
    assert p == a + [ExtSep] + (b + [Sep] + name);
    ImageSavePathAtLastDot(a, b + [Sep] + name);
    assert ImageSavePath(p) == (a + ImageInfix + [ExtSep] + b) + ([Sep] + name);
  }
}
