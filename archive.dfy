/**
 * `All2PDF.create_zip_file`: every path of the list is written into a new zip
 * archive under its base name (`os.path.basename`), in list order. A path that
 * does not exist makes `ZipFile.write` raise and no archive path is returned.
 */
module Archive {

  import opened Common

  /** `path.rfind('/') + 1`: where the last component starts. */
  function ComponentStart(p: Path): (n: nat)
    ensures n <= |p|
    ensures n == 0 || p[n - 1] == '/'
    ensures forall k :: n <= k < |p| ==> p[k] != '/'
  {
    if p == [] then 0
    else if p[|p| - 1] == '/' then |p|
    else ComponentStart(p[..|p| - 1])
  }

  /** `posixpath.basename`: everything after the last '/'. */
  function Basename(p: Path): (r: Path)
    ensures '/' !in r
    ensures |r| <= |p| && r == p[|p| - |r|..]
    ensures |r| == |p| || p[|p| - |r| - 1] == '/'
  {
    p[ComponentStart(p)..]
  }

  /** A name without a '/' is its own base name. */
  lemma BasenameOfPlain(name: Path)
    requires '/' !in name
    ensures Basename(name) == name
  {
  }

  /** Taking the base name twice changes nothing. */
  lemma BasenameIdempotent(p: Path)
    ensures Basename(Basename(p)) == Basename(p)
  {
    BasenameOfPlain(Basename(p));
  }

  /** A file in any directory is archived under its own name. */
  lemma {:induction false} BasenameOfJoin(dir: Path, name: Path)
    requires '/' !in name
    ensures Basename(dir + "/" + name) == name
  {
    var p := dir + "/" + name;
    var r := Basename(p);
    assert p[|dir|] == '/';
    assert p[|dir| + 1..] == name;
  }

  /** One member of the archive: its name inside the zip and the file it copies. */
  datatype ZipEntry = ZipEntry(arcname: Path, source: Path)

  /** The archive as the list of `zipf.write` calls; duplicate names are kept. */
  function Entries(paths: seq<Path>): (r: seq<ZipEntry>)
    ensures |r| == |paths|
    ensures forall k :: 0 <= k < |paths| ==> r[k].source == paths[k] && r[k].arcname == Basename(paths[k])
  {
    seq(|paths|, k requires 0 <= k < |paths| => ZipEntry(Basename(paths[k]), paths[k]))
  }

  /** Writing one more file appends one entry for it. */
  lemma EntriesSnoc(paths: seq<Path>, p: Path)
    ensures Entries(paths + [p]) == Entries(paths) + [ZipEntry(Basename(p), p)]
  {
    var r := Entries(paths) + [ZipEntry(Basename(p), p)];
    assert forall k :: 0 <= k < |paths| ==> (paths + [p])[k] == paths[k];
    assert Entries(paths + [p])[|paths|] == r[|paths|];
  }

  /** A finished archive at a temporary path. */
  datatype ZipArchive = ZipArchive(path: Path, entries: seq<ZipEntry>)

  predicate AllPresent(present: set<Path>, paths: seq<Path>) {
    forall k :: 0 <= k < |paths| ==> paths[k] in present
  }

  /**
   * The loop of `create_zip_file`. `present` is the set of existing files and
   * `zipPath` the temporary file name the system chooses.
   */
  method CreateZipFile(present: set<Path>, paths: seq<Path>, zipPath: Path) returns (zip: Option<ZipArchive>)
    ensures zip.Some? <==> AllPresent(present, paths)
    ensures zip.Some? ==> zip.value == ZipArchive(zipPath, Entries(paths))
  {
    var entries: seq<ZipEntry> := [];
    for i := 0 to |paths|
      invariant entries == Entries(paths[..i])
      invariant forall k :: 0 <= k < i ==> paths[k] in present
    {
      if paths[i] !in present {
        assert !AllPresent(present, paths);
        return None;
      }
      entries := entries + [ZipEntry(Basename(paths[i]), paths[i])];
      assert paths[..i + 1] == paths[..i] + [paths[i]];
      EntriesSnoc(paths[..i], paths[i]);
    }
    assert paths[..|paths|] == paths;
    return Some(ZipArchive(zipPath, entries));
  }

  /** Every archive name is the last component of the file it came from, so no name holds a '/'. */
  lemma EntriesAreFlat(paths: seq<Path>, e: ZipEntry)
    requires e in Entries(paths)
    ensures '/' !in e.arcname && e.source in paths
    ensures e.arcname == e.source[|e.source| - |e.arcname|..]
  {
    var entries := Entries(paths);
    var k :| 0 <= k < |entries| && entries[k] == e;
    assert e.source == paths[k] && e.arcname == Basename(paths[k]);
  }

}
