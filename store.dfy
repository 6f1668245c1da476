/** The key mapping of `store_files_to_s3` (rosbag_parser/main.py:243-255): every file
    found under the pictures root is uploaded under its path with the root prefix
    removed, and the successful uploads are counted. */
module Store {
  import opened Strings
  import opened CivilTime
  import opened TimeWindow
  import opened OutputNaming

  /** `os.path.join(a, b)` for two parts: an absolute `b` replaces `a`; otherwise a
      slash is put between them unless `a` is empty or already ends in one. */
  function PathJoin(a: string, b: string): string
  {
    if b != [] && b[0] == '/' then b
    else if a == [] || a[|a| - 1] == '/' then a + b
    else a + "/" + b
  }

  /** The prefix removed at line 248. */
  const RootPrefix := DestinationLocalPictures + "/"

  /** The object key of line 248: the path with every occurrence of the root
      prefix removed. */
  function ObjectKey(fileToStore: string): string
  {
    ReplaceAll(fileToStore, RootPrefix, "")
  }

  /** The prefix cannot occur in a string whose slashes are at no more than
      three places: the prefix has four. */
  lemma RootPrefixAbsent(rel: string, p1: int, p2: int, p3: int)
    requires forall k :: 0 <= k < |rel| && k != p1 && k != p2 && k != p3 ==> rel[k] != '/'
    ensures Find(rel, RootPrefix) < 0
  {
    forall j | 0 <= j ensures !OccursAt(rel, RootPrefix, j) {
      NotAt(rel, p1, p2, p3, j);
    }
  }

  lemma NotAt(rel: string, p1: int, p2: int, p3: int, j: int)
    requires forall k :: 0 <= k < |rel| && k != p1 && k != p2 && k != p3 ==> rel[k] != '/'
    ensures !OccursAt(rel, RootPrefix, j)
  {
    assert RootPrefix == "/data1/s3/pictures/";
    if 0 <= j && j + 19 <= |rel| {
      var w := rel[j..j + 19];
      assert w[0] == rel[j] && w[6] == rel[j + 6] && w[9] == rel[j + 9] && w[18] == rel[j + 18];
      if w == RootPrefix {
        assert false;
      }
    }
  }

  /** The key of a path below the root is the rest of the path, provided the
      prefix does not occur again in that rest. */
  lemma ObjectKeyStripsRoot(rel: string)
    requires Find(rel, RootPrefix) < 0
    ensures ObjectKey(RootPrefix + rel) == rel
  {
    ReplaceAllAbsent(rel, RootPrefix, "");
    var p := RootPrefix + rel;
    assert p[..|RootPrefix|] == RootPrefix && p[|RootPrefix|..] == rel;
  }

  /** The key under which a picture of the routine is stored: the walk finds it in
      its folder (the folder path without its last slash) and the key is its path
      below the pictures root, `topic_str/datatype/suffix/time_str(base).png`. */
  lemma PictureKey(topic: string, dataType: string, w: Window, fileName: string, secs: Uint32, nsecs: Uint32)
    requires 0 <= w.start < MaxSeconds && 0 <= w.end < MaxSeconds
    requires '/' !in dataType
    ensures var dir := OutDirName(topic, dataType, FolderSuffix(w));
      var file := OutFileName(fileName, secs, nsecs) + ".png";
      && PathJoin(dir[..|dir| - 1], file) == dir + file
      && ObjectKey(PathJoin(dir[..|dir| - 1], file)) == RelativePath(topic, dataType, FolderSuffix(w), fileName, secs, nsecs)
  {
    var suffix := FolderSuffix(w);
    var stem := OutFileName(fileName, secs, nsecs);
    FolderSuffixSpec(w);
    TopicStrSpec(topic);
    OutFileNameNoSlash(fileName, secs, nsecs);
    TimeStrSpec(secs, nsecs);
    assert stem[0] == TimeStr(secs, nsecs)[0];
    assert TimeStr(secs, nsecs)[0] in TimeStr(secs, nsecs);
    FolderKey(TopicStr(topic), dataType, suffix, stem);
  }

  /** A picture `d.png` in the folder `root/a/b/c/` with slash-free components is
      found by the walk in `root/a/b/c` and keyed `a/b/c/d.png`. */
  lemma FolderKey(a: string, b: string, c: string, d: string)
    requires '/' !in a && '/' !in b && '/' !in c && '/' !in d
    requires c != [] && d != []
    ensures var dir := DestinationLocalPictures + "/" + a + "/" + b + "/" + c + "/";
      && PathJoin(dir[..|dir| - 1], d + ".png") == dir + (d + ".png")
      && ObjectKey(dir + (d + ".png")) == a + "/" + b + "/" + c + "/" + d + ".png"
  {
    var dir := DestinationLocalPictures + "/" + a + "/" + b + "/" + c + "/";
    var root := dir[..|dir| - 1];
    assert root[|root| - 1] == c[|c| - 1];
    assert c[|c| - 1] in c;
    assert d[0] in d;
    assert dir == root + "/";
    var rel := a + "/" + b + "/" + c + "/" + d + ".png";
    assert dir + (d + ".png") == RootPrefix + rel;
    RelativeSlashes(a, b, c, d);
    RootPrefixAbsent(rel, |a|, |a| + 1 + |b|, |a| + |b| + |c| + 2);
    ObjectKeyStripsRoot(rel);
  }

  /** `a/b/c/d.png` with slash-free parts has slashes at three places only. */
  lemma RelativeSlashes(a: string, b: string, c: string, d: string)
    requires '/' !in a && '/' !in b && '/' !in c && '/' !in d
    ensures var rel := a + "/" + b + "/" + c + "/" + d + ".png";
      forall k :: 0 <= k < |rel| && k != |a| && k != |a| + 1 + |b| && k != |a| + |b| + |c| + 2 ==> rel[k] != '/'
  {
    var rel := a + "/" + b + "/" + c + "/" + d + ".png";
    var q1, q2, q3 := |a|, |a| + 1 + |b|, |a| + |b| + |c| + 2;
    forall k | 0 <= k < |rel| && k != q1 && k != q2 && k != q3 ensures rel[k] != '/' {
      if k < q1 {
        assert rel[k] == a[k];
        assert a[k] in a;
      } else if k < q2 {
        assert rel[k] == b[k - q1 - 1];
        assert b[k - q1 - 1] in b;
      } else if k < q3 {
        assert rel[k] == c[k - q2 - 1];
        assert c[k - q2 - 1] in c;
      } else if k < q3 + 1 + |d| {
        assert rel[k] == d[k - q3 - 1];
        assert d[k - q3 - 1] in d;
      } else {
        assert rel[k] == ".png"[k - q3 - 1 - |d|];
      }
    }
  }

  /** One upload: the local file and its object key. */
  datatype Upload = Upload(file: string, key: string)

  /** The uploads for the files of one walked directory, in order. */
  function RootUploads(root: string, files: seq<string>): seq<Upload>
  {
    if files == [] then []
    else
      var f := PathJoin(root, files[|files| - 1]);
      RootUploads(root, files[..|files| - 1]) + [Upload(f, ObjectKey(f))]
  }

  /** The uploads for a whole walk, directory after directory. */
  function WalkUploads(walk: seq<(string, seq<string>)>): seq<Upload>
  {
    if walk == [] then []
    else WalkUploads(walk[..|walk| - 1]) + RootUploads(walk[|walk| - 1].0, walk[|walk| - 1].1)
  }

  /** How many of the uploads succeed. */
  function Succeeded(uploads: seq<Upload>, upload: Upload -> bool): nat
  {
    if uploads == [] then 0
    else Succeeded(uploads[..|uploads| - 1], upload) + (if upload(uploads[|uploads| - 1]) then 1 else 0)
  }

  /** The counter is at most the number of files and equals it exactly when
      every upload succeeds. */
  lemma {:induction false} SucceededBound(uploads: seq<Upload>, upload: Upload -> bool)
    ensures Succeeded(uploads, upload) <= |uploads|
    ensures Succeeded(uploads, upload) == |uploads| <==> forall k :: 0 <= k < |uploads| ==> upload(uploads[k])
  {
    if uploads != [] {
      var init := uploads[..|uploads| - 1];
      SucceededBound(init, upload);
      assert forall k :: 0 <= k < |init| ==> init[k] == uploads[k];
    }
  }

  /** The loops at lines 243-250: every file of every walked directory is
      uploaded under its key, and `num_files` counts the uploads that succeed.
      `walk` is what `os.walk(DESTINATION_LOCAL_PICTURES)` yields, as pairs of a
      directory and its files; `upload` tells whether `upload_file_to_s3`
      succeeds. */
  method StoreFiles(walk: seq<(string, seq<string>)>, upload: Upload -> bool) returns (uploads: seq<Upload>, numFiles: nat)
    ensures uploads == WalkUploads(walk)
    ensures numFiles == Succeeded(uploads, upload)
  {
    uploads := [];
    numFiles := 0;
    var i := 0;
    while i < |walk|
      invariant 0 <= i <= |walk|
      invariant uploads == WalkUploads(walk[..i])
      invariant numFiles == Succeeded(uploads, upload)
    {
      uploads, numFiles := StoreDirectory(walk[i].0, walk[i].1, upload, uploads, numFiles);
      assert walk[..i + 1][..i] == walk[..i];
      i := i + 1;
    }
    assert walk[..|walk|] == walk;
  }

  /** The inner loop: the files of one directory, carrying the uploads and the
      counter on from the directories before. */
  method StoreDirectory(root: string, files: seq<string>, upload: Upload -> bool, uploads0: seq<Upload>, numFiles0: nat)
    returns (uploads: seq<Upload>, numFiles: nat)
    requires numFiles0 == Succeeded(uploads0, upload)
    ensures uploads == uploads0 + RootUploads(root, files)
    ensures numFiles == Succeeded(uploads, upload)
  {
    uploads, numFiles := uploads0, numFiles0;
    var j := 0;
    while j < |files|
      invariant 0 <= j <= |files|
      invariant uploads == uploads0 + RootUploads(root, files[..j])
      invariant numFiles == Succeeded(uploads, upload)
    {
      var fileToStore := PathJoin(root, files[j]);
      var objectToStore := ObjectKey(fileToStore);
      var u := Upload(fileToStore, objectToStore);
      RootUploadsSnoc(root, files, j);
      SucceededSnoc(uploads, u, upload);
      uploads := uploads + [u];
      if upload(u) {
        numFiles := numFiles + 1;
      }
      j := j + 1;
    }
    assert files[..|files|] == files;
  }

  lemma RootUploadsSnoc(root: string, files: seq<string>, j: int)
    requires 0 <= j < |files|
    ensures RootUploads(root, files[..j + 1])
         == RootUploads(root, files[..j]) + [Upload(PathJoin(root, files[j]), ObjectKey(PathJoin(root, files[j])))]
  {
    assert files[..j + 1][..j] == files[..j];
  }

  lemma SucceededSnoc(uploads: seq<Upload>, u: Upload, upload: Upload -> bool)
    ensures Succeeded(uploads + [u], upload) == Succeeded(uploads, upload) + (if upload(u) then 1 else 0)
  {
    assert (uploads + [u])[..|uploads|] == uploads;
  }
}
