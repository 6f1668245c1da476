/** The driver: `process_bag_files` (rosbag_parser/main.py:177-211) checks the window,
    picks and sorts the bag files and hands each to `process_bag_file` (158-174),
    which turns every record the reader yields into a call of `process_bag_message`
    (129-155). The file system is a value threaded through the calls; the bag
    reader is a function from a file name to the records it yields. The routine
    catches no exception, so the first error ends the whole run with the effects
    made so far. */
module BatchDriver {
  import opened Wrappers
  import opened Strings
  import opened FileNames
  import opened MessageFilter
  import opened CivilTime
  import opened TimeWindow
  import opened OutputNaming
  import opened Sorting

  /** A record yielded by `read_messages`: its topic, the printed class of the
      message, its stamp, and whether the image library can decode it. */
  datatype Record = Record(topic: string, classRepr: string, secs: Uint32, nsecs: Uint32, decodes: bool)

  /** What reading one bag gives: the records yielded, in order, and whether the
      reader raises after them (a bag that cannot be opened yields none). */
  datatype BagRead = BagRead(records: seq<Record>, fails: bool)

  /** An image written by `cv2.imwrite`: its folder and its file name. */
  datatype Picture = Picture(dir: string, file: string)

  /** The effects of a run: the directories that exist, those `os.makedirs`
      created (in order), the images written (in order) and the bag files handed
      to `process_bag_file` (in order). */
  datatype Disk = Disk(dirs: set<string>, created: seq<string>, pictures: seq<Picture>, processed: seq<string>)

  /** The exception that ends a run. */
  datatype RunError =
    | WindowRejected(reason: WindowError)  // lines 184-202
    | TypeTagMissing                      // `IndexError` at line 171
    | DecodeFailed                        // the image library raised at line 142 or 144
    | ImageUnbound                        // `img` unbound at line 149
    | BagReadFailed                       // `rosbag.Bag` or `read_messages` raised

  datatype Outcome = Outcome(disk: Disk, error: Option<RunError>)

  /** The tags for which an image is decoded (lines 141-144). */
  predicate IsImageTag(dataType: string) {
    dataType == "Image" || dataType == "CompressedImage"
  }

  /** The folder and file of the image for a record with the given tag. */
  function RecordPicture(fileName: string, suffix: string, r: Record, dataType: string): Picture
  {
    Picture(OutDirName(r.topic, dataType, suffix), OutFileName(fileName, r.secs, r.nsecs) + ".png")
  }

  /** `process_bag_message` for a record whose tag is `dataType`. */
  function MessageStep(d: Disk, fileName: string, suffix: string, r: Record, dataType: string): Outcome
  {
    if IsImageTag(dataType) && !r.decodes then Outcome(d, Some(DecodeFailed))
    else
      var pic := RecordPicture(fileName, suffix, r, dataType);
      var d1 := if pic.dir in d.dirs then d else d.(dirs := d.dirs + {pic.dir}, created := d.created + [pic.dir]);
      if IsImageTag(dataType) then Outcome(d1.(pictures := d1.pictures + [pic]), None)
      else Outcome(d1, Some(ImageUnbound))
  }

  /** One turn of the loop at lines 169-172: the tag, then the message. */
  function RecordStep(d: Disk, fileName: string, suffix: string, r: Record): Outcome
  {
    match TypeTag(r.classRepr)
    case None => Outcome(d, Some(TypeTagMissing))
    case Some(dataType) => MessageStep(d, fileName, suffix, r, dataType)
  }

  /** The loop at lines 169-172 over the records, up to the first error. */
  function RecordsStep(d: Disk, fileName: string, suffix: string, records: seq<Record>): Outcome
    decreases |records|
  {
    if records == [] then Outcome(d, None)
    else
      var o := RecordStep(d, fileName, suffix, records[0]);
      if o.error.Some? then o else RecordsStep(o.disk, fileName, suffix, records[1..])
  }

  /** `process_bag_file`, given the window's folder suffix. */
  function FileStep(d: Disk, fileName: string, suffix: string, read: string -> BagRead): Outcome
  {
    var bag := read(fileName);
    var o := RecordsStep(d.(processed := d.processed + [fileName]), fileName, suffix, bag.records);
    if o.error.None? && bag.fails then Outcome(o.disk, Some(BagReadFailed)) else o
  }

  /** The loop at lines 210-211, up to the first error. */
  function FilesStep(d: Disk, files: seq<string>, suffix: string, read: string -> BagRead): Outcome
    decreases |files|
  {
    if files == [] then Outcome(d, None)
    else
      var o := FileStep(d, files[0], suffix, read);
      if o.error.Some? then o else FilesStep(o.disk, files[1..], suffix, read)
  }

  /** The candidate list of `process_bag_files`: each entry whose lower-cased
      extension is `.bag`, prefixed with the directory, in listing order. */
  function BagFiles(pathToFiles: string, entries: seq<string>): seq<string>
  {
    if entries == [] then []
    else (if IsBagFile(entries[0]) then [pathToFiles + entries[0]] else []) + BagFiles(pathToFiles, entries[1..])
  }

  /** `process_bag_files`, with `entries` what `os.listdir(path_to_files)` returns. */
  function Run(d: Disk, pathToFiles: string, entries: seq<string>, startTime: Option<string>, endTime: Option<string>,
               read: string -> BagRead): Outcome
  {
    match ValidateWindow(startTime, endTime)
    case Err(e) => Outcome(d, Some(WindowRejected(e)))
    case Ok(w) => FilesStep(d, Sort(BagFiles(pathToFiles, entries)), FolderSuffix(w), read)
  }

  /** `process_bag_message`: decode the image when the tag is known, create the
      folder when it is missing, then write. */
  method ProcessBagMessage(d: Disk, fileName: string, r: Record, dataType: string, suffix: string) returns (o: Outcome)
    ensures o == MessageStep(d, fileName, suffix, r, dataType)
  {
    if IsImageTag(dataType) && !r.decodes {
      return Outcome(d, Some(DecodeFailed));
    }
    var disk := d;
    var outDirName := OutDirName(r.topic, dataType, suffix);
    var outFileName := OutFileName(fileName, r.secs, r.nsecs);
    if outDirName !in disk.dirs {
      disk := disk.(dirs := disk.dirs + {outDirName}, created := disk.created + [outDirName]);
    }
    if !IsImageTag(dataType) {
      return Outcome(disk, Some(ImageUnbound));
    }
    disk := disk.(pictures := disk.pictures + [Picture(outDirName, outFileName + ".png")]);
    return Outcome(disk, None);
  }

  /** `process_bag_file`: the folder suffix, then every record in order. */
  method ProcessBagFile(d: Disk, fileName: string, w: Window, read: string -> BagRead) returns (o: Outcome)
    requires 0 <= w.start < MaxSeconds && 0 <= w.end < MaxSeconds
    ensures o == FileStep(d, fileName, FolderSuffix(w), read)
  {
    var folderNameSuffix := FolderSuffix(w);
    var bag := read(fileName);
    o := ProcessRecords(d.(processed := d.processed + [fileName]), fileName, folderNameSuffix, bag.records);
    if o.error.None? && bag.fails {
      o := Outcome(o.disk, Some(BagReadFailed));
    }
  }

  /** The loop at lines 169-172: the tag of each record, then the record, up to
      the first error. */
  method ProcessRecords(d: Disk, fileName: string, suffix: string, records: seq<Record>) returns (o: Outcome)
    ensures o == RecordsStep(d, fileName, suffix, records)
  {
    var disk := d;
    var i := 0;
    while i < |records|
      invariant 0 <= i <= |records|
      invariant RecordsStep(d, fileName, suffix, records) == RecordsStep(disk, fileName, suffix, records[i..])
    {
      var r := records[i];
      RecordsStepUnfold(disk, fileName, suffix, records, i);
      var dataType := TypeTag(r.classRepr);
      if dataType.None? {
        return Outcome(disk, Some(TypeTagMissing));
      }
      var step := ProcessBagMessage(disk, fileName, r, dataType.value, suffix);
      if step.error.Some? {
        return step;
      }
      disk := step.disk;
      i := i + 1;
    }
    return Outcome(disk, None);
  }

  /** `process_bag_files`: validate the window, then process the sorted bag files
      one after the other. */
  method ProcessBagFiles(d: Disk, pathToFiles: string, entries: seq<string>, startTime: Option<string>,
                         endTime: Option<string>, read: string -> BagRead) returns (o: Outcome)
    ensures o == Run(d, pathToFiles, entries, startTime, endTime, read)
  {
    var window := ValidateWindow(startTime, endTime);
    if window.Err? {
      return Outcome(d, Some(WindowRejected(window.error)));
    }
    var w := window.value;
    var lstFiles := Sort(BagFiles(pathToFiles, entries));
    var disk := d;
    var i := 0;
    while i < |lstFiles|
      invariant 0 <= i <= |lstFiles|
      invariant FilesStep(d, lstFiles, FolderSuffix(w), read) == FilesStep(disk, lstFiles[i..], FolderSuffix(w), read)
    {
      FilesStepUnfold(disk, lstFiles, FolderSuffix(w), read, i);
      var step := ProcessBagFile(disk, lstFiles[i], w, read);
      if step.error.Some? {
        return step;
      }
      disk := step.disk;
      i := i + 1;
    }
    return Outcome(disk, None);
  }

  /** One turn of the record loop, seen from index `i`. */
  lemma RecordsStepUnfold(d: Disk, fileName: string, suffix: string, records: seq<Record>, i: int)
    requires 0 <= i < |records|
    ensures var o := RecordStep(d, fileName, suffix, records[i]);
      RecordsStep(d, fileName, suffix, records[i..])
        == if o.error.Some? then o else RecordsStep(o.disk, fileName, suffix, records[i + 1..])
  {
    assert records[i..][0] == records[i] && records[i..][1..] == records[i + 1..];
  }

  /** One turn of the file loop, seen from index `i`. */
  lemma FilesStepUnfold(d: Disk, files: seq<string>, suffix: string, read: string -> BagRead, i: int)
    requires 0 <= i < |files|
    ensures var o := FileStep(d, files[i], suffix, read);
      FilesStep(d, files[i..], suffix, read) == if o.error.Some? then o else FilesStep(o.disk, files[i + 1..], suffix, read)
  {
    assert files[i..][0] == files[i] && files[i..][1..] == files[i + 1..];
  }

  /** A record the run gets through: its tag exists, is an image tag, and the
      image decodes. */
  predicate RecordOk(r: Record) {
    var t := TypeTag(r.classRepr);
    t.Some? && IsImageTag(t.value) && r.decodes
  }

  /** A bag the run gets through: every record it yields is fine and the reader
      does not raise. */
  predicate FileOk(fileName: string, read: string -> BagRead) {
    var bag := read(fileName);
    !bag.fails && forall k :: 0 <= k < |bag.records| ==> RecordOk(bag.records[k])
  }

  /** Every bag of the list is fine. */
  predicate AllFilesOk(files: seq<string>, read: string -> BagRead) {
    forall k :: 0 <= k < |files| ==> FileOk(files[k], read)
  }

  /** The images the records of one bag ask for, in order. */
  function RecordPictures(fileName: string, suffix: string, records: seq<Record>): seq<Picture>
    decreases |records|
  {
    if records == [] then []
    else
      var t := TypeTag(records[0].classRepr);
      (if t.Some? then [RecordPicture(fileName, suffix, records[0], t.value)] else [])
        + RecordPictures(fileName, suffix, records[1..])
  }

  /** The images a list of bags asks for, in order. */
  function FilesPictures(files: seq<string>, suffix: string, read: string -> BagRead): seq<Picture>
    decreases |files|
  {
    if files == [] then []
    else RecordPictures(files[0], suffix, read(files[0]).records) + FilesPictures(files[1..], suffix, read)
  }

  /** The folder of every image exists, every directory created exists, and none
      was created twice. */
  predicate DiskWf(d: Disk) {
    && (forall p :: p in d.pictures ==> p.dir in d.dirs)
    && (forall c :: c in d.created ==> c in d.dirs)
    && NoRepeats(d.created)
  }

  /** `e` follows from `d` by creating missing directories and appending to the
      logs: the directories of `e` are those of `d` and the ones created since,
      none of which existed before. */
  ghost predicate Extends(d: Disk, e: Disk) {
    && d.created <= e.created && d.pictures <= e.pictures && d.processed <= e.processed
    && (forall x :: x in e.dirs <==> x in d.dirs || x in e.created[|d.created|..])
    && (forall c :: c in e.created[|d.created|..] ==> c !in d.dirs)
  }

  lemma ExtendsTransitive(a: Disk, b: Disk, c: Disk)
    requires Extends(a, b) && Extends(b, c)
    ensures Extends(a, c)
  {
    assert c.created[|a.created|..] == b.created[|a.created|..] + c.created[|b.created|..];
  }

  lemma NoRepeatsAppend(s: seq<string>, x: string)
    requires NoRepeats(s) && x !in s
    ensures NoRepeats(s + [x])
  {
    assert multiset(s + [x]) == multiset(s) + multiset{x};
  }

  /** `process_bag_message` keeps the disk consistent, creates the folder only
      when it is missing, and writes exactly the record's image; it fails exactly
      when the tag is not an image tag or the image does not decode. A decode
      failure leaves the disk as it was; otherwise the record's folder is the only
      one that may be created, and a failing write adds no image. */
  lemma MessageStepSpec(d: Disk, fileName: string, suffix: string, r: Record, dataType: string)
    requires DiskWf(d)
    ensures var o := MessageStep(d, fileName, suffix, r, dataType);
      && DiskWf(o.disk) && Extends(d, o.disk) && o.disk.processed == d.processed
      && (o.error.None? <==> IsImageTag(dataType) && r.decodes)
      && (o.error.None? ==> o.disk.pictures == d.pictures + [RecordPicture(fileName, suffix, r, dataType)])
      && (o.error.Some? ==> o.error.value == DecodeFailed || o.error.value == ImageUnbound)
    ensures var o := MessageStep(d, fileName, suffix, r, dataType);
      var dir := RecordPicture(fileName, suffix, r, dataType).dir;
      && (o.error == Some(DecodeFailed) ==> o.disk == d)
      && (o.error != Some(DecodeFailed) ==>
            o.disk.dirs == d.dirs + {dir} && o.disk.created == d.created + (if dir in d.dirs then [] else [dir]))
      && (o.error.Some? ==> o.disk.pictures == d.pictures)
  {
    MessageStepFrame(d, fileName, suffix, r, dataType);
    var o := MessageStep(d, fileName, suffix, r, dataType);
    var dir := RecordPicture(fileName, suffix, r, dataType).dir;
    if !(IsImageTag(dataType) && !r.decodes) && dir !in d.dirs {
      NoRepeatsAppend(d.created, dir);
      assert o.disk.created[|d.created|..] == [dir];
    } else {
      assert o.disk.created[|d.created|..] == [];
    }
  }

  /** The new state of `process_bag_message`, field by field. */
  lemma MessageStepFrame(d: Disk, fileName: string, suffix: string, r: Record, dataType: string)
    ensures var o := MessageStep(d, fileName, suffix, r, dataType);
      var dir := RecordPicture(fileName, suffix, r, dataType).dir;
      && (o.error == Some(DecodeFailed) ==> o.disk == d)
      && (o.error != Some(DecodeFailed) ==>
            o.disk.dirs == d.dirs + {dir} && o.disk.created == d.created + (if dir in d.dirs then [] else [dir]))
      && (o.error.Some? ==> o.disk.pictures == d.pictures)
  {
  }

  /** An unknown tag is no error of the tag itself: the folder is still created
      when missing, nothing is decoded or written, and the write then fails on
      the unbound image. */
  lemma UnknownTag(d: Disk, fileName: string, suffix: string, r: Record, dataType: string, decodes: bool)
    requires !IsImageTag(dataType)
    ensures var o := MessageStep(d, fileName, suffix, r, dataType);
      && o == MessageStep(d, fileName, suffix, r.(decodes := decodes), dataType)
      && o.error == Some(ImageUnbound)
      && OutDirName(r.topic, dataType, suffix) in o.disk.dirs
      && o.disk.pictures == d.pictures
  {
  }

  /** The record loop keeps the disk consistent and only creates missing
      directories and appends images. */
  lemma {:induction false} RecordsStepWf(d: Disk, fileName: string, suffix: string, records: seq<Record>)
    requires DiskWf(d)
    ensures var o := RecordsStep(d, fileName, suffix, records);
      DiskWf(o.disk) && Extends(d, o.disk) && o.disk.processed == d.processed
    decreases |records|
  {
    if records == [] {
      assert d.created[|d.created|..] == [];
    } else {
      var r := records[0];
      var first := RecordStep(d, fileName, suffix, r);
      if TypeTag(r.classRepr).None? {
        assert d.created[|d.created|..] == [];
      } else {
        MessageStepSpec(d, fileName, suffix, r, TypeTag(r.classRepr).value);
        if first.error.None? {
          RecordsStepWf(first.disk, fileName, suffix, records[1..]);
          ExtendsTransitive(d, first.disk, RecordsStep(first.disk, fileName, suffix, records[1..]).disk);
        }
      }
    }
  }

  /** The record loop gets through exactly when every record is fine, and then it
      has written exactly the records' images; otherwise it stops on a tag, decode
      or write error. */
  lemma {:induction false} RecordsStepResult(d: Disk, fileName: string, suffix: string, records: seq<Record>)
    ensures var o := RecordsStep(d, fileName, suffix, records);
      && (o.error.None? <==> forall k :: 0 <= k < |records| ==> RecordOk(records[k]))
      && (o.error.None? ==> o.disk.pictures == d.pictures + RecordPictures(fileName, suffix, records))
      && (o.error.Some? ==> o.error.value in {TypeTagMissing, DecodeFailed, ImageUnbound})
    decreases |records|
  {
    if records != [] {
      var r := records[0];
      var first := RecordStep(d, fileName, suffix, r);
      if TypeTag(r.classRepr).Some? {
        var t := TypeTag(r.classRepr).value;
        MessageResult(d, fileName, suffix, r, t);
        if first.error.None? {
          var rest := records[1..];
          var o := RecordsStep(first.disk, fileName, suffix, rest);
          RecordsStepResult(first.disk, fileName, suffix, rest);
          AllRecordsOk(records);
          if o.error.None? {
            var pic := RecordPicture(fileName, suffix, r, t);
            assert RecordPictures(fileName, suffix, records) == [pic] + RecordPictures(fileName, suffix, rest);
            assert first.disk.pictures == d.pictures + [pic];
            AppendAssoc(d.pictures, [pic], RecordPictures(fileName, suffix, rest));
          }
        }
      }
    }
  }

  lemma AppendAssoc<T>(a: seq<T>, b: seq<T>, c: seq<T>)
    ensures (a + b) + c == a + (b + c)
  {
  }

  lemma AllRecordsOk(records: seq<Record>)
    requires records != []
    ensures (forall k :: 0 <= k < |records| ==> RecordOk(records[k]))
        <==> RecordOk(records[0]) && forall k :: 0 <= k < |records[1..]| ==> RecordOk(records[1..][k])
  {
    assert forall k :: 1 <= k < |records| ==> records[k] == records[1..][k - 1];
  }

  lemma MessageResult(d: Disk, fileName: string, suffix: string, r: Record, dataType: string)
    ensures var o := MessageStep(d, fileName, suffix, r, dataType);
      && (o.error.None? <==> IsImageTag(dataType) && r.decodes)
      && (o.error.None? ==> o.disk.pictures == d.pictures + [RecordPicture(fileName, suffix, r, dataType)])
      && (o.error.Some? ==> o.error.value == DecodeFailed || o.error.value == ImageUnbound)
      && (o.error.Some? ==> o.disk.pictures == d.pictures)
  {
  }

  /** `process_bag_file` records the file as processed, keeps the disk
      consistent, writes exactly its records' images when the bag is fine, and
      fails exactly when it is not. */
  lemma FileStepSpec(d: Disk, fileName: string, suffix: string, read: string -> BagRead)
    requires DiskWf(d)
    ensures var o := FileStep(d, fileName, suffix, read);
      && DiskWf(o.disk) && Extends(d, o.disk) && o.disk.processed == d.processed + [fileName]
      && (o.error.None? <==> FileOk(fileName, read))
      && (o.error.None? ==> o.disk.pictures == d.pictures + RecordPictures(fileName, suffix, read(fileName).records))
      && (o.error.Some? ==> !o.error.value.WindowRejected?)
  {
    var d1 := d.(processed := d.processed + [fileName]);
    RecordsStepWf(d1, fileName, suffix, read(fileName).records);
    RecordsStepResult(d1, fileName, suffix, read(fileName).records);
    ExtendsTransitive(d, d1, FileStep(d, fileName, suffix, read).disk);
    assert d1.created[|d.created|..] == [];
  }

  /** The file loop keeps the disk consistent and only creates missing
      directories and appends to the logs. */
  lemma {:induction false} FilesStepWf(d: Disk, files: seq<string>, suffix: string, read: string -> BagRead)
    requires DiskWf(d)
    ensures var o := FilesStep(d, files, suffix, read);
      DiskWf(o.disk) && Extends(d, o.disk)
    decreases |files|
  {
    if files == [] {
      assert d.created[|d.created|..] == [];
    } else {
      var first := FileStep(d, files[0], suffix, read);
      FileStepSpec(d, files[0], suffix, read);
      if first.error.None? {
        FilesStepWf(first.disk, files[1..], suffix, read);
        ExtendsTransitive(d, first.disk, FilesStep(first.disk, files[1..], suffix, read).disk);
      }
    }
  }

  /** The record loop does not touch the list of processed bags. */
  lemma {:induction false} RecordsStepKeepsProcessed(d: Disk, fileName: string, suffix: string, records: seq<Record>)
    ensures RecordsStep(d, fileName, suffix, records).disk.processed == d.processed
    decreases |records|
  {
    if records != [] {
      var first := RecordStep(d, fileName, suffix, records[0]);
      if first.error.None? {
        RecordsStepKeepsProcessed(first.disk, fileName, suffix, records[1..]);
      }
    }
  }

  /** `after` is `before` followed by an initial part of `all`, and by all of
      `all` when `complete`. */
  predicate AppendsPrefix<T(==)>(before: seq<T>, after: seq<T>, all: seq<T>, complete: bool) {
    && |before| <= |after| <= |before| + |all|
    && after == before + all[..|after| - |before|]
    && (complete ==> after == before + all)
  }

  /** The file loop processes a prefix of the list, in order, and all of it when
      it gets through. */
  lemma {:induction false} FilesStepProcessed(d: Disk, files: seq<string>, suffix: string, read: string -> BagRead)
    ensures var o := FilesStep(d, files, suffix, read);
      AppendsPrefix(d.processed, o.disk.processed, files, o.error.None?)
    decreases |files|
  {
    if files != [] {
      var first := FileStep(d, files[0], suffix, read);
      FileStepProcessed(d, files[0], suffix, read);
      if first.error.None? {
        var rest := files[1..];
        var o := FilesStep(first.disk, rest, suffix, read);
        assert o == FilesStep(d, files, suffix, read);
        FilesStepProcessed(first.disk, rest, suffix, read);
        assert files == [files[0]] + rest;
        ConcatPrefix(d.processed, [files[0]], rest, |o.disk.processed| - |first.disk.processed|);
      } else {
        assert files[..1] == [files[0]];
      }
    }
  }

  /** `process_bag_file` records its bag as processed, whatever happens to it. */
  lemma FileStepProcessed(d: Disk, fileName: string, suffix: string, read: string -> BagRead)
    ensures FileStep(d, fileName, suffix, read).disk.processed == d.processed + [fileName]
  {
    RecordsStepKeepsProcessed(d.(processed := d.processed + [fileName]), fileName, suffix, read(fileName).records);
  }

  /** Appending `a` and then an initial part of `rest` is appending an initial
      part of `a + rest`. */
  lemma ConcatPrefix<T>(done: seq<T>, a: seq<T>, rest: seq<T>, k: int)
    requires 0 <= k <= |rest|
    ensures (done + a) + rest[..k] == done + (a + rest)[..|a| + k]
    ensures (done + a) + rest == done + (a + rest)
  {
    assert (a + rest)[..|a| + k] == a + rest[..k];
  }

  /** An initial part of `a` is one of `a + b`. */
  lemma PrefixOfConcat<T>(a: seq<T>, b: seq<T>, k: int)
    requires 0 <= k <= |a|
    ensures (a + b)[..k] == a[..k]
  {
  }

  /** The record loop appends an initial part of the images its records ask for,
      and all of them when it gets through: an error keeps the images written
      before it. */
  lemma {:induction false} RecordsStepPictures(d: Disk, fileName: string, suffix: string, records: seq<Record>)
    ensures var o := RecordsStep(d, fileName, suffix, records);
      AppendsPrefix(d.pictures, o.disk.pictures, RecordPictures(fileName, suffix, records), o.error.None?)
    decreases |records|
  {
    var all := RecordPictures(fileName, suffix, records);
    if records == [] {
      assert d.pictures + all[..0] == d.pictures;
    } else {
      var r := records[0];
      var t := TypeTag(r.classRepr);
      var first := RecordStep(d, fileName, suffix, r);
      var rest := records[1..];
      if t.None? {
        assert d.pictures + all[..0] == d.pictures;
      } else {
        var pic := RecordPicture(fileName, suffix, r, t.value);
        assert all == [pic] + RecordPictures(fileName, suffix, rest);
        MessageResult(d, fileName, suffix, r, t.value);
        if first.error.Some? {
          assert d.pictures + all[..0] == d.pictures;
        } else {
          var o := RecordsStep(first.disk, fileName, suffix, rest);
          RecordsStepPictures(first.disk, fileName, suffix, rest);
          ConcatPrefix(d.pictures, [pic], RecordPictures(fileName, suffix, rest), |o.disk.pictures| - |first.disk.pictures|);
        }
      }
    }
  }

  /** `process_bag_file` appends an initial part of its records' images, and all
      of them when it gets through. */
  lemma FileStepPictures(d: Disk, fileName: string, suffix: string, read: string -> BagRead)
    ensures var o := FileStep(d, fileName, suffix, read);
      AppendsPrefix(d.pictures, o.disk.pictures, RecordPictures(fileName, suffix, read(fileName).records), o.error.None?)
  {
    RecordsStepPictures(d.(processed := d.processed + [fileName]), fileName, suffix, read(fileName).records);
  }

  /** The file loop appends an initial part of the images its bags ask for, in
      order, and all of them when it gets through. */
  lemma {:induction false} FilesStepPictures(d: Disk, files: seq<string>, suffix: string, read: string -> BagRead)
    ensures var o := FilesStep(d, files, suffix, read);
      AppendsPrefix(d.pictures, o.disk.pictures, FilesPictures(files, suffix, read), o.error.None?)
    decreases |files|
  {
    var all := FilesPictures(files, suffix, read);
    if files == [] {
      assert d.pictures + all[..0] == d.pictures;
    } else {
      var first := FileStep(d, files[0], suffix, read);
      var rest := files[1..];
      var mine := RecordPictures(files[0], suffix, read(files[0]).records);
      assert all == mine + FilesPictures(rest, suffix, read);
      FileStepPictures(d, files[0], suffix, read);
      if first.error.Some? {
        PrefixOfConcat(mine, FilesPictures(rest, suffix, read), |first.disk.pictures| - |d.pictures|);
      } else {
        var o := FilesStep(first.disk, rest, suffix, read);
        FilesStepPictures(first.disk, rest, suffix, read);
        ConcatPrefix(d.pictures, mine, FilesPictures(rest, suffix, read), |o.disk.pictures| - |first.disk.pictures|);
      }
    }
  }

  /** The file loop gets through exactly when every bag is fine, and then it has
      written exactly the images they ask for; it never fails on the window. */
  lemma {:induction false} FilesStepResult(d: Disk, files: seq<string>, suffix: string, read: string -> BagRead)
    requires DiskWf(d)
    ensures var o := FilesStep(d, files, suffix, read);
      && (o.error.None? <==> AllFilesOk(files, read))
      && (o.error.None? ==> o.disk.pictures == d.pictures + FilesPictures(files, suffix, read))
      && (o.error.Some? ==> !o.error.value.WindowRejected?)
    decreases |files|
  {
    if files != [] {
      var first := FileStep(d, files[0], suffix, read);
      FileStepSpec(d, files[0], suffix, read);
      if first.error.None? {
        var rest := files[1..];
        var o := FilesStep(first.disk, rest, suffix, read);
        FilesStepResult(first.disk, rest, suffix, read);
        assert forall j :: 1 <= j < |files| ==> files[j] == rest[j - 1];
        if o.error.None? {
          var mine := RecordPictures(files[0], suffix, read(files[0]).records);
          assert FilesPictures(files, suffix, read) == mine + FilesPictures(rest, suffix, read);
          AppendAssoc(d.pictures, mine, FilesPictures(rest, suffix, read));
        }
      }
    }
  }

  /** The list comprehension keeps exactly the entries whose lower-cased
      extension is `.bag`, each prefixed with the directory. */
  lemma {:induction false} BagFilesMembers(pathToFiles: string, entries: seq<string>)
    ensures forall p :: p in BagFiles(pathToFiles, entries) <==>
      exists fl :: fl in entries && IsBagFile(fl) && p == pathToFiles + fl
    decreases |entries|
  {
    if entries != [] {
      BagFilesMembers(pathToFiles, entries[1..]);
      assert entries == [entries[0]] + entries[1..];
    }
  }

  /** Each kept entry appears in the list as often as in the directory listing. */
  lemma {:induction false} BagFilesCount(pathToFiles: string, entries: seq<string>, fl: string)
    ensures multiset(BagFiles(pathToFiles, entries))[pathToFiles + fl]
         == if IsBagFile(fl) then multiset(entries)[fl] else 0
    decreases |entries|
  {
    if entries != [] {
      var p := pathToFiles + fl;
      var keep := IsBagFile(entries[0]);
      var head := if keep then [pathToFiles + entries[0]] else [];
      var rest := BagFiles(pathToFiles, entries[1..]);
      BagFilesCount(pathToFiles, entries[1..], fl);
      assert entries == [entries[0]] + entries[1..];
      assert multiset(entries)[fl] == multiset([entries[0]])[fl] + multiset(entries[1..])[fl];
      assert BagFiles(pathToFiles, entries) == head + rest;
      assert multiset(head + rest)[p] == multiset(head)[p] + multiset(rest)[p];
      JoinInjective(pathToFiles, entries[0], fl);
      assert multiset(head)[p] == if keep && entries[0] == fl then 1 else 0;
    }
  }

  lemma JoinInjective(dir: string, a: string, b: string)
    ensures dir + a == dir + b <==> a == b
  {
    if dir + a == dir + b {
      assert a == (dir + a)[|dir|..];
      assert b == (dir + b)[|dir|..];
    }
  }

  /** The files `process_bag_files` goes through: exactly the `.bag` entries (in
      any letter case) prefixed with the directory, in ascending order, and each
      once when the listing has no repeats. */
  lemma FileList(pathToFiles: string, entries: seq<string>)
    ensures var files := Sort(BagFiles(pathToFiles, entries));
      && Sorted(files)
      && (forall p :: p in files <==> exists fl :: fl in entries && IsBagFile(fl) && p == pathToFiles + fl)
      && (NoRepeats(entries) ==> NoRepeats(files))
  {
    var bags := BagFiles(pathToFiles, entries);
    var files := Sort(bags);
    SortSpec(bags);
    BagFilesMembers(pathToFiles, entries);
    forall p ensures p in files <==> p in bags {
      assert p in files <==> p in multiset(files);
      assert p in bags <==> p in multiset(bags);
    }
    if NoRepeats(entries) {
      forall p | p in bags ensures multiset(bags)[p] == 1 {
        var fl :| fl in entries && IsBagFile(fl) && p == pathToFiles + fl;
        BagFilesCount(pathToFiles, entries, fl);
      }
      SortNoRepeats(bags);
    }
  }

  /** A window that fails validation ends the run before the directory is listed:
      no bag is processed and the disk is untouched. Otherwise the run never fails
      on the window. */
  lemma RunWindow(d: Disk, pathToFiles: string, entries: seq<string>, startTime: Option<string>,
                  endTime: Option<string>, read: string -> BagRead)
    requires DiskWf(d)
    ensures var o := Run(d, pathToFiles, entries, startTime, endTime, read);
      && (ValidateWindow(startTime, endTime).Err? ==> o == Outcome(d, Some(WindowRejected(ValidateWindow(startTime, endTime).error))))
      && (o.error.Some? && o.error.value.WindowRejected? <==> ValidateWindow(startTime, endTime).Err?)
  {
    var window := ValidateWindow(startTime, endTime);
    if window.Ok? {
      FilesStepResult(d, Sort(BagFiles(pathToFiles, entries)), FolderSuffix(window.value), read);
    }
  }

  /** Window validation: both bounds parse to dates from 1970 on and the start's
      seconds exceed the end's; then the run processes zero files and changes
      nothing. */
  lemma RunInvertedWindow(d: Disk, pathToFiles: string, entries: seq<string>, startTime: string,
                          endTime: string, read: string -> BagRead)
    requires ParseDateTime(startTime).Some? && ParseDateTime(endTime).Some?
    requires ParseDateTime(startTime).value.year >= 1970 && ParseDateTime(endTime).value.year >= 1970
    requires ToEpoch(ParseDateTime(startTime).value) > ToEpoch(ParseDateTime(endTime).value)
    ensures Run(d, pathToFiles, entries, Some(startTime), Some(endTime), read) == Outcome(d, Some(WindowRejected(StartAfterEnd)))
  {
    RejectsInvertedWindow(Some(startTime), Some(endTime));
  }

  /** With neither bound given the window is 1980-01-01 to 2900-12-31 and every
      bag file is processed under the folder of that window. */
  lemma RunDefaults(d: Disk, pathToFiles: string, entries: seq<string>, read: string -> BagRead)
    ensures Run(d, pathToFiles, entries, None, None, read)
         == FilesStep(d, Sort(BagFiles(pathToFiles, entries)), FolderSuffix(Window(315532800, 29379456000)), read)
  {
    SentinelDefaults();
  }

  /** Unfolding `Run` under an accepted window: the loop over the sorted bag list. */
  lemma RunAccepted(d: Disk, pathToFiles: string, entries: seq<string>, startTime: Option<string>,
                    endTime: Option<string>, read: string -> BagRead)
    requires ValidateWindow(startTime, endTime).Ok?
    ensures Run(d, pathToFiles, entries, startTime, endTime, read)
         == FilesStep(d, Sort(BagFiles(pathToFiles, entries)), FolderSuffix(ValidateWindow(startTime, endTime).value), read)
  {
  }

  /** After validation the run keeps the disk consistent, creating only missing
      folders. */
  lemma RunKeepsDisk(d: Disk, pathToFiles: string, entries: seq<string>, startTime: Option<string>,
                     endTime: Option<string>, read: string -> BagRead)
    requires DiskWf(d)
    requires ValidateWindow(startTime, endTime).Ok?
    ensures var o := Run(d, pathToFiles, entries, startTime, endTime, read);
      DiskWf(o.disk) && Extends(d, o.disk)
  {
    RunAccepted(d, pathToFiles, entries, startTime, endTime, read);
    FilesStepWf(d, Sort(BagFiles(pathToFiles, entries)), FolderSuffix(ValidateWindow(startTime, endTime).value), read);
  }

  /** After validation the run processes a prefix of the sorted bag list, in
      order, and all of it when it gets through. A run that fails keeps what it
      wrote before the failure: the log of images written holds the writes from
      before, followed by an initial part of the images the sorted bags ask for,
      and all of them when it gets through. */
  lemma RunProcessed(d: Disk, pathToFiles: string, entries: seq<string>, startTime: Option<string>,
                     endTime: Option<string>, read: string -> BagRead)
    requires ValidateWindow(startTime, endTime).Ok?
    ensures var o := Run(d, pathToFiles, entries, startTime, endTime, read);
      AppendsPrefix(d.processed, o.disk.processed, Sort(BagFiles(pathToFiles, entries)), o.error.None?)
    ensures var o := Run(d, pathToFiles, entries, startTime, endTime, read);
      AppendsPrefix(d.pictures, o.disk.pictures,
                    FilesPictures(Sort(BagFiles(pathToFiles, entries)), FolderSuffix(ValidateWindow(startTime, endTime).value), read),
                    o.error.None?)
  {
    var files := Sort(BagFiles(pathToFiles, entries));
    var suffix := FolderSuffix(ValidateWindow(startTime, endTime).value);
    RunAccepted(d, pathToFiles, entries, startTime, endTime, read);
    FilesStepProcessed(d, files, suffix, read);
    FilesStepPictures(d, files, suffix, read);
  }

  /** The run gets through exactly when the window is valid and every bag on the
      sorted list is fine. */
  lemma RunSucceeds(d: Disk, pathToFiles: string, entries: seq<string>, startTime: Option<string>,
                    endTime: Option<string>, read: string -> BagRead)
    requires DiskWf(d)
    ensures var files := Sort(BagFiles(pathToFiles, entries));
      (Run(d, pathToFiles, entries, startTime, endTime, read).error.None? <==>
         ValidateWindow(startTime, endTime).Ok? && AllFilesOk(files, read))
  {
    var window := ValidateWindow(startTime, endTime);
    if window.Ok? {
      var files := Sort(BagFiles(pathToFiles, entries));
      var suffix := FolderSuffix(window.value);
      assert Run(d, pathToFiles, entries, startTime, endTime, read) == FilesStep(d, files, suffix, read);
      FilesStepResult(d, files, suffix, read);
    }
  }

  /** A run that gets through has written exactly the images the records of the
      sorted bags ask for, in order, in the folder of the window. */
  lemma RunPictures(d: Disk, pathToFiles: string, entries: seq<string>, startTime: Option<string>,
                    endTime: Option<string>, read: string -> BagRead)
    requires DiskWf(d)
    requires Run(d, pathToFiles, entries, startTime, endTime, read).error.None?
    ensures ValidateWindow(startTime, endTime).Ok?
    ensures Run(d, pathToFiles, entries, startTime, endTime, read).disk.pictures
         == d.pictures + FilesPictures(Sort(BagFiles(pathToFiles, entries)), FolderSuffix(ValidateWindow(startTime, endTime).value), read)
  {
    FilesStepResult(d, Sort(BagFiles(pathToFiles, entries)), FolderSuffix(ValidateWindow(startTime, endTime).value), read);
  }
}
