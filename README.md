# rosbag_parser: which bags are read and where their images go

`rosbag_parser` is a batch routine. It downloads ROS bag files (`.bag` logs of robot
sensor data), reads their image messages and writes each one as a `.png` picture under
`/data1/s3/pictures`. It then uploads every picture to an object store, keyed by its
path below that root. This project models the routine's decision logic in Dafny and
proves properties of it:

- which directory entries count as bag files, and the order they are processed in;
- how the `YYYY-MM-DD HH:MM:SS` time window is parsed, defaulted and validated;
- which message connections are admitted, and how a message's type tag is read off
  its class name;
- how every output folder, file name and object key is built from the window, the
  topic, the tag, the record's stamp and the bag's name;
- what the driver loops do to the file system, up to the first error;
- how the upload loop maps files to keys and counts the successful uploads.

Modules, one per file:

| module | file | models |
|---|---|---|
| `Wrappers` | wrappers.dfy | `Option`, `Result` |
| `Strings` | strings.dfy | ASCII `lower`, `replace`, `find`, `rfind`, decimal digits, zero padding |
| `FileNames` | file_names.dfy | `os.path.splitext`, `os.path.basename`, `get_file_extension`, `get_file_name` |
| `MessageFilter` | message_filter.dfy | `filter_image_msgs`; the type tag at line 171 |
| `CivilTime` | civil_time.dfy | UTC civil time ⇄ epoch seconds (days from civil); `strftime('%Y-%m-%d_%H-%M-%S')` |
| `TimeWindow` | time_window.dfy | `strptime` on the bounds, sentinel dates, `from_sec`, the start ≤ end check |
| `OutputNaming` | output_naming.dfy | folder suffix, `topic_str`, `time_str`, file stem, output path |
| `Sorting` | sorting.dfy | Python's string order and `sorted` |
| `BatchDriver` | batch_driver.dfy | `process_bag_files`, `process_bag_file` and `process_bag_message`, as methods over a file-system value |
| `Store` | store.dfy | the walk-and-upload loop of `store_files_to_s3` and the object key at line 248 |

Five things are given to the model as inputs: the file system (a `Disk` value), the
bag reader (a function from a file name to the records it yields), the directory
listing, the directories `os.walk` yields with their files, and each upload's
success.

Two points where the code behaves otherwise than a reader of its documentation might
expect. The model follows the code on both.

- **No error isolation.** The routine catches no exception. The first bag that cannot
  be read, record whose class name has no `__`, image that fails to decode, or unknown
  tag (which leaves `img` unbound at line 149) ends the whole run
  (`BatchDriver.RunSucceeds`). Nothing is rolled back. The bags processed are an
  initial part of the sorted list. The log of images written holds the writes from
  before the run followed by an initial part of the images the sorted bags ask for
  (`BatchDriver.RunProcessed`). Failures are not confined to one file or one record.
- **Output paths can coincide.** Output paths are not unique across bags. The base
  name is lower-cased, so `a.bag` and `A.BAG` in one directory write the same record
  to the same path (`OutputNaming.CaseCollision`).

## Model

| member | source | states |
|---|---|---|
| `FileNames.SplitExtSpec` | rosbag_parser/main.py:86-93 | `splitext` cuts a name into two parts that concatenate back to it. The extension is empty or a dot followed by no dot or slash. It is non-empty exactly when the last component has a dot after a non-dot. |
| `FileNames.NameExtensionRoundTrip` | rosbag_parser/main.py:86-93 | `get_file_name(f) + get_file_extension(f)` is `f` lower-cased |
| `FileNames.LeadingDotsAreNotExtension` | rosbag_parser/main.py:86-88 | a last component made of leading dots and a dot-free rest has no extension |
| `FileNames.SplitExtLower` | rosbag_parser/main.py:86-93 | names equal up to letter case get the same name part and the same extension |
| `FileNames.IsBagFileIff` | rosbag_parser/main.py:205 | a name passes the `.bag` test exactly when it ends in `.bag` in any letter case and a non-dot character comes before that in its last component |
| `FileNames.BagFileExamples` | rosbag_parser/main.py:205 | `run1.BAG` passes the test; `.bag` and `notes.bag.txt` fail it |
| `FileNames.BaseName` | rosbag_parser/main.py:130 | `os.path.basename` yields what follows the last slash of the path, or the whole path when it has no slash; the result has no slash |
| `MessageFilter.FilterImageMsgs` | rosbag_parser/main.py:122-126 | a connection is admitted exactly when its type is `sensor_msgs/Image` or `sensor_msgs/CompressedImage`; nothing else makes it an error |
| `MessageFilter.FilterDependsOnlyOnType` | rosbag_parser/main.py:122-126 | topic, checksum, definition and header play no part in the decision |
| `MessageFilter.TypeTagOfClassRepr` | rosbag_parser/main.py:171 | for a class repr `prefix__name'>` with no other `__`, the tag is `name` |
| `MessageFilter.TagMissingIff` | rosbag_parser/main.py:171 | a class repr has no tag (the `IndexError`) exactly when it has no two adjacent underscores |
| `MessageFilter.TagMissingWithoutSeparator` | rosbag_parser/main.py:171 | as a special case, a class repr with fewer than two underscores has no tag |
| `CivilTime.FromEpoch` | rosbag_parser/main.py:133 | `utcfromtimestamp` on non-negative seconds gives a valid date from 1970 on, whose epoch seconds are the input |
| `CivilTime.EpochRoundTrip` | rosbag_parser/main.py:194 | for a valid date from 1970 on, converting to epoch seconds and back gives the date |
| `CivilTime.ToEpochRange` | rosbag_parser/main.py:194 | a date's epoch seconds are non-negative exactly when its year is 1970 or later, and lie below year 10000 |
| `CivilTime.FromEpochInjective` | rosbag_parser/main.py:133 | different seconds give different dates |
| `CivilTime.RenderFields` | rosbag_parser/main.py:133 | a rendered stamp is 19 characters: a 4-digit year, then a zero-padded 2-digit month, day, hour, minute and second, joined by the fixed separators |
| `CivilTime.RenderInjective` | rosbag_parser/main.py:133 | different dates render differently |
| `CivilTime.FormatTimestampLayout` | rosbag_parser/main.py:133 | `%Y-%m-%d_%H-%M-%S` output has the separators `-`, `-`, `_`, `-`, `-` and no slash |
| `CivilTime.FormatTimestampInjective` | rosbag_parser/main.py:133 | different seconds give different stamps |
| `TimeWindow.ParseDateTime` | rosbag_parser/main.py:187 | a successful `strptime` reading is a valid date and time |
| `TimeWindow.ParseRender` | rosbag_parser/main.py:187 | `strptime` reads a rendered `YYYY-MM-DD HH:MM:SS` string back to the date |
| `TimeWindow.ParseCanonical` | rosbag_parser/main.py:187 | every 19-character string `strptime` accepts is the zero-padded rendering of what it read |
| `TimeWindow.BoundRoundTrip` | rosbag_parser/main.py:187-195 | formatting the UTC seconds of an accepted 19-character bound gives back its digits, with `_` and `-` in place of the space and colons |
| `TimeWindow.RenderSeparators` | rosbag_parser/main.py:163-164 | the parsed layout and the folder layout differ only in their separators |
| `TimeWindow.ValidateWindow` | rosbag_parser/main.py:181-202 | an accepted window has its start at most its end, both in range |
| `TimeWindow.RejectsInvertedWindow` | rosbag_parser/main.py:194-202 | the window is rejected as inverted exactly when both bounds parse to dates from 1970 on and the start's seconds exceed the end's |
| `TimeWindow.AcceptedWindow` | rosbag_parser/main.py:184-195 | an accepted window's bounds are the UTC seconds of the parsed bounds |
| `TimeWindow.Sentinels` | rosbag_parser/main.py:181-190 | `1980-01-01` and `2900-12-31` read as midnight of those days |
| `TimeWindow.SentinelDefaults` | rosbag_parser/main.py:181-197 | with both bounds absent, the window is 315532800 to 29379456000 seconds and is accepted |
| `TimeWindow.ConfiguredWindow` | rosbag_parser/main.py:30-31 | the configured bounds give the window 1692729228 to 1692729232 |
| `OutputNaming.FolderSuffixSpec` | rosbag_parser/main.py:163-165 | the folder suffix is 39 characters: the start's stamp, `_`, the end's stamp; it has no slash |
| `OutputNaming.FolderSuffixInjective` | rosbag_parser/main.py:163-165 | different windows get different folders |
| `OutputNaming.FolderSuffixOfBounds` | rosbag_parser/main.py:163-165 | for two accepted 19-character bounds, the suffix is the two bound strings with folder separators |
| `OutputNaming.TopicStrSpec` | rosbag_parser/main.py:136 | `topic_str` has no slash, is one character shorter than the topic (empty for an empty topic), keeps every other character and turns each other slash into `_` |
| `OutputNaming.TimeStrSpec` | rosbag_parser/main.py:132-133 | `time_str` is the 19-character stamp, `-`, then the unpadded decimal nanoseconds; it has no slash and no parenthesis |
| `OutputNaming.TimeStrInjective` | rosbag_parser/main.py:132-133 | different stamps give different time tokens |
| `OutputNaming.BaseFileNameNoSlash` | rosbag_parser/main.py:130 | the base file name has no slash |
| `OutputNaming.OutFileNameNoSlash` | rosbag_parser/main.py:135 | the file stem `time_str(base)` is a single path component |
| `OutputNaming.OutFilePathParts` | rosbag_parser/main.py:135-148 | for a slash-free tag and window folder, two images share an output path only when their topic components, tags, window folders and file stems are all equal |
| `OutputNaming.OutFilePathInjective` | rosbag_parser/main.py:135-149 | within one folder, different record stamps are written to different files |
| `OutputNaming.CaseCollision` | rosbag_parser/main.py:130-135 | two bags in one directory whose names differ only in letter case get the same file stem |
| `Sorting.LexLeTotal` | rosbag_parser/main.py:205 | any two names are ordered one way or the other |
| `Sorting.LexLeAntisymmetric` | rosbag_parser/main.py:205 | names ordered both ways are equal |
| `Sorting.LexLeTransitive` | rosbag_parser/main.py:205 | the order is transitive |
| `Sorting.SortSpec` | rosbag_parser/main.py:205 | the sorted list is ascending and a permutation of its input |
| `Sorting.SortedUnique` | rosbag_parser/main.py:205 | two ascending permutations of one list are equal, so any sort gives this list |
| `Sorting.SortNoRepeats` | rosbag_parser/main.py:205 | sorting adds no repeats |
| `BatchDriver.ProcessBagMessage` | rosbag_parser/main.py:129-149 | the method's new file system and error are those of `MessageStep` |
| `BatchDriver.MessageStepSpec` | rosbag_parser/main.py:138-149 | a message succeeds exactly when its tag is `Image` or `CompressedImage` and it decodes. On success exactly its picture is added at `OUT_DIR/topic_str/tag/suffix/`. A decode failure leaves the file system unchanged. Otherwise the record's folder is the only one added, and it is created only when missing. A failed write adds no picture, and the processed list never changes. |
| `BatchDriver.UnknownTag` | rosbag_parser/main.py:141-149 | under any other tag nothing is decoded and the folder is still created; then the write fails with no picture added |
| `BatchDriver.ProcessRecords` | rosbag_parser/main.py:169-172 | the loop over the yielded records ends as `RecordsStep` does |
| `BatchDriver.RecordsStepResult` | rosbag_parser/main.py:169-172 | a bag's records go through exactly when each has a tag, an image tag and decodes; then its pictures are added in record order |
| `BatchDriver.RecordsStepWf` | rosbag_parser/main.py:146-149 | every written picture lies in an existing folder, and no folder is created twice or created when it already existed |
| `BatchDriver.ProcessBagFile` | rosbag_parser/main.py:158-174 | `process_bag_file` does what `FileStep` does with the window's folder suffix |
| `BatchDriver.FileStepSpec` | rosbag_parser/main.py:158-174 | a bag is recorded as processed once, and it succeeds exactly when its reader does not fail and all of its records go through |
| `BatchDriver.ProcessBagFiles` | rosbag_parser/main.py:177-211 | `process_bag_files` does what `Run` does |
| `BatchDriver.BagFilesMembers` | rosbag_parser/main.py:204-205 | the candidate list holds exactly the directory-prefixed entries that pass the `.bag` test |
| `BatchDriver.BagFilesCount` | rosbag_parser/main.py:204-205 | each passing entry occurs in the list as often as in the listing; others do not occur |
| `BatchDriver.FileList` | rosbag_parser/main.py:204-205 | the file list is ascending and holds exactly the prefixed `.bag` entries, with no repeats when the listing has none |
| `BatchDriver.FilesStepProcessed` | rosbag_parser/main.py:210-211 | bags are processed in list order: an initial part of the list, and the whole list when the run succeeds |
| `BatchDriver.RecordsStepPictures` | rosbag_parser/main.py:169-172 | the record loop adds an initial part of the pictures its records ask for, in order, and all of them when it succeeds; an error keeps the pictures written before it |
| `BatchDriver.FileStepPictures` | rosbag_parser/main.py:158-174 | a bag adds an initial part of its records' pictures, and all of them when it succeeds |
| `BatchDriver.FilesStepPictures` | rosbag_parser/main.py:210-211 | the file loop adds an initial part of the pictures its bags ask for, in list order, and all of them when it succeeds |
| `BatchDriver.FilesStepResult` | rosbag_parser/main.py:210-211 | the loop succeeds exactly when every bag goes through; then all their pictures are added in order |
| `BatchDriver.RunWindow` | rosbag_parser/main.py:184-202 | a rejected window ends the run before any file is touched, with the file system unchanged; only a rejected window gives that error |
| `BatchDriver.RunInvertedWindow` | rosbag_parser/main.py:194-202 | parsed bounds with start after end leave the file system as it was and process nothing |
| `BatchDriver.RunDefaults` | rosbag_parser/main.py:181-211 | without bounds the run goes through the file list with the sentinel window's folder |
| `BatchDriver.RunProcessed` | rosbag_parser/main.py:204-211 | with an accepted window, the processed bags are an initial part of the sorted file list, and the log of images written holds the earlier writes followed by an initial part of the pictures those bags ask for; on success both are complete |
| `BatchDriver.RunKeepsDisk` | rosbag_parser/main.py:146-149 | with an accepted window, the run leaves every picture in an existing folder and creates only folders that were missing, each once |
| `BatchDriver.RunSucceeds` | rosbag_parser/main.py:177-211 | the run succeeds exactly when the window is accepted and every listed bag goes through |
| `BatchDriver.RunPictures` | rosbag_parser/main.py:158-211 | a successful run writes exactly the pictures of all records of all listed bags, in order |
| `Store.ObjectKeyStripsRoot` | rosbag_parser/main.py:248 | the key of `root/rel` is `rel` when the root prefix does not occur in `rel` |
| `Store.RootPrefixAbsent` | rosbag_parser/main.py:248 | the root prefix cannot occur in a string with slashes in at most three places |
| `Store.FolderKey` | rosbag_parser/main.py:244-248 | a picture `d.png` in the folder `root/a/b/c/` is found in `root/a/b/c` and keyed `a/b/c/d.png` |
| `Store.PictureKey` | rosbag_parser/main.py:244-248 | every picture the routine writes is keyed by its path below the root: `topic_str/tag/suffix/time_str(base).png` |
| `Store.StoreFiles` | rosbag_parser/main.py:243-250 | every file of every walked directory is uploaded under its key, in walk order; the counter counts the successful uploads |
| `Store.StoreDirectory` | rosbag_parser/main.py:246-250 | the files of one directory are uploaded in order, and the counter carries on |
| `Store.SucceededBound` | rosbag_parser/main.py:243-250 | the counter is at most the number of files, and equals it exactly when every upload succeeds |

## Left out

- Object-store I/O is not modelled: listing and downloading the source bucket (lines 72-83, 96-119), the client set-up and the bucket wipe in `store_files_to_s3` (lines 228-241), and the upload call itself (lines 214-223). An upload is a given success flag; any error other than `ClientError` is not modelled.
- The eight-thread download pool (lines 106-119) exists only for concurrency.
- The configuration files and the logging set-up (lines 35-53), and all `print` and `logging` output, are not modelled. `start_routine` (lines 56-69) only calls the three stages in order.
- The bag library is not modelled. Opening bags, the topic and time selection of `read_messages`, and the order it yields records in are all its own decisions. The records it yields are a given input, and the connection filter is modelled separately.
- Image decoding (`message_to_cvimage`, `compressed_image_to_cvimage`) is given per record as a success flag. `cv2.imwrite` is modelled as appending a picture to a log of writes; its `False` return on failure is not modelled. The log records writes, not distinct files: a write to a path already written (as in `OutputNaming.CaseCollision`) overwrites that file on disk but shows up as a second entry.
- Floating point is not modelled: `timestamp()` and `rospy.Time.from_sec` are taken on whole seconds, since the bounds have whole-second resolution. A start before 1970 is modelled as an error, because a ROS time may not be negative.
- `os.listdir` is a given sequence of entries. `os.walk` is a given sequence of directories with their files; its traversal order and path normalisation (a `//` when the topic is empty, for instance) are not modelled.
- `os.makedirs` is modelled as creating the output folder only; its intermediate directories are not tracked.
- `TimeWindow.ParseDateTime`: `strptime`'s whitespace leniency (space-padded fields, a run of whitespace for the space directive) and its non-ASCII digits are not modelled. Such strings are rejected here, while Python may accept them.
- `Strings.Lower`: lower-cases ASCII letters only; Python's `str.lower` also maps non-ASCII letters.
- Error isolation per file or per record does not exist in the code, so the model has none either (see above).
- A start after the end is a logged, normal return in the source. The model reports it as the outcome `WindowRejected(StartAfterEnd)`, with the file system unchanged.
