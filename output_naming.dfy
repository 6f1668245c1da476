/** The names `process_bag_file` and `process_bag_message` give their output
    (rosbag_parser/main.py:130-139, 163-165): the window folder suffix, the topic
    component, the time token, the file stem and the full `.png` path. */
module OutputNaming {
  import opened Wrappers
  import opened Strings
  import opened FileNames
  import opened CivilTime
  import opened TimeWindow

  /** `DESTINATION_LOCAL_PICTURES`. */
  const DestinationLocalPictures := "/data1/s3/pictures"

  /** Time stamps of bag records: ROS keeps seconds and nanoseconds as unsigned
      32-bit integers. */
  newtype Uint32 = x: int | 0 <= x < 0x1_0000_0000

  /** Every ROS second lies in the range `utcfromtimestamp` accepts. */
  lemma Uint32InRange(secs: Uint32)
    ensures 0 <= secs as int < MaxSeconds
  {
  }

  /** `folder_name_suffix`: the window's start and end formatted, joined by `_`. */
  function FolderSuffix(w: Window): string
    requires 0 <= w.start < MaxSeconds && 0 <= w.end < MaxSeconds
  {
    FormatTimestamp(w.start) + "_" + FormatTimestamp(w.end)
  }

  /** The folder suffix is 39 characters, the start's stamp, `_` and the end's
      stamp, and holds no slash; different windows get different folders. */
  lemma FolderSuffixSpec(w: Window)
    requires 0 <= w.start < MaxSeconds && 0 <= w.end < MaxSeconds
    ensures var r := FolderSuffix(w);
      && |r| == 39 && r[..19] == FormatTimestamp(w.start) && r[19] == '_' && r[20..] == FormatTimestamp(w.end)
      && '/' !in r
  {
    FormatTimestampLayout(w.start);
    FormatTimestampLayout(w.end);
    var r := FolderSuffix(w);
    assert r[..19] == FormatTimestamp(w.start);
    assert r[20..] == FormatTimestamp(w.end);
  }

  lemma FolderSuffixInjective(w1: Window, w2: Window)
    requires 0 <= w1.start < MaxSeconds && 0 <= w1.end < MaxSeconds
    requires 0 <= w2.start < MaxSeconds && 0 <= w2.end < MaxSeconds
    requires FolderSuffix(w1) == FolderSuffix(w2)
    ensures w1 == w2
  {
    FolderSuffixSpec(w1);
    FolderSuffixSpec(w2);
    FormatTimestampInjective(w1.start, w2.start);
    FormatTimestampInjective(w1.end, w2.end);
  }

  /** For two `YYYY-MM-DD HH:MM:SS` bounds that pass validation, the folder suffix
      is the two bound strings themselves with the folder name's separators. */
  lemma FolderSuffixOfBounds(startTime: string, endTime: string)
    requires |startTime| == 19 && |endTime| == 19
    requires ValidateWindow(Some(startTime), Some(endTime)).Ok?
    ensures FolderSuffix(ValidateWindow(Some(startTime), Some(endTime)).value)
         == Restamp(startTime) + "_" + Restamp(endTime)
  {
    AcceptedWindow(Some(startTime), Some(endTime));
    ToEpochRange(ParseDateTime(startTime).value);
    ToEpochRange(ParseDateTime(endTime).value);
    BoundRoundTrip(startTime);
    BoundRoundTrip(endTime);
  }

  /** `topic_str`: the topic without its first character, with every other slash
      turned into `_`. */
  function TopicStr(topic: string): string
  {
    ReplaceChar(if |topic| >= 1 then topic[1..] else [], '/', '_')
  }

  /** The topic component drops the first character and turns every other slash
      into `_`: it is one character shorter (empty for an empty topic), holds no
      slash, and keeps every other character in place. */
  lemma TopicStrSpec(topic: string)
    ensures '/' !in TopicStr(topic)
    ensures |TopicStr(topic)| == if topic == [] then 0 else |topic| - 1
    ensures forall i :: 1 <= i < |topic| && topic[i] != '/' ==> TopicStr(topic)[i - 1] == topic[i]
    ensures forall i :: 1 <= i < |topic| && topic[i] == '/' ==> TopicStr(topic)[i - 1] == '_'
  {
    var r := TopicStr(topic);
    forall i | 0 <= i < |r| ensures r[i] != '/' {
    }
  }

  /** `time_str`: the formatted whole seconds, `-`, and the nanoseconds in decimal
      without padding. */
  function TimeStr(secs: Uint32, nsecs: Uint32): string
  {
    Uint32InRange(secs);
    FormatTimestamp(secs as int) + "-" + NatToString(nsecs as nat)
  }

  /** The time token is the 19-character stamp, a dash and then digits only; it
      holds no slash and no parenthesis. */
  lemma TimeStrSpec(secs: Uint32, nsecs: Uint32)
    ensures var t := TimeStr(secs, nsecs);
      && |t| > 20
      && t[..19] == FormatTimestamp(secs as int) && t[19] == '-'
      && t[20..] == NatToString(nsecs as nat) && AllDigits(t[20..])
      && '/' !in t && '(' !in t
  {
    Uint32InRange(secs);
    var t := TimeStr(secs, nsecs);
    var stamp := FormatTimestamp(secs as int);
    FormatTimestampLayout(secs as int);
    NatToStringRoundTrip(nsecs as nat);
    assert t[..19] == stamp;
    assert t[20..] == NatToString(nsecs as nat);
    forall i | 0 <= i < |t| ensures t[i] != '/' && t[i] != '(' {
      if i < 19 {
        assert t[i] == stamp[i];
        assert stamp[i] in stamp;
        if i != 4 && i != 7 && i != 10 && i != 13 && i != 16 {
          StampDigit(stamp, i);
        }
      } else if i > 19 {
        assert t[i] == t[20..][i - 20];
      }
    }
  }

  /** Outside its five separators a stamp holds digits. */
  lemma StampDigit(s: string, i: int)
    requires HasStampLayout(s, '_', '-')
    requires 0 <= i < 19 && i != 4 && i != 7 && i != 10 && i != 13 && i != 16
    ensures IsDigit(s[i])
  {
    if i < 4 {
      assert s[0..4][i] == s[i];
    } else if i < 7 {
      assert s[5..7][i - 5] == s[i];
    } else if i < 10 {
      assert s[8..10][i - 8] == s[i];
    } else if i < 13 {
      assert s[11..13][i - 11] == s[i];
    } else if i < 16 {
      assert s[14..16][i - 14] == s[i];
    } else {
      assert s[17..19][i - 17] == s[i];
    }
  }

  /** Different record stamps give different time tokens. */
  lemma TimeStrInjective(secs1: Uint32, nsecs1: Uint32, secs2: Uint32, nsecs2: Uint32)
    requires TimeStr(secs1, nsecs1) == TimeStr(secs2, nsecs2)
    ensures secs1 == secs2 && nsecs1 == nsecs2
  {
    TimeStrSpec(secs1, nsecs1);
    TimeStrSpec(secs2, nsecs2);
    Uint32InRange(secs1);
    Uint32InRange(secs2);
    FormatTimestampInjective(secs1 as int, secs2 as int);
    NatToStringRoundTrip(nsecs1 as nat);
    NatToStringRoundTrip(nsecs2 as nat);
  }

  /** `base_file_name`: the last component of the bag's path without its
      extension, lower-cased. */
  function BaseFileName(fileName: string): string
  {
    GetFileName(BaseName(fileName))
  }

  /** The base name holds no slash. */
  lemma BaseFileNameNoSlash(fileName: string)
    ensures '/' !in BaseFileName(fileName)
  {
    var b := BaseName(fileName);
    SplitExtSpec(b);
    assert '/' !in SplitExt(b).0;
    var r := BaseFileName(fileName);
    forall i | 0 <= i < |r| ensures r[i] != '/' {
      assert SplitExt(b).0[i] in SplitExt(b).0;
    }
  }

  /** `out_file_name`: the time token, then the base name in parentheses. */
  function OutFileName(fileName: string, secs: Uint32, nsecs: Uint32): string
  {
    TimeStr(secs, nsecs) + "(" + BaseFileName(fileName) + ")"
  }

  /** The file stem is a single path component. */
  lemma OutFileNameNoSlash(fileName: string, secs: Uint32, nsecs: Uint32)
    ensures '/' !in OutFileName(fileName, secs, nsecs)
  {
    TimeStrSpec(secs, nsecs);
    BaseFileNameNoSlash(fileName);
  }

  /** `out_dir_name`: the root, the topic component, the type tag and the window
      folder, each followed by a slash. */
  function OutDirName(topic: string, dataType: string, suffix: string): string
  {
    DestinationLocalPictures + "/" + TopicStr(topic) + "/" + dataType + "/" + suffix + "/"
  }

  /** The path handed to `cv2.imwrite`. */
  function OutFilePath(dir: string, stem: string): string
  {
    dir + stem + ".png"
  }

  /** An output path determines its parts: for a slash-free tag and window
      folder, two images land on the same path only when their topic components,
      tags, window folders and file stems all agree. */
  lemma OutFilePathParts(topic1: string, dataType1: string, suffix1: string, stem1: string,
                         topic2: string, dataType2: string, suffix2: string, stem2: string)
    requires '/' !in dataType1 && '/' !in dataType2 && '/' !in suffix1 && '/' !in suffix2
    requires OutFilePath(OutDirName(topic1, dataType1, suffix1), stem1) == OutFilePath(OutDirName(topic2, dataType2, suffix2), stem2)
    ensures TopicStr(topic1) == TopicStr(topic2) && dataType1 == dataType2 && suffix1 == suffix2 && stem1 == stem2
  {
    TopicStrSpec(topic1);
    TopicStrSpec(topic2);
    PathParts(TopicStr(topic1), dataType1, suffix1, stem1, TopicStr(topic2), dataType2, suffix2, stem2);
  }

  /** `OutFilePathParts` over the plain components. */
  lemma PathParts(t1: string, d1: string, x1: string, stem1: string, t2: string, d2: string, x2: string, stem2: string)
    requires '/' !in t1 && '/' !in t2 && '/' !in d1 && '/' !in d2 && '/' !in x1 && '/' !in x2
    requires (DestinationLocalPictures + "/" + t1 + "/" + d1 + "/" + x1 + "/") + stem1 + ".png"
          == (DestinationLocalPictures + "/" + t2 + "/" + d2 + "/" + x2 + "/") + stem2 + ".png"
    ensures t1 == t2 && d1 == d2 && x1 == x2 && stem1 == stem2
  {
    var root := DestinationLocalPictures + "/";
    var rest1 := t1 + "/" + (d1 + "/" + (x1 + "/" + (stem1 + ".png")));
    var rest2 := t2 + "/" + (d2 + "/" + (x2 + "/" + (stem2 + ".png")));
    Regroup(DestinationLocalPictures, t1, d1, x1, stem1);
    Regroup(DestinationLocalPictures, t2, d2, x2, stem2);
    assert rest1 == (root + rest1)[|root|..];
    assert rest2 == (root + rest2)[|root|..];
    SplitAtSlash(t1, d1 + "/" + (x1 + "/" + (stem1 + ".png")), t2, d2 + "/" + (x2 + "/" + (stem2 + ".png")));
    SplitAtSlash(d1, x1 + "/" + (stem1 + ".png"), d2, x2 + "/" + (stem2 + ".png"));
    SplitAtSlash(x1, stem1 + ".png", x2, stem2 + ".png");
    assert stem1 == (stem1 + ".png")[..|stem1|];
    assert stem2 == (stem2 + ".png")[..|stem2|];
  }

  lemma Regroup(root: string, t: string, d: string, x: string, stem: string)
    ensures (root + "/" + t + "/" + d + "/" + x + "/") + stem + ".png"
         == (root + "/") + (t + "/" + (d + "/" + (x + "/" + (stem + ".png"))))
  {
  }

  /** A slash-free first component is cut off at the first slash. */
  lemma SplitAtSlash(a: string, b: string, c: string, e: string)
    requires '/' !in a && '/' !in c
    requires a + "/" + b == c + "/" + e
    ensures a == c && b == e
  {
    var p := a + "/" + b;
    FirstSlash(a, b);
    FirstSlash(c, e);
    assert |a| == |c|;
    assert a == p[..|a|] && c == (c + "/" + e)[..|c|];
    assert b == p[|a| + 1..] && e == (c + "/" + e)[|c| + 1..];
  }

  /** The first slash of `a/b` with a slash-free `a` is at `|a|`. */
  lemma FirstSlash(a: string, b: string)
    requires '/' !in a
    ensures var p := a + "/" + b;
      p[|a|] == '/' && forall k :: 0 <= k < |a| ==> p[k] != '/'
  {
    var p := a + "/" + b;
    forall k | 0 <= k < |a| ensures p[k] != '/' {
      assert p[k] == a[k];
      assert a[k] in a;
    }
  }

  /** The part of an output path below the root. */
  function RelativePath(topic: string, dataType: string, suffix: string, fileName: string, secs: Uint32, nsecs: Uint32): string
  {
    TopicStr(topic) + "/" + dataType + "/" + suffix + "/" + OutFileName(fileName, secs, nsecs) + ".png"
  }

  /** Within one folder, records with different stamps are written to different
      files. */
  lemma OutFilePathInjective(dir: string, fileName: string, secs1: Uint32, nsecs1: Uint32, secs2: Uint32, nsecs2: Uint32)
    requires OutFilePath(dir, OutFileName(fileName, secs1, nsecs1)) == OutFilePath(dir, OutFileName(fileName, secs2, nsecs2))
    ensures secs1 == secs2 && nsecs1 == nsecs2
  {
    StemFrame(dir, TimeStr(secs1, nsecs1), TimeStr(secs2, nsecs2), BaseFileName(fileName));
    TimeStrInjective(secs1, nsecs1, secs2, nsecs2);
  }

  /** The time token of a path is determined by the whole path. */
  lemma StemFrame(dir: string, t1: string, t2: string, base: string)
    requires dir + (t1 + "(" + base + ")") + ".png" == dir + (t2 + "(" + base + ")") + ".png"
    ensures t1 == t2
  {
    var p := dir + (t1 + "(" + base + ")") + ".png";
    assert |t1| == |t2|;
    assert t1 == p[|dir|..|dir| + |t1|];
    assert t2 == (dir + (t2 + "(" + base + ")") + ".png")[|dir|..|dir| + |t2|];
  }

  /** Bag files in one directory whose names differ only in letter case (`a.bag`
      and `A.BAG`) give the same file stem, so their pictures of the same record
      land on the same path. */
  lemma CaseCollision(dir: string, name1: string, name2: string, secs: Uint32, nsecs: Uint32)
    requires dir == [] || dir[|dir| - 1] == '/'
    requires '/' !in name1 && '/' !in name2
    requires Lower(name1) == Lower(name2)
    ensures OutFileName(dir + name1, secs, nsecs) == OutFileName(dir + name2, secs, nsecs)
  {
    BaseNameOfJoin(dir, name1);
    BaseNameOfJoin(dir, name2);
    SplitExtLower(name1, name2);
  }

  /** The base name of `dir + name` is `name`, when `dir` ends in a slash and
      `name` is a directory entry. */
  lemma BaseNameOfJoin(dir: string, name: string)
    requires dir == [] || dir[|dir| - 1] == '/'
    requires '/' !in name
    ensures BaseName(dir + name) == name
  {
    var p := dir + name;
    assert forall j :: |dir| <= j < |p| ==> p[j] == name[j - |dir|];
    if dir != [] {
      assert p[|dir| - 1] == '/';
    }
    LastIndexOfUnique(p, '/', |dir| - 1);
    assert p[|dir|..] == name;
  }
}
