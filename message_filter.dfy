/** The connection filter handed to the bag reader (`filter_image_msgs`) and the
    type tag taken from a message's class name (rosbag_parser/main.py:171). */
module MessageFilter {
  import opened Wrappers
  import opened Strings

  const RawImageType := "sensor_msgs/Image"
  const CompressedImageType := "sensor_msgs/CompressedImage"

  /** `DATA_TYPES`: the connection types whose messages are read. */
  const DataTypes: seq<string> := [RawImageType, CompressedImageType]

  /** The connection header the reader passes along; the filter never looks at it. */
  type ConnectionHeader = map<string, string>

  /** `filter_image_msgs`: admit a connection exactly when its type is in `DATA_TYPES`. */
  function FilterImageMsgs(topic: string, dataType: string, md5sum: string, msgDef: string,
                           header: ConnectionHeader): (admit: bool)
    ensures admit <==> dataType == "sensor_msgs/Image" || dataType == "sensor_msgs/CompressedImage"
  {
    dataType in DataTypes
  }

  /** Only the type takes part in the decision: two connections of the same type are
      treated alike whatever their topic, checksum, definition and header. */
  lemma FilterDependsOnlyOnType(dataType: string,
                                topic1: string, md5sum1: string, msgDef1: string, header1: ConnectionHeader,
                                topic2: string, md5sum2: string, msgDef2: string, header2: ConnectionHeader)
    ensures FilterImageMsgs(topic1, dataType, md5sum1, msgDef1, header1)
         == FilterImageMsgs(topic2, dataType, md5sum2, msgDef2, header2)
  {
  }

  /** The second field of `s` split at `sep`: the text between the first and the
      second occurrence of `sep`, or up to the end. Python raises an `IndexError`
      when `sep` does not occur; that case is `TypeTag`'s. */
  function SecondField(s: string, sep: string): string
    requires sep != []
    requires Find(s, sep) >= 0
  {
    var rest := s[Find(s, sep) + |sep|..];
    var j := Find(rest, sep);
    if j < 0 then rest else rest[..j]
  }

  /** `s` without its last two characters (empty when it is shorter). */
  function DropLastTwo(s: string): (r: string)
    ensures |s| >= 2 ==> r + s[|s| - 2..] == s
    ensures |s| < 2 ==> r == []
  {
    if |s| >= 2 then s[..|s| - 2] else []
  }

  /** The tag computed at line 171 from the printed class of the message: the text
      after the first `__` up to the next one (or the end), without its last two
      characters. `None` stands for the `IndexError` raised when the class name
      holds no `__`. */
  function TypeTag(classRepr: string): Option<string>
  {
    if Find(classRepr, "__") < 0 then None
    else Some(DropLastTwo(SecondField(classRepr, "__")))
  }

  /** For a class repr of the shape `prefix + "__" + name + "'>"` (as the bag reader's
      generated message classes print, e.g. `<class 'tmp._sensor_msgs__Image'>`) the
      tag is `name`, provided `__` is neither in `prefix + "_"` nor in `name`. */
  lemma TypeTagOfClassRepr(prefix: string, name: string)
    requires Find(prefix + "_", "__") < 0
    requires Find(name, "__") < 0
    ensures TypeTag(prefix + "__" + name + "'>") == Some(name)
  {
    var s := prefix + "__" + name + "'>";
    FirstSeparator(prefix, name);
    var rest := s[|prefix| + 2..];
    assert rest == name + "'>";
    NoSeparatorInTail(name);
    assert SecondField(s, "__") == name + "'>";
    assert DropLastTwo(name + "'>") == name;
  }

  /** The first `__` of `prefix__name'>` is the one after `prefix`. */
  lemma FirstSeparator(prefix: string, name: string)
    requires Find(prefix + "_", "__") < 0
    ensures Find(prefix + "__" + name + "'>", "__") == |prefix|
  {
    var s := prefix + "__" + name + "'>";
    var head, tail := prefix + "_", "_" + name + "'>";
    assert s == head + tail;
    assert OccursAt(s, "__", |prefix|) by {
      assert s[|prefix|..|prefix| + 2] == "__";
    }
    forall j | 0 <= j < |prefix| && OccursAt(s, "__", j) ensures false {
      OccursInPrefix(head, tail, "__", j);
    }
    FirstOccurrence(s, "__", |prefix|);
  }

  /** A name without `__` keeps none when the closing `'>` follows it. */
  lemma NoSeparatorInTail(name: string)
    requires Find(name, "__") < 0
    ensures Find(name + "'>", "__") < 0
  {
    var rest := name + "'>";
    forall j | 0 <= j ensures !OccursAt(rest, "__", j) {
      if j + 2 <= |name| {
        if OccursAt(rest, "__", j) {
          OccursInPrefix(name, "'>", "__", j);
        }
      } else {
        NoPairAcrossQuote(name, j);
      }
    }
  }

  /** An occurrence that lies inside `a` is an occurrence in `a`. */
  lemma OccursInPrefix(a: string, b: string, pat: string, j: int)
    requires OccursAt(a + b, pat, j) && j + |pat| <= |a|
    ensures OccursAt(a, pat, j)
  {
    assert (a + b)[j..j + |pat|] == a[j..j + |pat|];
  }

  /** The closing `'>` of a class repr cannot complete a `__`. */
  lemma NoPairAcrossQuote(name: string, j: int)
    requires j + 2 > |name|
    ensures !OccursAt(name + "'>", "__", j)
  {
    var rest := name + "'>";
    if 0 <= j && j + 2 <= |rest| {
      assert rest[j + 1] == (if j + 1 == |name| then '\'' else '>');
      assert rest[j..j + 2][1] == rest[j + 1];
    }
  }

  /** An occurrence with none before it is what `find` returns. */
  lemma FirstOccurrence(s: string, pat: string, i: int)
    requires OccursAt(s, pat, i)
    requires forall j :: 0 <= j < i ==> !OccursAt(s, pat, j)
    ensures Find(s, pat) == i
  {
  }

  /** `__` cannot occur in a string with fewer than two underscores. */
  lemma NoPairInFewUnderscores(s: string)
    requires Count(s, '_') < 2
    ensures Find(s, "__") < 0
  {
    assert Count("__", '_') == 2 by {
      assert multiset("__") == multiset{'_', '_'};
    }
    FindByCount(s, "__", '_');
  }

  /** The tag is missing (the `IndexError` at line 171) exactly when the class
      name has no two adjacent underscores. */
  lemma TagMissingIff(classRepr: string)
    ensures TypeTag(classRepr) == None
        <==> forall k :: 0 <= k < |classRepr| - 1 ==> !(classRepr[k] == '_' && classRepr[k + 1] == '_')
  {
    var s := classRepr;
    forall k | 0 <= k < |s| - 1 ensures OccursAt(s, "__", k) <==> s[k] == '_' && s[k + 1] == '_' {
      assert s[k..k + 2][0] == s[k] && s[k..k + 2][1] == s[k + 1];
      if s[k] == '_' && s[k + 1] == '_' {
        assert s[k..k + 2] == "__";
      }
    }
    var i := Find(s, "__");
    if i >= 0 {
      assert OccursAt(s, "__", i);
      assert s[i] == '_' && s[i + 1] == '_';
    } else {
      assert forall k :: 0 <= k < |s| - 1 ==> !OccursAt(s, "__", k);
    }
  }

  /** In particular a class name with fewer than two underscores has no tag. */
  lemma TagMissingWithoutSeparator(classRepr: string)
    requires Count(classRepr, '_') < 2
    ensures TypeTag(classRepr) == None
  {
    NoPairInFewUnderscores(classRepr);
  }
}
