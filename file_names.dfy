/** File-name helpers of rosbag_parser/main.py: `os.path.splitext`, `os.path.basename`,
    and the two lower-casing wrappers `get_file_extension` and `get_file_name`. */
module FileNames {
  import opened Strings

  const BagFileExtension := ".bag"

  /** Some character in `p[lo..hi]` is not a dot. */
  predicate HasNonDot(p: string, lo: int, hi: int) {
    exists k :: 0 <= lo <= k < hi <= |p| && p[k] != '.'
  }

  /** `os.path.splitext` on POSIX: split at the last dot of the last path
      component, unless everything before that dot in the component is dots. */
  function SplitExt(p: string): (string, string)
  {
    var sepIndex := LastIndexOf(p, '/');
    var dotIndex := LastIndexOf(p, '.');
    if dotIndex > sepIndex && HasNonDot(p, sepIndex + 1, dotIndex) then (p[..dotIndex], p[dotIndex..])
    else (p, "")
  }

  /** `get_file_extension`: the extension, lower-cased. */
  function GetFileExtension(fileName: string): string
  {
    Lower(SplitExt(fileName).1)
  }

  /** `get_file_name`: everything before the extension, lower-cased. */
  function GetFileName(fileName: string): string
  {
    Lower(SplitExt(fileName).0)
  }

  /** `os.path.basename`: what follows the last slash, or all of `p` when it has
      none. */
  function BaseName(p: string): (r: string)
    ensures '/' !in r
    ensures exists k :: 0 <= k <= |p| && r == p[k..]
    ensures |r| < |p| ==> p[|p| - |r| - 1] == '/'
  {
    var k := LastIndexOf(p, '/') + 1;
    assert forall i :: 0 <= i < |p[k..]| ==> p[k..][i] == p[k + i];
    p[k..]
  }

  /** The test applied to directory entries: the lower-cased extension is `.bag`. */
  predicate IsBagFile(fileName: string) {
    GetFileExtension(fileName) == BagFileExtension
  }

  /** `os.path.splitext` cuts a name into two pieces that concatenate back to it. The
      extension is empty, or it is a dot followed by neither a dot nor a slash; it is
      non-empty exactly when the last component has a dot preceded by a non-dot. */
  lemma SplitExtSpec(p: string)
    ensures SplitExt(p).0 + SplitExt(p).1 == p
    ensures var e := SplitExt(p).1;
      e == [] || (e[0] == '.' && '.' !in e[1..] && '/' !in e)
    ensures var sepIndex := LastIndexOf(p, '/');
      var dotIndex := LastIndexOf(p, '.');
      SplitExt(p).1 != [] ==> dotIndex > sepIndex && HasNonDot(p, sepIndex + 1, dotIndex)
    ensures var sepIndex := LastIndexOf(p, '/');
      var dotIndex := LastIndexOf(p, '.');
      dotIndex > sepIndex && HasNonDot(p, sepIndex + 1, dotIndex) ==> SplitExt(p).1 != []
  {
    ExtensionShape(p);
  }

  lemma ExtensionShape(p: string)
    ensures var e := SplitExt(p).1;
      e == [] || (e[0] == '.' && '.' !in e[1..] && '/' !in e)
  {
    var sepIndex := LastIndexOf(p, '/');
    var dotIndex := LastIndexOf(p, '.');
    if dotIndex > sepIndex && HasNonDot(p, sepIndex + 1, dotIndex) {
      var e := p[dotIndex..];
      assert forall i :: 0 <= i < |e| ==> e[i] == p[dotIndex + i];
      assert '/' !in e;
      assert '.' !in e[1..];
    }
  }

  /** Name round trip: `get_file_name(f) + get_file_extension(f) == f.lower()`. */
  lemma NameExtensionRoundTrip(f: string)
    ensures GetFileName(f) + GetFileExtension(f) == Lower(f)
  {
    SplitExtSpec(f);
    LowerConcat(SplitExt(f).0, SplitExt(f).1);
  }

  /** Leading dots do not make an extension: a last component made only of dots and
      one further dotless run (`.bashrc`, `..bag`) has an empty extension. */
  lemma LeadingDotsAreNotExtension(dir: string, dots: string, rest: string)
    requires dir == [] || dir[|dir| - 1] == '/'
    requires dots != [] && forall i :: 0 <= i < |dots| ==> dots[i] == '.'
    requires '.' !in rest && '/' !in rest
    ensures GetFileExtension(dir + dots + rest) == []
  {
    var p := dir + dots + rest;
    var sepIndex := LastIndexOf(p, '/');
    var dotIndex := LastIndexOf(p, '.');
    assert forall j :: |dir + dots| <= j < |p| ==> p[j] == rest[j - |dir + dots|];
    assert p[|dir| + |dots| - 1] == '.';
    assert dotIndex == |dir| + |dots| - 1;
    assert sepIndex == |dir| - 1 by {
      if dir != [] {
        assert p[|dir| - 1] == '/';
      }
      assert forall j :: |dir| <= j < |dir + dots| ==> p[j] == dots[j - |dir|];
    }
    if dotIndex > sepIndex {
      assert !HasNonDot(p, sepIndex + 1, dotIndex) by {
        forall k | sepIndex + 1 <= k < dotIndex ensures p[k] == '.' {
          assert p[k] == dots[k - |dir|];
        }
      }
    }
  }

  /** Names that lower-case alike split alike: they have the same
      `get_file_name` and the same `get_file_extension`. */
  lemma SplitExtLower(f1: string, f2: string)
    requires Lower(f1) == Lower(f2)
    ensures GetFileName(f1) == GetFileName(f2)
    ensures GetFileExtension(f1) == GetFileExtension(f2)
  {
    assert |f1| == |f2|;
    forall i | 0 <= i < |f1| ensures (f1[i] == '/' <==> f2[i] == '/') && (f1[i] == '.' <==> f2[i] == '.') {
      assert LowerChar(f1[i]) == LowerChar(f2[i]);
      LowerCharNonLetter(f1[i], '/');
      LowerCharNonLetter(f2[i], '/');
      LowerCharNonLetter(f1[i], '.');
      LowerCharNonLetter(f2[i], '.');
    }
    var sepIndex, dotIndex := LastIndexOf(f1, '/'), LastIndexOf(f1, '.');
    LastIndexOfUnique(f2, '/', sepIndex);
    LastIndexOfUnique(f2, '.', dotIndex);
    assert HasNonDot(f1, sepIndex + 1, dotIndex) <==> HasNonDot(f2, sepIndex + 1, dotIndex);
    if dotIndex > sepIndex && HasNonDot(f1, sepIndex + 1, dotIndex) {
      assert Lower(f1[..dotIndex]) == Lower(f2[..dotIndex]);
      assert Lower(f1[dotIndex..]) == Lower(f2[dotIndex..]);
    }
  }

  /** The last four characters of `f` are `.bag` in any letter case. */
  predicate EndsWithBag(f: string) {
    |f| >= 4 && f[|f| - 4] == '.'
    && LowerChar(f[|f| - 3]) == 'b' && LowerChar(f[|f| - 2]) == 'a' && LowerChar(f[|f| - 1]) == 'g'
  }

  /** Exactly the names that end in `.bag` in any letter case, with a non-dot
      character before it in the last component, pass the `.bag` test. */
  lemma IsBagFileIff(f: string)
    ensures IsBagFile(f) ==> EndsWithBag(f) && HasNonDot(f, LastIndexOf(f, '/') + 1, |f| - 4)
    ensures EndsWithBag(f) && HasNonDot(f, LastIndexOf(f, '/') + 1, |f| - 4) ==> IsBagFile(f)
  {
    if IsBagFile(f) {
      BagFileShape(f);
    }
    if EndsWithBag(f) && HasNonDot(f, LastIndexOf(f, '/') + 1, |f| - 4) {
      BagFileFromShape(f);
    }
  }

  lemma BagFileShape(f: string)
    requires IsBagFile(f)
    ensures EndsWithBag(f) && HasNonDot(f, LastIndexOf(f, '/') + 1, |f| - 4)
  {
    SplitExtSpec(f);
    var e := SplitExt(f).1;
    var d := LastIndexOf(f, '.');
    assert |Lower(e)| == |e| == 4;
    assert e == f[d..];
    assert d == |f| - 4;
    assert e[0] == f[|f| - 4] && e[1] == f[|f| - 3] && e[2] == f[|f| - 2] && e[3] == f[|f| - 1];
    assert Lower(e)[1] == 'b' && Lower(e)[2] == 'a' && Lower(e)[3] == 'g';
  }

  lemma BagFileFromShape(f: string)
    requires EndsWithBag(f) && HasNonDot(f, LastIndexOf(f, '/') + 1, |f| - 4)
    ensures IsBagFile(f)
  {
    var d := LastIndexOf(f, '.');
    assert d == |f| - 4;
    assert LastIndexOf(f, '/') < d;
    var e := SplitExt(f).1;
    assert e == f[d..];
    assert e == [f[|f| - 4], f[|f| - 3], f[|f| - 2], f[|f| - 1]];
  }

  /** Two concrete cases of the test: an upper-case extension passes, a name made of
      the extension alone does not. */
  lemma BagFileExamples()
    ensures IsBagFile("run1.BAG")
    ensures !IsBagFile(".bag")
    ensures !IsBagFile("notes.bag.txt")
  {
    UpperCaseBag();
    DotBag();
    BagThenTxt();
  }

  lemma UpperCaseBag()
    ensures IsBagFile("run1.BAG")
  {
    var f := "run1.BAG";
    assert f[0] != '.';
    LastIndexOfUnique(f, '/', -1);
    BagFileFromShape(f);
  }

  lemma DotBag()
    ensures !IsBagFile(".bag")
  {
    var f := ".bag";
    LastIndexOfUnique(f, '/', -1);
    IsBagFileIff(f);
  }

  lemma BagThenTxt()
    ensures !IsBagFile("notes.bag.txt")
  {
    var f := "notes.bag.txt";
    IsBagFileIff(f);
  }
}
