/** The output path `os.path.splitext(mp3_path)[0] + '.sbv'`, with the POSIX
    flavour of `splitext`: the extension starts at the last '.' of the final
    path component, provided that dot is not one of the component's leading
    dots; otherwise there is no extension. */
module SbvPath {

  const SEP := '/'
  const EXT_SEP := '.'

  /** Index of the last `c` in `s`, or -1 (Python's `str.rfind`). */
  function LastIndexOf(s: string, c: char): (r: int)
    ensures -1 <= r < |s|
    ensures r >= 0 ==> s[r] == c
    ensures forall j :: r < j < |s| ==> s[j] != c
  {
    if s == [] then -1
    else if s[|s| - 1] == c then |s| - 1
    else LastIndexOf(s[..|s| - 1], c)
  }

  predicate AllDots(s: string) {
    forall i :: 0 <= i < |s| ==> s[i] == EXT_SEP
  }

  /** The characters after the last separator. */
  function FinalComponent(p: string): string {
    p[LastIndexOf(p, SEP) + 1..]
  }

  /** `os.path.splitext(p)`: `(root, ext)`. */
  function SplitExt(p: string): (string, string) {
    var sepIndex := LastIndexOf(p, SEP);
    var dotIndex := LastIndexOf(p, EXT_SEP);
    if dotIndex > sepIndex && !AllDots(p[sepIndex + 1..dotIndex])
    then (p[..dotIndex], p[dotIndex..])
    else (p, "")
  }

  /** What a correct split of `p` into `root + ext` is, stated without
      reference to how it is searched for: `ext` is empty, or a dot followed
      by neither dots nor separators whose root still has a non-dot character
      in its final component; and `ext` is empty only when every dot of the
      final component is a leading dot. */
  ghost predicate IsExtSplit(p: string, root: string, ext: string) {
    root + ext == p
    && (ext != "" ==>
          ext[0] == EXT_SEP
          && (forall j :: 1 <= j < |ext| ==> ext[j] != EXT_SEP && ext[j] != SEP)
          && !AllDots(FinalComponent(root)))
    && (ext == "" ==>
          forall i :: LastIndexOf(p, SEP) < i < |p| && p[i] == EXT_SEP ==>
            AllDots(p[LastIndexOf(p, SEP) + 1..i]))
  }

  lemma {:induction false} SplitExtCorrect(p: string)
    ensures IsExtSplit(p, SplitExt(p).0, SplitExt(p).1)
  {
    var sepIndex := LastIndexOf(p, SEP);
    var dotIndex := LastIndexOf(p, EXT_SEP);
    if dotIndex > sepIndex && !AllDots(p[sepIndex + 1..dotIndex]) {
      assert SplitExt(p) == (p[..dotIndex], p[dotIndex..]);
      SplitAtLastDot(p);
    } else {
      assert SplitExt(p) == (p, "");
      NoSplit(p);
    }
  }

  /** When the last dot follows a non-dot character of the final component,
      splitting there is a correct split. */
  lemma {:induction false} SplitAtLastDot(p: string)
    requires LastIndexOf(p, EXT_SEP) > LastIndexOf(p, SEP)
    requires !AllDots(p[LastIndexOf(p, SEP) + 1..LastIndexOf(p, EXT_SEP)])
    ensures IsExtSplit(p, p[..LastIndexOf(p, EXT_SEP)], p[LastIndexOf(p, EXT_SEP)..])
  {
    var sepIndex := LastIndexOf(p, SEP);
    var dotIndex := LastIndexOf(p, EXT_SEP);
    var root, ext := p[..dotIndex], p[dotIndex..];
    assert root + ext == p;
    assert ext[0] == EXT_SEP;
    forall j | 1 <= j < |ext|
      ensures ext[j] != EXT_SEP && ext[j] != SEP
    {
      assert ext[j] == p[dotIndex + j];
    }
    LastIndexOfPrefix(p, SEP, dotIndex);
    assert FinalComponent(root) == p[sepIndex + 1..dotIndex];
  }

  /** Otherwise every dot of the final component is a leading dot. */
  lemma {:induction false} NoSplit(p: string)
    requires !(LastIndexOf(p, EXT_SEP) > LastIndexOf(p, SEP)
               && !AllDots(p[LastIndexOf(p, SEP) + 1..LastIndexOf(p, EXT_SEP)]))
    ensures IsExtSplit(p, p, "")
  {
    var sepIndex := LastIndexOf(p, SEP);
    var dotIndex := LastIndexOf(p, EXT_SEP);
    assert p + "" == p;
    forall i | sepIndex < i < |p| && p[i] == EXT_SEP
      ensures AllDots(p[sepIndex + 1..i])
    {
      assert i <= dotIndex;
      if i < dotIndex {
        var v, w := p[sepIndex + 1..i], p[sepIndex + 1..dotIndex];
        assert AllDots(w);
        forall j | 0 <= j < |v|
          ensures v[j] == EXT_SEP
        {
          assert v[j] == w[j];
        }
      }
    }
  }

  /** A prefix that still holds the last `c` has it at the same place. */
  lemma LastIndexOfPrefix(p: string, c: char, k: nat)
    requires k <= |p| && LastIndexOf(p, c) < k
    ensures LastIndexOf(p[..k], c) == LastIndexOf(p, c)
  {
  }

  /** There is only one correct split, so SplitExt is the split. */
  lemma {:induction false} SplitExtUnique(p: string, root: string, ext: string)
    requires IsExtSplit(p, root, ext)
    ensures (root, ext) == SplitExt(p)
  {
    SplitExtCorrect(p);
    var (root', ext') := SplitExt(p);
    var sepIndex := LastIndexOf(p, SEP);
    if ext != "" && ext' != "" {
      ExtensionPosition(p, root, ext);
      ExtensionPosition(p, root', ext');
      assert root == p[..|root|] && root' == p[..|root'|];
    } else if ext != "" {
      // p's final component would have a dot after a non-dot character
      ExtensionPosition(p, root, ext);
      assert false;
    } else if ext' != "" {
      ExtensionPosition(p, root', ext');
      assert false;
    } else {
      assert root + "" == root && root' + "" == root';
    }
  }

  /** A non-empty extension of a correct split begins at the last dot of `p`,
      after its last separator, and past the final component's leading dots. */
  lemma {:induction false} ExtensionPosition(p: string, root: string, ext: string)
    requires IsExtSplit(p, root, ext) && ext != ""
    ensures LastIndexOf(p, EXT_SEP) == |root|
    ensures LastIndexOf(p, SEP) == LastIndexOf(root, SEP)
    ensures !AllDots(p[LastIndexOf(p, SEP) + 1..|root|])
  {
    assert p[|root|] == EXT_SEP;
    forall j | |root| < j < |p|
      ensures p[j] != EXT_SEP && p[j] != SEP
    {
      assert p[j] == ext[j - |root|];
    }
    LastIndexOfAfter(p, EXT_SEP, |root|);
    assert p[..|root|] == root;
    LastIndexOfPrefix(p, SEP, |root|);
  }

  /** The last `c` is the one at `k` when no later character is `c`. */
  lemma LastIndexOfAfter(p: string, c: char, k: nat)
    requires k < |p| && p[k] == c
    requires forall j :: k < j < |p| ==> p[j] != c
    ensures LastIndexOf(p, c) == k
  {
  }

  /** `splitext(path)[0] + '.sbv'`. */
  function SbvPath(p: string): (r: string)
    ensures |r| >= 4 && r[|r| - 4..] == ".sbv"
    ensures r == SplitExt(p).0 + ".sbv"
  {
    SplitExt(p).0 + ".sbv"
  }

  /** When every dot of the final component is a leading dot (or there is
      none), the output path is the input with `.sbv` appended; when some dot
      of the final component follows a non-dot character, everything from
      the last dot on is replaced by `.sbv`. */
  lemma {:induction false} SbvPathReplacesExtension(p: string)
    ensures (forall i :: LastIndexOf(p, SEP) < i < |p| && p[i] == EXT_SEP ==>
               AllDots(p[LastIndexOf(p, SEP) + 1..i]))
            ==> SbvPath(p) == p + ".sbv"
    ensures forall i ::
      LastIndexOf(p, SEP) < i < |p| && p[i] == EXT_SEP && !AllDots(p[LastIndexOf(p, SEP) + 1..i])
      ==> SbvPath(p) == p[..LastIndexOf(p, EXT_SEP)] + ".sbv"
  {
    SplitExtCorrect(p);
    var (root, ext) := SplitExt(p);
    if ext != "" {
      ExtensionPosition(p, root, ext);
      assert p[|root|] == EXT_SEP;
      assert root == p[..|root|];
    } else {
      assert root == p by { assert root + "" == root; }
    }
  }

  /** Deriving the path again from an output path whose root ends in a real
      file name changes nothing: `.sbv` is then its own extension. */
  lemma SbvPathIdempotent(p: string)
    requires !AllDots(FinalComponent(SplitExt(p).0))
    ensures SplitExt(SbvPath(p)) == (SplitExt(p).0, ".sbv")
    ensures SbvPath(SbvPath(p)) == SbvPath(p)
  {
    var root := SplitExt(p).0;
    var r := SbvPath(p);
    assert IsExtSplit(r, root, ".sbv") by {
      var ext := ".sbv";
      assert forall j :: 1 <= j < |ext| ==> ext[j] != EXT_SEP && ext[j] != SEP;
    }
    SplitExtUnique(r, root, ".sbv");
  }

  lemma SbvPathExampleExtension()
    ensures SbvPath("talk.mp3") == "talk.sbv"
  {
    var p := "talk.mp3";
    assert LastIndexOf(p, SEP) == -1 by { assert forall j :: 0 <= j < |p| ==> p[j] != SEP; }
    LastIndexOfAfter(p, EXT_SEP, 4);
    assert p[0..4][0] == 't';
  }

  lemma SbvPathExampleLeadingDot()
    ensures SbvPath(".hidden") == ".hidden.sbv"
  {
    var p := ".hidden";
    assert LastIndexOf(p, SEP) == -1 by { assert forall j :: 0 <= j < |p| ==> p[j] != SEP; }
    LastIndexOfAfter(p, EXT_SEP, 0);
  }

  lemma SbvPathExampleDottedDirectory()
    ensures SbvPath("v1.2/talk") == "v1.2/talk.sbv"
  {
    var p := "v1.2/talk";
    LastIndexOfAfter(p, SEP, 4);
    LastIndexOfAfter(p, EXT_SEP, 2);
  }
}
