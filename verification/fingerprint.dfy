/** The `dist:cdn` task's own rules: how a content-hashed file is renamed
    (`transformFilename`) and which paths keep their names (`dontRenameFile`).
    Paths are the build-relative paths the revisioning plugin works with,
    rooted at `/` (`/css/site.css`); the hash is an input string. */
module Fingerprint {
  import opened Wrappers
  import opened RegexClasses

  const HashLength: nat := 4
  const RevMarker: string := ".rev."

  /** The last position of `c` in `s`, if any. */
  function LastIndexOf(s: string, c: char): (r: Option<nat>)
    ensures r.None? ==> forall j :: 0 <= j < |s| ==> s[j] != c
    ensures r.Some? ==> r.value < |s| && s[r.value] == c
    ensures r.Some? ==> forall j :: r.value < j < |s| ==> s[j] != c
    decreases |s|
  {
    if |s| == 0 then None
    else if s[|s| - 1] == c then Some(|s| - 1)
    else LastIndexOf(s[..|s| - 1], c)
  }

  /** The directory part of a path, trailing `/` included (empty when the path
      has no `/`). */
  function Dir(p: string): (r: string)
    ensures |r| == 0 || r[|r| - 1] == '/'
  {
    match LastIndexOf(p, '/')
    case None => ""
    case Some(i) => p[..i + 1]
  }

  /** The final path component: everything after the last `/`. */
  function Component(p: string): (r: string)
    ensures forall j :: 0 <= j < |r| ==> r[j] != '/'
  {
    match LastIndexOf(p, '/')
    case None => p
    case Some(i) => p[i + 1..]
  }

  /** Where the extension of the path component `c` starts: at its last `.`,
      unless there is none or it is the first character, in which case the
      extension is empty and starts at the end. */
  function ExtStart(c: string): (k: nat)
    ensures k <= |c|
    ensures k < |c| ==> 0 < k && c[k] == '.'
    ensures forall j :: k < j < |c| ==> c[j] != '.'
    ensures k == |c| ==> forall j :: 0 < j < |c| ==> c[j] != '.'
  {
    match LastIndexOf(c, '.')
    case None => |c|
    case Some(i) => if i == 0 then |c| else i
  }

  /** Node's `path.extname`, in the stated simplification: the extension runs
      from the last `.` of the final component to its end, and is empty when
      the component has no `.` or its only `.` candidate is its first
      character. */
  function ExtName(p: string): string {
    var c := Component(p);
    c[ExtStart(c)..]
  }

  /** Node's `path.basename(p, path.extname(p))`: the final component with its
      extension cut off. */
  function Stem(p: string): string {
    var c := Component(p);
    c[..ExtStart(c)]
  }

  /** JavaScript's `hash.substr(0, 4)`: at most the first four characters. */
  function TakeHash(hash: string): (r: string)
    ensures |r| <= HashLength
    ensures |r| == if |hash| < HashLength then |hash| else HashLength
    ensures r == hash[..|r|]
  {
    if |hash| <= HashLength then hash else hash[..HashLength]
  }

  /** `transformFilename`: the new file name for a revisioned file. */
  function RevName(p: string, hash: string): string {
    Stem(p) + RevMarker + TakeHash(hash) + ExtName(p)
  }

  /** `p` matches `^pattern$` where every `.` in `pattern` is the regex
      wildcard and every other character stands for itself. */
  predicate MatchesDotted(pattern: string, p: string) {
    && |p| == |pattern|
    && forall i :: 0 <= i < |p| ==>
         if pattern[i] == '.' then RegexDot(p[i]) else p[i] == pattern[i]
  }

  /** The `dontRenameFile` list as written: `/^\/robots.txt$/` and
      `/^\/index.html$/`, whose dots are unescaped wildcards. */
  predicate ExemptAsWritten(p: string) {
    MatchesDotted("/robots.txt", p) || MatchesDotted("/index.html", p)
  }

  /** The `dontRenameFile` list as intended: exactly the two root files. */
  predicate Exempt(p: string) {
    p == "/robots.txt" || p == "/index.html"
  }

  /** The revisioned path of one build file under the intended exemption list:
      exempt files keep their path, every other file keeps its directory and
      gets the `transformFilename` name. */
  function Revision(p: string, hash: string): string {
    if Exempt(p) then p else Dir(p) + RevName(p, hash)
  }

  /** The revisioned path of one build file under the list as written. */
  function RevisionAsWritten(p: string, hash: string): string {
    if ExemptAsWritten(p) then p else Dir(p) + RevName(p, hash)
  }

  /** A hash the renaming can embed without disturbing the name's structure. */
  predicate PlainHash(hash: string) {
    forall i :: 0 <= i < |hash| ==> hash[i] != '.' && hash[i] != '/'
  }

  /** Every path splits into its directory and its final component, and the
      final component holds no `/`. */
  lemma DirComponentSplit(p: string)
    ensures p == Dir(p) + Component(p)
    ensures forall j :: 0 <= j < |Component(p)| ==> Component(p)[j] != '/'
  {
  }

  /** The final component splits into stem and extension; a non-empty
      extension starts with its only `.` and the stem is not empty. */
  lemma StemExtSplit(p: string)
    ensures Component(p) == Stem(p) + ExtName(p)
    ensures ExtName(p) != "" ==> ExtName(p)[0] == '.' && |Stem(p)| > 0
    ensures forall j :: 0 < j < |ExtName(p)| ==> ExtName(p)[j] != '.' && ExtName(p)[j] != '/'
    ensures forall j :: 0 <= j < |Stem(p)| ==> Stem(p)[j] != '/'
  {
  }

  /** `LastIndexOf` finds exactly the last occurrence. */
  lemma LastIndexOfAt(s: string, c: char, k: nat)
    requires k < |s| && s[k] == c
    requires forall j :: k < j < |s| ==> s[j] != c
    ensures LastIndexOf(s, c) == Some(k)
  {
  }

  /** A slash-free name appended to a directory (empty or ending in `/`) is
      the final component of the result. */
  lemma ComponentAfterDir(d: string, n: string)
    requires |d| == 0 || d[|d| - 1] == '/'
    requires forall j :: 0 <= j < |n| ==> n[j] != '/'
    ensures Component(d + n) == n
  {
    var q := d + n;
    if |d| > 0 {
      assert q[|d| - 1] == '/';
      forall j | |d| - 1 < j < |q|
        ensures q[j] != '/'
      {
        assert q[j] == n[j - |d|];
      }
      LastIndexOfAt(q, '/', |d| - 1);
      assert q[|d|..] == n;
    } else {
      assert q == n;
      assert LastIndexOf(q, '/').None?;
    }
  }

  /** With a plain hash the new name is a single path component, and it is
      the final component of the revisioned path. */
  lemma RevNameIsComponent(p: string, hash: string)
    requires PlainHash(hash)
    ensures forall j :: 0 <= j < |RevName(p, hash)| ==> RevName(p, hash)[j] != '/'
    ensures Component(RevName(p, hash)) == RevName(p, hash)
    ensures Component(Dir(p) + RevName(p, hash)) == RevName(p, hash)
  {
    StemExtSplit(p);
    var stem, h, ext := Stem(p), TakeHash(hash), ExtName(p);
    var n := RevName(p, hash);
    assert n == stem + RevMarker + h + ext;
    forall j | 0 <= j < |n|
      ensures n[j] != '/'
    {
      if j < |stem| {
        assert n[j] == stem[j];
      } else if j < |stem| + 5 {
        assert n[j] == RevMarker[j - |stem|];
      } else if j < |stem| + 5 + |h| {
        assert n[j] == hash[j - |stem| - 5];
      } else {
        assert n[j] == ext[j - |stem| - 5 - |h|];
      }
    }
    ComponentAfterDir("", n);
    ComponentAfterDir(Dir(p), n);
  }

  /** A single path component `a + ext`, where `ext` is a `.` followed by no
      other `.` and `a` is not empty, has extension `ext` and stem `a`. */
  lemma ExtNameOfSuffix(a: string, ext: string)
    requires |a| > 0 && |ext| > 0 && ext[0] == '.'
    requires forall j :: 0 < j < |ext| ==> ext[j] != '.'
    requires forall j :: 0 <= j < |a + ext| ==> (a + ext)[j] != '/'
    ensures ExtName(a + ext) == ext
    ensures Stem(a + ext) == a
  {
    var n := a + ext;
    assert LastIndexOf(n, '/').None?;
    assert Component(n) == n;
    assert n[|a|] == '.';
    forall j | |a| < j < |n|
      ensures n[j] != '.'
    {
      assert n[j] == ext[j - |a|];
    }
    LastIndexOfAt(n, '.', |a|);
    assert ExtStart(n) == |a|;
    assert n[|a|..] == ext;
    assert n[..|a|] == a;
  }

  /** `transformFilename` keeps the extension and the stem of a file that has
      an extension: the new name's extension is the old one and its stem is
      the old stem followed by `.rev.` and at most four hash characters. */
  lemma RevNameKeepsParts(p: string, hash: string)
    requires PlainHash(hash)
    requires ExtName(p) != ""
    ensures Component(RevName(p, hash)) == RevName(p, hash)
    ensures ExtName(RevName(p, hash)) == ExtName(p)
    ensures Stem(RevName(p, hash)) == Stem(p) + RevMarker + TakeHash(hash)
    ensures |TakeHash(hash)| <= HashLength
  {
    StemExtSplit(p);
    RevNameIsComponent(p, hash);
    var a := Stem(p) + RevMarker + TakeHash(hash);
    assert RevName(p, hash) == a + ExtName(p);
    ExtNameOfSuffix(a, ExtName(p));
  }

  /** A file without an extension gains one: the hash characters after `.rev.`
      become the new name's extension. */
  lemma RevNameWithoutExtension(p: string, hash: string)
    requires PlainHash(hash) && |hash| > 0
    requires ExtName(p) == ""
    ensures ExtName(RevName(p, hash)) == "." + TakeHash(hash)
  {
    StemExtSplit(p);
    var stem, h := Stem(p), TakeHash(hash);
    var a, e := stem + ".rev", "." + h;
    forall j | 0 <= j < |a + e|
      ensures (a + e)[j] != '/'
    {
      if j < |stem| {
        assert (a + e)[j] == stem[j];
      } else if j <= |a| {
        assert (a + e)[j] == ".rev."[j - |stem|];
      } else {
        assert (a + e)[j] == hash[j - |a| - 1];
      }
    }
    forall j | 0 < j < |e|
      ensures e[j] != '.'
    {
      assert e[j] == hash[j - 1];
    }
    assert RevName(p, hash) == a + e;
    ExtNameOfSuffix(a, e);
  }

  /** The exemption list decides renaming exactly: a path keeps its name if and
      only if it is `/robots.txt` or `/index.html`, so `/a/robots.txt` and
      every other path are renamed; a renamed path keeps its directory. */
  lemma RevisionRenamesUnlessExempt(p: string, hash: string)
    ensures Revision(p, hash) == p <==> Exempt(p)
    ensures !Exempt(p) ==> Revision(p, hash) == Dir(p) + RevName(p, hash)
    ensures !Exempt(p) ==> |Revision(p, hash)| == |p| + |RevMarker| + |TakeHash(hash)|
  {
    if !Exempt(p) {
      DirComponentSplit(p);
      StemExtSplit(p);
      assert |RevName(p, hash)| == |Component(p)| + |RevMarker| + |TakeHash(hash)|;
    }
  }

  /** The list as written exempts every path the intended list exempts. */
  lemma ExemptAsWrittenCoversExempt(p: string)
    requires Exempt(p)
    ensures ExemptAsWritten(p)
  {
  }

  /** The rename as written, the one the script performs: a path keeps its
      name exactly when the list as written matches it, and every other path
      is renamed just as the intended list renames it, so `/a/robots.txt` is
      renamed here too. */
  lemma RevisionAsWrittenRenamesUnlessExempt(p: string, hash: string)
    ensures RevisionAsWritten(p, hash) == p <==> ExemptAsWritten(p)
    ensures !ExemptAsWritten(p) ==> RevisionAsWritten(p, hash) == Revision(p, hash)
  {
    if Exempt(p) {
      ExemptAsWrittenCoversExempt(p);
    }
    RevisionRenamesUnlessExempt(p, hash);
  }

  /** The unescaped `.` of `/^\/robots.txt$/` also matches `_` and `/`. */
  lemma DotMatchesNearMisses()
    ensures MatchesDotted("/robots.txt", "/robots_txt")
    ensures MatchesDotted("/robots.txt", "/robots/txt")
  {
    var pattern, p, q := "/robots.txt", "/robots_txt", "/robots/txt";
    forall i | 0 <= i < |p|
      ensures if pattern[i] == '.' then RegexDot(p[i]) && RegexDot(q[i]) else p[i] == q[i] == pattern[i]
    {
      if i == 7 {
        assert p[i] == '_' && q[i] == '/';
      } else {
        assert p[i] == q[i] == pattern[i];
      }
    }
  }

  /** The unescaped dots of the list as written also exempt near misses
      such as `/robots_txt` and the nested path `/robots/txt`, which the
      intended list renames. */
  lemma ExemptAsWrittenNearMiss(hash: string)
    ensures ExemptAsWritten("/robots_txt") && !Exempt("/robots_txt")
    ensures RevisionAsWritten("/robots_txt", hash) == "/robots_txt"
    ensures Revision("/robots_txt", hash) != "/robots_txt"
    ensures ExemptAsWritten("/robots/txt") && !Exempt("/robots/txt")
    ensures RevisionAsWritten("/robots/txt", hash) == "/robots/txt"
    ensures Revision("/robots/txt", hash) != "/robots/txt"
  {
    DotMatchesNearMisses();
    RevisionRenamesUnlessExempt("/robots_txt", hash);
    RevisionRenamesUnlessExempt("/robots/txt", hash);
  }
}
