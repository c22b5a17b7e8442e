/** The `publish:s3` pipeline between resolving its settings and uploading:
    every distribution file is re-rooted under the prefix and then classified
    by the route table. */
module Publish {
  import opened Wrappers
  import opened RegexClasses
  import opened PublishConfig
  import opened Fingerprint
  import opened Routes

  /** A file of the distribution tree as `gulp-rename` presents it: its
      directory relative to the tree (`.` at the root) and its file name. */
  datatype DistFile = DistFile(dirname: string, name: string)

  /** One object to upload: its remote key and the route the router gives it. */
  datatype Upload = Upload(key: string, route: Option<RouteRule>)

  /** What `gulp-rename` hands the callback for a file found by `gulp.src`:
      the directory is `.` or a relative path, and the name is one non-empty
      path component. */
  predicate WellFormed(f: DistFile) {
    && (f.dirname == "." || (|f.dirname| > 0 && f.dirname[0] != '/'))
    && |f.name| > 0
    && forall j :: 0 <= j < |f.name| ==> f.name[j] != '/'
  }

  /** The path of `f` below the distribution root. */
  function RelativePath(dirname: string, name: string): string {
    if dirname == "." then name else dirname + "/" + name
  }

  /** A path taken relative to the distribution root: the slashes it starts
      with are removed, and nothing else changes. */
  function DropLeadingSlashes(s: string): (r: string)
    ensures |r| <= |s|
    ensures |r| == 0 || r[0] != '/'
    decreases |s|
  {
    if |s| > 0 && s[0] == '/' then DropLeadingSlashes(s[1..]) else s
  }

  /** `DropLeadingSlashes` keeps a suffix of the path, and everything it
      removes is a `/`. */
  lemma {:induction false} DropLeadingSlashesOnlySlashes(s: string)
    ensures DropLeadingSlashes(s) == s[|s| - |DropLeadingSlashes(s)|..]
    ensures forall j :: 0 <= j < |s| - |DropLeadingSlashes(s)| ==> s[j] == '/'
    decreases |s|
  {
    if |s| > 0 && s[0] == '/' {
      DropLeadingSlashesOnlySlashes(s[1..]);
      assert s[1..][|s| - 1 - |DropLeadingSlashes(s)|..] == s[|s| - |DropLeadingSlashes(s)|..];
      forall j | 0 < j < |s| - |DropLeadingSlashes(s)|
        ensures s[j] == '/'
      {
        assert s[j] == s[1..][j - 1];
      }
    }
  }

  /** Leading slashes belong to the first part of a path whose second part
      does not start with one. */
  lemma {:induction false} DropLeadingSlashesAppend(a: string, b: string)
    requires |b| > 0 && b[0] != '/'
    ensures DropLeadingSlashes(a + b) == DropLeadingSlashes(a) + b
    decreases |a|
  {
    if |a| == 0 {
      assert a + b == b;
    } else if a[0] == '/' {
      assert (a + b)[1..] == a[1..] + b;
      DropLeadingSlashesAppend(a[1..], b);
    } else {
      assert (a + b)[0] == a[0];
    }
  }

  /** The path `gulp-rename` rebuilds after the callback prepends the prefix
      to the directory; joining collapses the `prefix/.` of a root-level file
      to `prefix/`. */
  function JoinedPath(prefix: string, dirname: string, name: string): string {
    if dirname == "." then prefix + name else prefix + dirname + "/" + name
  }

  /** The `rename` step: the remote key is the rebuilt path relative to the
      distribution root, so slashes the prefix starts with do not survive. */
  function RemoteKey(prefix: string, dirname: string, name: string): string {
    DropLeadingSlashes(JoinedPath(prefix, dirname, name))
  }

  /** The directory part of a key: the prefix and the file's directory,
      relative to the distribution root. */
  function KeyDir(prefix: string, dirname: string): string {
    DropLeadingSlashes(if dirname == "." then prefix else prefix + dirname + "/")
  }

  /** A name that does not start with `/` is appended unchanged to the
      directory part of its key; under a normalised prefix that directory
      part is empty or ends with `/`. */
  lemma RemoteKeySplit(prefix: string, dirname: string, name: string)
    requires |name| > 0 && name[0] != '/'
    ensures RemoteKey(prefix, dirname, name) == KeyDir(prefix, dirname) + name
    ensures var d := KeyDir(prefix, dirname);
      EndsWithSlash(prefix) ==> |d| == 0 || d[|d| - 1] == '/'
  {
    var a := if dirname == "." then prefix else prefix + dirname + "/";
    assert JoinedPath(prefix, dirname, name) == a + name;
    DropLeadingSlashesAppend(a, name);
    var d := DropLeadingSlashes(a);
    assert KeyDir(prefix, dirname) == d;
    if |d| > 0 {
      DropLeadingSlashesOnlySlashes(a);
      assert d[|d| - 1] == a[|a| - 1];
    }
  }

  /** Under a normalised prefix the key ends with the file name, and the
      character before it, if there is one, is `/`. */
  lemma RemoteKeyEndsWithName(prefix: string, dirname: string, name: string)
    requires EndsWithSlash(prefix)
    requires |name| > 0 && name[0] != '/'
    ensures var key := RemoteKey(prefix, dirname, name);
      && |key| >= |name|
      && key[|key| - |name|..] == name
      && (|key| == |name| || key[|key| - |name| - 1] == '/')
  {
    RemoteKeySplit(prefix, dirname, name);
    var d := KeyDir(prefix, dirname);
    var key := d + name;
    assert key[|key| - |name|..] == name;
    if |d| > 0 {
      assert key[|key| - |name| - 1] == d[|d| - 1];
    }
  }

  /** Under a normalised prefix each key is the prefix without its leading
      slashes followed by the file's path below the distribution root; it
      never starts with `/`, and it ends with the name, after a `/` or at the
      start of the key. */
  lemma RemoteKeyShape(prefix: string, dirname: string, name: string)
    requires EndsWithSlash(prefix)
    requires WellFormed(DistFile(dirname, name))
    ensures var key := RemoteKey(prefix, dirname, name);
      && key == DropLeadingSlashes(prefix) + RelativePath(dirname, name)
      && |key| > 0 && key[0] != '/'
      && key[|key| - |name|..] == name
      && (|key| == |name| || key[|key| - |name| - 1] == '/')
  {
    var rel := RelativePath(dirname, name);
    assert JoinedPath(prefix, dirname, name) == prefix + rel;
    assert rel[0] != '/' by {
      if dirname == "." { assert rel[0] == name[0]; } else { assert rel[0] == dirname[0]; }
    }
    DropLeadingSlashesAppend(prefix, rel);
    RemoteKeyEndsWithName(prefix, dirname, name);
  }

  /** Keys of the publish run under the root-of-bucket opt-in `/`: the
      leading `/` does not survive. */
  lemma RootPrefixKeys()
    ensures RemoteKey("/", ".", "index.html") == "index.html"
    ensures RemoteKey("/", "css", "site.css") == "css/site.css"
  {
    assert JoinedPath("/", ".", "index.html") == "/" + "index.html";
    DropLeadingSlashesAppend("/", "index.html");
    assert JoinedPath("/", "css", "site.css") == "/" + "css/site.css";
    DropLeadingSlashesAppend("/", "css/site.css");
  }

  /** A key under a prefix without a leading `/`. */
  lemma NamedPrefixKeys()
    ensures RemoteKey("team/", "css", "site.css") == "team/css/site.css"
  {
    assert JoinedPath("team/", "css", "site.css") == "team/css/site.css";
  }

  /** A hashed-name match inside `n` stays a match when `n` is re-rooted
      under any `a`. */
  lemma RevAtShift(a: string, n: string, j: nat)
    requires j + |RevLiteral| + RevHashLength <= |n| && RevAt(n, j)
    ensures RevAt(a + n, |a| + j)
  {
  }

  /** A name `transformFilename` builds from a hash whose first four
      characters are in `[a-z0-9]` matches the hashed-name pattern right after
      its stem. */
  lemma RevNameRevAt(p: string, hash: string)
    requires |hash| >= HashLength
    requires forall k :: 0 <= k < HashLength ==> IsLowerAlnum(hash[k])
    ensures |Stem(p)| + |RevLiteral| + RevHashLength <= |RevName(p, hash)|
    ensures RevAt(RevName(p, hash), |Stem(p)|)
  {
    var stem, h := Stem(p), TakeHash(hash);
    var n := RevName(p, hash);
    assert n == stem + RevMarker + h + ExtName(p);
    assert n[|stem|..|stem| + |RevLiteral|] == RevMarker;
    forall k | |stem| + |RevLiteral| <= k < |stem| + |RevLiteral| + RevHashLength
      ensures IsLowerAlnum(n[k])
    {
      assert n[k] == h[k - |stem| - |RevLiteral|];
    }
  }

  /** Every re-rooted name built by `transformFilename` from a hash whose
      first four characters are in `[a-z0-9]` contains a hashed-name match. */
  lemma RevisedKeyHasRevHash(prefix: string, dirname: string, p: string, hash: string)
    requires |hash| >= HashLength
    requires forall k :: 0 <= k < HashLength ==> IsLowerAlnum(hash[k])
    ensures HasRevHash(RemoteKey(prefix, dirname, RevName(p, hash)))
  {
    var n := RevName(p, hash);
    StemExtSplit(p);
    assert n[0] != '/' by {
      if |Stem(p)| > 0 { assert n[0] == Stem(p)[0]; } else { assert n[0] == RevMarker[0]; }
    }
    RemoteKeySplit(prefix, dirname, n);
    var d := KeyDir(prefix, dirname);
    RevNameRevAt(p, hash);
    RevAtShift(d, n, |Stem(p)|);
  }

  /** The fingerprint and the routes agree: whatever the prefix and directory,
      a name `transformFilename` builds from a hash whose first four
      characters are lower-case hex (or any `[a-z0-9]`) is cached for one
      week, under the table as written and the corrected one alike. */
  lemma RevisedNameCachedOneWeek(prefix: string, dirname: string, p: string, hash: string)
    requires |hash| >= HashLength
    requires forall k :: 0 <= k < HashLength ==> IsLowerAlnum(hash[k])
    ensures var key := RemoteKey(prefix, dirname, RevName(p, hash));
      && Route(AsWrittenTable, key) == Some(Hashed)
      && Route(Table, key) == Some(Hashed)
      && CacheTime(Hashed) == Some(OneWeek)
  {
    var key := RemoteKey(prefix, dirname, RevName(p, hash));
    RevisedKeyHasRevHash(prefix, dirname, p, hash);
    AsWrittenRouteCases(key);
    RouteCases(key);
  }

  /** A renamed build file's final component is exactly the name that the
      week-long route catches. */
  lemma RevisedPathName(p: string, hash: string)
    requires PlainHash(hash)
    requires !Exempt(p)
    ensures Component(Revision(p, hash)) == RevName(p, hash)
  {
    RevNameIsComponent(p, hash);
  }

  /** As written, the robots route never catches a re-rooted `robots.txt`:
      the character before the name is the `/` of the prefix or the
      directory, which is not a word character, or there is none at all
      (prefix `/`, key `robots.txt`). */
  lemma RobotsKeyMissesRobotsRouteAsWritten(prefix: string, dirname: string)
    requires EndsWithSlash(prefix)
    ensures Route(AsWrittenTable, RemoteKey(prefix, dirname, RobotsName)) != Some(WordCharRobots)
  {
    var key := RemoteKey(prefix, dirname, RobotsName);
    RemoteKeyEndsWithName(prefix, dirname, RobotsName);
    assert !EndsWithWordCharRobots(key);
    AsWrittenRouteCases(key);
  }

  /** With the corrected table a re-rooted `robots.txt` gets the five-minute
      route, unless the prefix or directory itself carries a hashed name. */
  lemma RobotsKeyGetsRobotsRoute(prefix: string, dirname: string)
    requires EndsWithSlash(prefix)
    ensures var key := RemoteKey(prefix, dirname, RobotsName);
      Route(Table, key) == if HasRevHash(key) then Some(Hashed) else Some(RobotsFile)
    ensures CacheTime(RobotsFile) == Some(FiveMinutes)
  {
    var key := RemoteKey(prefix, dirname, RobotsName);
    RemoteKeyEndsWithName(prefix, dirname, RobotsName);
    assert IsRobotsFile(key);
    RouteCases(key);
  }

  /** `u` is what the publish run makes of `f` under `prefix` and `table`:
      the key is the prefix without its leading slashes followed by the
      file's path below the distribution root; the route is a rule of the
      table that matches the key, or none when no rule does; a table that
      starts with the hashed-name rule sends every hashed key to it; and the
      two tables of this model route case by case. */
  predicate Planned(table: seq<RouteRule>, prefix: string, f: DistFile, u: Upload) {
    && u.key == DropLeadingSlashes(prefix) + RelativePath(f.dirname, f.name)
    && |u.key| > 0 && u.key[0] != '/'
    && (u.route.Some? ==> u.route.value in table && Matches(u.route.value, u.key))
    && (u.route.None? ==> forall j :: 0 <= j < |table| ==> !Matches(table[j], u.key))
    && (|table| > 0 && table[0] == Hashed && HasRevHash(u.key) ==> u.route == Some(Hashed))
    && (table == AsWrittenTable ==> u.route == AsWrittenRoute(u.key))
    && (table == Table ==> u.route == CorrectedRoute(u.key))
  }

  /** The upload of a single distribution file under `table`. */
  function PlanOne(table: seq<RouteRule>, prefix: string, f: DistFile): (u: Upload)
    requires EndsWithSlash(prefix)
    requires WellFormed(f)
    ensures Planned(table, prefix, f, u)
  {
    var key := RemoteKey(prefix, f.dirname, f.name);
    RemoteKeyShape(prefix, f.dirname, f.name);
    AsWrittenRouteCases(key);
    RouteCases(key);
    Upload(key, Route(table, key))
  }

  /** Planning the first file and then the rest plans every file. */
  lemma PlannedCons(table: seq<RouteRule>, prefix: string, files: seq<DistFile>, first: Upload, rest: seq<Upload>)
    requires |files| > 0 && |rest| == |files| - 1
    requires Planned(table, prefix, files[0], first)
    requires forall i :: 0 <= i < |rest| ==> Planned(table, prefix, files[1..][i], rest[i])
    ensures forall i :: 0 <= i < |files| ==> Planned(table, prefix, files[i], ([first] + rest)[i])
  {
    forall i | 0 < i < |files|
      ensures Planned(table, prefix, files[i], ([first] + rest)[i])
    {
      assert files[i] == files[1..][i - 1] && ([first] + rest)[i] == rest[i - 1];
    }
  }

  /** The upload plan of one publish run: each distribution file, in order,
      with its remote key under the resolved prefix and the route `table`
      gives it. The script's run is `PlanUploads(AsWrittenTable, …)`. */
  function PlanUploads(table: seq<RouteRule>, prefix: string, files: seq<DistFile>): (uploads: seq<Upload>)
    requires EndsWithSlash(prefix)
    requires forall i :: 0 <= i < |files| ==> WellFormed(files[i])
    ensures |uploads| == |files|
    ensures forall i :: 0 <= i < |files| ==> Planned(table, prefix, files[i], uploads[i])
  {
    if |files| == 0 then []
    else
      var first, rest := PlanOne(table, prefix, files[0]), PlanUploads(table, prefix, files[1..]);
      PlannedCons(table, prefix, files, first, rest);
      [first] + rest
  }

  /** One file planned under both tables: the same key, routes that differ
      only on a key ending in `robots.txt`, and for `robots.txt` itself the
      five-minute rule only in the corrected plan. */
  lemma PlannedVersusCorrected(prefix: string, f: DistFile, w: Upload, c: Upload)
    requires EndsWithSlash(prefix) && WellFormed(f)
    requires Planned(AsWrittenTable, prefix, f, w) && Planned(Table, prefix, f, c)
    ensures w.key == c.key
    ensures w.route != c.route ==>
      !HasRevHash(c.key) && (IsRobotsFile(c.key) || EndsWithWordCharRobots(c.key))
    ensures f.name == RobotsName ==>
      && w.route != Some(WordCharRobots)
      && c.route == (if HasRevHash(c.key) then Some(Hashed) else Some(RobotsFile))
  {
    if f.name == RobotsName {
      RemoteKeyShape(prefix, f.dirname, RobotsName);
      RobotsKeyMissesRobotsRouteAsWritten(prefix, f.dirname);
      AsWrittenRouteCases(w.key);
      RobotsKeyGetsRobotsRoute(prefix, f.dirname);
      RouteCases(c.key);
    }
  }

  /** A plan of one file is that file's upload. */
  lemma PlanSingle(table: seq<RouteRule>, prefix: string, f: DistFile)
    requires EndsWithSlash(prefix) && WellFormed(f)
    ensures PlanUploads(table, prefix, [f]) == [PlanOne(table, prefix, f)]
  {
    assert [f][1..] == [];
  }

  /** The script's plan and the corrected one give every file the same key
      and disagree only on keys ending in `robots.txt`: there the script's
      plan never uses the five-minute rule, and the corrected plan uses it
      unless the key carries a hashed name. */
  lemma AsWrittenPlanVersusCorrected(prefix: string, files: seq<DistFile>)
    requires EndsWithSlash(prefix)
    requires forall i :: 0 <= i < |files| ==> WellFormed(files[i])
    ensures var w, c := PlanUploads(AsWrittenTable, prefix, files), PlanUploads(Table, prefix, files);
      forall i :: 0 <= i < |files| ==>
        && w[i].key == c[i].key
        && (w[i].route != c[i].route ==>
              !HasRevHash(c[i].key) && (IsRobotsFile(c[i].key) || EndsWithWordCharRobots(c[i].key)))
        && (files[i].name == RobotsName ==>
              && w[i].route != Some(WordCharRobots)
              && c[i].route == (if HasRevHash(c[i].key) then Some(Hashed) else Some(RobotsFile)))
  {
    var w, c := PlanUploads(AsWrittenTable, prefix, files), PlanUploads(Table, prefix, files);
    forall i | 0 <= i < |files|
      ensures w[i].key == c[i].key
      ensures w[i].route != c[i].route ==>
        !HasRevHash(c[i].key) && (IsRobotsFile(c[i].key) || EndsWithWordCharRobots(c[i].key))
      ensures files[i].name == RobotsName ==>
        && w[i].route != Some(WordCharRobots)
        && c[i].route == (if HasRevHash(c[i].key) then Some(Hashed) else Some(RobotsFile))
    {
      PlannedVersusCorrected(prefix, files[i], w[i], c[i]);
    }
  }

  /** How the two tables route the key `team/robots.txt`. */
  lemma TeamRobotsRoutes()
    ensures AsWrittenRoute("team/robots.txt") == Some(Anything)
    ensures CorrectedRoute("team/robots.txt") == Some(RobotsFile)
  {
    var team := "team/robots.txt";
    forall i: nat | i + |RevLiteral| + RevHashLength <= |team|
      ensures !RevAt(team, i)
    {
      assert team[i..i + |RevLiteral|][0] == team[i] != '.';
    }
    assert !EndsWithWordCharRobots(team) by {
      assert team[|team| - |RobotsName| - 1] == '/';
    }
    assert IsRobotsFile(team);
    forall i | 0 <= i < |team|
      ensures !LineTerminator(team[i])
    {
    }
  }

  /** A hashed-name match in a suffix of `s` is a match in `s`. */
  lemma RevAtSuffix(s: string, k: nat, i: nat)
    requires k <= |s| && i + |RevLiteral| + RevHashLength <= |s| - k
    requires RevAt(s[k..], i)
    ensures RevAt(s, k + i)
  {
    assert s[k..][i..i + |RevLiteral|] == s[k + i..k + i + |RevLiteral|];
    forall j | k + i + |RevLiteral| <= j < k + i + |RevLiteral| + RevHashLength
      ensures IsLowerAlnum(s[j])
    {
      assert s[j] == s[k..][j - k];
    }
  }

  /** No hashed-name match can end in `robots.txt` or cross the `/` before
      it, so a directory part free of matches keeps the key free of them. */
  lemma NoRevHashBeforeRobots(d: string)
    requires |d| == 0 || d[|d| - 1] == '/'
    requires !HasRevHash(d)
    ensures !HasRevHash(d + RobotsName)
  {
    var key := d + RobotsName;
    forall i: nat | i + |RevLiteral| + RevHashLength <= |key|
      ensures !RevAt(key, i)
    {
      if i + |RevLiteral| + RevHashLength <= |d| {
        assert !RevAt(d, i);
        assert key[i..i + |RevLiteral|] == d[i..i + |RevLiteral|];
        assert forall j :: i + |RevLiteral| <= j < i + |RevLiteral| + RevHashLength ==> key[j] == d[j];
      } else if i < |d| {
        var p := |d| - 1;
        assert key[p] == '/';
        if p < i + |RevLiteral| {
          assert key[i..i + |RevLiteral|][p - i] == key[p];
        }
      } else {
        assert key[i..i + |RevLiteral|][0] == key[i] == RobotsName[i - |d|];
      }
    }
  }

  /** A string free of hashed-name matches has no match in any suffix. */
  lemma NoRevHashInSuffix(s: string, k: nat)
    requires k <= |s| && !HasRevHash(s)
    ensures !HasRevHash(s[k..])
  {
    forall i: nat | i + |RevLiteral| + RevHashLength <= |s[k..]|
      ensures !RevAt(s[k..], i)
    {
      if RevAt(s[k..], i) {
        RevAtSuffix(s, k, i);
      }
    }
  }

  /** The directory part a prefix without a hashed name or a line break
      contributes to a key has neither. */
  lemma PlainKeyDir(prefix: string)
    requires !HasRevHash(prefix)
    requires forall j :: 0 <= j < |prefix| ==> !LineTerminator(prefix[j])
    ensures var d := DropLeadingSlashes(prefix);
      && !HasRevHash(d)
      && forall j :: 0 <= j < |d| ==> !LineTerminator(d[j])
  {
    var d := DropLeadingSlashes(prefix);
    DropLeadingSlashesOnlySlashes(prefix);
    var k := |prefix| - |d|;
    assert d == prefix[k..];
    NoRevHashInSuffix(prefix, k);
    forall j | 0 <= j < |d|
      ensures !LineTerminator(d[j])
    {
      assert d[j] == prefix[k + j];
    }
  }

  /** A single-line directory part followed by `robots.txt` is a non-empty
      single line. */
  lemma SingleLineBeforeRobots(d: string)
    requires forall j :: 0 <= j < |d| ==> !LineTerminator(d[j])
    ensures NonEmptyLine(d + RobotsName)
  {
    var key := d + RobotsName;
    forall j | 0 <= j < |key|
      ensures !LineTerminator(key[j])
    {
      if j < |d| {
        assert key[j] == d[j];
      } else {
        assert key[j] == RobotsName[j - |d|];
      }
    }
  }

  /** The key of a root-level `robots.txt`: its directory part, which is
      empty or ends with `/`, then the name; a robots file that the rule as
      written does not catch. */
  lemma RootRobotsKeyShape(prefix: string)
    requires EndsWithSlash(prefix)
    ensures var d := DropLeadingSlashes(prefix);
      && (|d| == 0 || d[|d| - 1] == '/')
      && RemoteKey(prefix, ".", RobotsName) == d + RobotsName
      && IsRobotsFile(d + RobotsName) && !EndsWithWordCharRobots(d + RobotsName)
  {
    RemoteKeySplit(prefix, ".", RobotsName);
    assert KeyDir(prefix, ".") == DropLeadingSlashes(prefix);
    RemoteKeyEndsWithName(prefix, ".", RobotsName);
  }

  /** The key of a root-level `robots.txt` under a prefix without a hashed
      name or a line break: a robots file, not one the rule as written
      catches, with no hashed name, and on one non-empty line. */
  lemma RootRobotsKey(prefix: string)
    requires EndsWithSlash(prefix) && !HasRevHash(prefix)
    requires forall j :: 0 <= j < |prefix| ==> !LineTerminator(prefix[j])
    ensures var key := DropLeadingSlashes(prefix) + RobotsName;
      && RemoteKey(prefix, ".", RobotsName) == key
      && IsRobotsFile(key) && !EndsWithWordCharRobots(key)
      && !HasRevHash(key) && NonEmptyLine(key)
  {
    var d := DropLeadingSlashes(prefix);
    RootRobotsKeyShape(prefix);
    PlainKeyDir(prefix);
    NoRevHashBeforeRobots(d);
    SingleLineBeforeRobots(d);
  }

  /** `robots.txt` at the distribution root, under any prefix without a
      hashed name or a line break: the script uploads it with the default
      route, and the corrected table gives it the five-minute rule. Prefix
      `team/` gives key `team/robots.txt`. */
  lemma RootRobotsPlan(prefix: string)
    requires EndsWithSlash(prefix) && !HasRevHash(prefix)
    requires forall j :: 0 <= j < |prefix| ==> !LineTerminator(prefix[j])
    ensures var files, key := [DistFile(".", RobotsName)], DropLeadingSlashes(prefix) + RobotsName;
      && PlanUploads(AsWrittenTable, prefix, files) == [Upload(key, Some(Anything))]
      && PlanUploads(Table, prefix, files) == [Upload(key, Some(RobotsFile))]
  {
    var f := DistFile(".", RobotsName);
    assert WellFormed(f);
    var key := DropLeadingSlashes(prefix) + RobotsName;
    RootRobotsKey(prefix);
    PlanSingle(AsWrittenTable, prefix, f);
    PlanSingle(Table, prefix, f);
    var w, c := PlanOne(AsWrittenTable, prefix, f), PlanOne(Table, prefix, f);
    assert w.key == key && w.route == AsWrittenRoute(key);
    assert c.key == key && c.route == CorrectedRoute(key);
  }

}
