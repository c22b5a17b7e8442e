/** The `awspublishRouter` route table of the `publish:s3` task: an ordered
    list of patterns over remote object keys, each with a cache policy; the
    first pattern that matches a key decides its policy. Each pattern is a
    hand-written predicate that agrees with the regular expression it stands
    for. */
module Routes {
  import opened Wrappers
  import opened RegexClasses

  const OneWeek: nat := 604800
  const FiveMinutes: nat := 300

  /** The literal part of the hashed-name pattern `\.rev\.([a-z0-9]{4})`. */
  const RevLiteral: string := ".rev."
  const RevHashLength: nat := 4
  const RobotsName: string := "robots.txt"

  datatype RouteRule =
    | Hashed          // `\.rev\.([a-z0-9]{4})`, unanchored
    | WordCharRobots  // `\wrobots\.txt$`, the robots pattern as written
    | RobotsFile      // a key whose final component is `robots.txt`
    | Anything        // `^.+$`

  /** The `cacheTime` of a route in seconds; none for the catch-all, which
      leaves the uploader's defaults in place. */
  function CacheTime(rule: RouteRule): Option<nat> {
    match rule
    case Hashed => Some(OneWeek)
    case WordCharRobots => Some(FiveMinutes)
    case RobotsFile => Some(FiveMinutes)
    case Anything => None
  }

  /** The hashed-name pattern matches at position `i`. */
  predicate RevAt(key: string, i: nat)
    requires i + |RevLiteral| + RevHashLength <= |key|
  {
    && key[i..i + |RevLiteral|] == RevLiteral
    && forall k :: i + |RevLiteral| <= k < i + |RevLiteral| + RevHashLength ==> IsLowerAlnum(key[k])
  }

  /** The unanchored pattern `\.rev\.([a-z0-9]{4})` matches somewhere in `key`. */
  predicate HasRevHash(key: string) {
    exists i: nat :: i + |RevLiteral| + RevHashLength <= |key| && RevAt(key, i)
  }

  /** `\wrobots\.txt$`: a word character, then `robots.txt` at the very end. */
  predicate EndsWithWordCharRobots(key: string) {
    && |key| > |RobotsName|
    && IsWordChar(key[|key| - |RobotsName| - 1])
    && key[|key| - |RobotsName|..] == RobotsName
  }

  /** The final path component of `key` is `robots.txt`. */
  predicate IsRobotsFile(key: string) {
    && |key| >= |RobotsName|
    && key[|key| - |RobotsName|..] == RobotsName
    && (|key| == |RobotsName| || key[|key| - |RobotsName| - 1] == '/')
  }

  /** `^.+$`: at least one character and no line terminator. */
  predicate NonEmptyLine(key: string) {
    |key| > 0 && forall i :: 0 <= i < |key| ==> !LineTerminator(key[i])
  }

  predicate Matches(rule: RouteRule, key: string) {
    match rule
    case Hashed => HasRevHash(key)
    case WordCharRobots => EndsWithWordCharRobots(key)
    case RobotsFile => IsRobotsFile(key)
    case Anything => NonEmptyLine(key)
  }

  /** The table as the build script writes it. */
  const AsWrittenTable: seq<RouteRule> := [Hashed, WordCharRobots, Anything]

  /** The table with the robots route matching the robots file itself. */
  const Table: seq<RouteRule> := [Hashed, RobotsFile, Anything]

  /** The position of the first rule of `table` that matches `key`. */
  function FirstMatch(table: seq<RouteRule>, key: string): (r: Option<nat>)
    ensures r.Some? ==> r.value < |table| && Matches(table[r.value], key)
    ensures r.Some? ==> forall j :: 0 <= j < r.value ==> !Matches(table[j], key)
    ensures r.None? ==> forall j :: 0 <= j < |table| ==> !Matches(table[j], key)
  {
    if |table| == 0 then None
    else if Matches(table[0], key) then Some(0)
    else
      match FirstMatch(table[1..], key)
      case None => None
      case Some(i) => Some(i + 1)
  }

  /** The route `table` gives `key`, if any rule matches. */
  function Route(table: seq<RouteRule>, key: string): Option<RouteRule> {
    match FirstMatch(table, key)
    case None => None
    case Some(i) => Some(table[i])
  }

  /** The route the table as written gives `key`, stated case by case as
      the router's first-match rule promises it. */
  function AsWrittenRoute(key: string): Option<RouteRule> {
    if HasRevHash(key) then Some(Hashed)
    else if EndsWithWordCharRobots(key) then Some(WordCharRobots)
    else if NonEmptyLine(key) then Some(Anything)
    else None
  }

  /** The route the corrected table gives `key`, case by case. */
  function CorrectedRoute(key: string): Option<RouteRule> {
    if HasRevHash(key) then Some(Hashed)
    else if IsRobotsFile(key) then Some(RobotsFile)
    else if NonEmptyLine(key) then Some(Anything)
    else None
  }

  /** The table as written, case by case: a hashed name gets one week;
      otherwise a word character before a final `robots.txt` gets five
      minutes; otherwise any non-empty single-line key gets the default;
      a key matching none has no route. */
  lemma AsWrittenRouteCases(key: string)
    ensures HasRevHash(key) ==> Route(AsWrittenTable, key) == Some(Hashed)
    ensures !HasRevHash(key) && EndsWithWordCharRobots(key) ==>
      Route(AsWrittenTable, key) == Some(WordCharRobots)
    ensures !HasRevHash(key) && !EndsWithWordCharRobots(key) && NonEmptyLine(key) ==>
      Route(AsWrittenTable, key) == Some(Anything)
    ensures Route(AsWrittenTable, key) == None <==>
      !HasRevHash(key) && !EndsWithWordCharRobots(key) && !NonEmptyLine(key)
    ensures Route(AsWrittenTable, key) == AsWrittenRoute(key)
  {
    var table := AsWrittenTable;
    assert table[0] == Hashed && table[1] == WordCharRobots && table[2] == Anything;
    var r := FirstMatch(table, key);
    if r.Some? {
      assert r.value == 0 || r.value == 1 || r.value == 2;
    }
  }

  /** The corrected table, case by case. */
  lemma RouteCases(key: string)
    ensures HasRevHash(key) ==> Route(Table, key) == Some(Hashed)
    ensures !HasRevHash(key) && IsRobotsFile(key) ==> Route(Table, key) == Some(RobotsFile)
    ensures !HasRevHash(key) && !IsRobotsFile(key) && NonEmptyLine(key) ==>
      Route(Table, key) == Some(Anything)
    ensures Route(Table, key) == None <==>
      !HasRevHash(key) && !IsRobotsFile(key) && !NonEmptyLine(key)
    ensures Route(Table, key) == CorrectedRoute(key)
  {
    var table := Table;
    assert table[0] == Hashed && table[1] == RobotsFile && table[2] == Anything;
    var r := FirstMatch(table, key);
    if r.Some? {
      assert r.value == 0 || r.value == 1 || r.value == 2;
    }
  }

  /** The catch-all closes both tables: every non-empty single-line key gets a
      route. */
  lemma CatchAllCovers(key: string)
    requires NonEmptyLine(key)
    ensures Route(AsWrittenTable, key).Some? && Route(Table, key).Some?
  {
    AsWrittenRouteCases(key);
    RouteCases(key);
  }

  /** The table on two typical keys: a hashed asset name gets one week and
      the root HTML page the default route, under either table. */
  lemma RouteExamples()
    ensures Route(AsWrittenTable, "app.rev.a1b2.js") == Some(Hashed)
    ensures Route(Table, "app.rev.a1b2.js") == Some(Hashed)
    ensures Route(AsWrittenTable, "index.html") == Some(Anything)
    ensures Route(Table, "index.html") == Some(Anything)
  {
    var hashed := "app.rev.a1b2.js";
    assert hashed[3..8] == RevLiteral;
    assert RevAt(hashed, 3);
    AsWrittenRouteCases(hashed);
    RouteCases(hashed);

    var page := "index.html";
    forall i: nat | i + |RevLiteral| + RevHashLength <= |page|
      ensures !RevAt(page, i)
    {
      assert page[i..i + |RevLiteral|][0] == page[i] != '.';
    }
    assert !IsRobotsFile(page) && !EndsWithWordCharRobots(page);
    forall i | 0 <= i < |page|
      ensures !LineTerminator(page[i])
    {
    }
    AsWrittenRouteCases(page);
    RouteCases(page);
  }

  /** Scans `key` for the leftmost match of `\.rev\.([a-z0-9]{4})`, as the
      router's regular-expression test does. */
  method FindRevHash(key: string) returns (found: bool, at: nat)
    ensures found <==> HasRevHash(key)
    ensures found ==> at + |RevLiteral| + RevHashLength <= |key| && RevAt(key, at)
    ensures found ==> forall i: nat :: i < at && i + |RevLiteral| + RevHashLength <= |key| ==> !RevAt(key, i)
  {
    at := 0;
    while at + |RevLiteral| + RevHashLength <= |key|
      invariant forall i: nat :: i < at && i + |RevLiteral| + RevHashLength <= |key| ==> !RevAt(key, i)
    {
      if RevAt(key, at) {
        return true, at;
      }
      at := at + 1;
    }
    return false, 0;
  }
}
