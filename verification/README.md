# Static-site publish rules, modelled in Dafny

The build script of this static site (`gulpfile.js`) mostly wires third-party
gulp plugins together. The script adds three small string rules of its own,
and this project models them as pure functions and proves properties about them:

- **Publish settings** (`PublishConfig`). `determinePublishBucket` and
  `determinePublishPrefix` read `S3_PUBLISH_BUCKET` and `S3_PUBLISH_PREFIX`.
  A falsy value (unset or empty) throws a fixed message. Otherwise the bucket
  is returned unchanged and the prefix is made to end in `/`. The bucket is
  resolved before the prefix, and both are resolved before the publisher is
  created with its region and its per-bucket manifest file
  `.ci/awspublish-<bucket>.json`. An environment value is an `Option<string>`.
  A thrown message is the `Failure` of a `Result`.
- **Fingerprinted file names** (`Fingerprint`). The `dist:cdn` task renames
  each build file to `basename + ".rev." + hash.substr(0, 4) + ext`. The files
  on the `dontRenameFile` list keep their names. Paths are the
  build-relative, `/`-rooted paths the revisioning plugin works with. The
  content hash is an input string.
- **Cache routes** (`Routes`, `Publish`). `publish:s3` re-roots every
  distribution file under the prefix. The `awspublishRouter` table then
  classifies the key, and the first matching rule wins:
  `\.rev\.([a-z0-9]{4})` gets 604800 seconds, `\wrobots\.txt$` gets 300
  seconds, and `^.+$` leaves the uploader's defaults. Each regular expression
  is a hand-written predicate with the same meaning (`RegexClasses` holds the
  JavaScript character classes these predicates use).

Node's `path.extname` and `path.basename` are not visible here. They are
modelled by a stated definition. The extension runs from the last `.` of the
final path component to its end. It is empty when there is no `.`, or when the
only `.` candidate is the component's first character. The basename is the
component with that extension cut off.

The two findings below describe places where the script does something other
than what it evidently means. For each one the model keeps the as-written rule
(`AsWrittenTable`, `ExemptAsWritten`, `RevisionAsWritten`) and exhibits the
discrepancy next to the corrected rule (`Table`, `Exempt`, `Revision`). The
upload plan `PlanUploads` takes the route table as a parameter: the script's
run is `PlanUploads(AsWrittenTable, …)`, and `AsWrittenPlanVersusCorrected`
compares it with the corrected table file by file. The robots route is
evidently meant to give `robots.txt` a 5-minute cache, but as written it never
matches that file.

A remote key is what `gulp-rename` and the uploader make of a file found by
`gulp.src`. The callback prepends the prefix to the directory, `path.join`
rebuilds the path, and the key is that path relative to the distribution root.
So the slashes a prefix starts with do not survive: under the root opt-in `/`,
`index.html` is uploaded as `index.html`. The files `gulp.src` finds have `.`
or a relative directory and a non-empty name without `/` (`WellFormed`), and
the upload-plan members require this.

## Model

| member | source | states |
|---|---|---|
| `PublishConfig.DeterminePublishBucket` | gulpfile.js:139-146 | fails with "Missing S3_PUBLISH_BUCKET." exactly when the variable is unset or empty; otherwise returns the value unchanged |
| `PublishConfig.DeterminePublishPrefix` | gulpfile.js:148-160 | fails with the root-opt-in message exactly when the variable is unset or empty; otherwise returns the normalised prefix |
| `PublishConfig.NormalizePrefix` | gulpfile.js:154-159 | the result ends with `/`, extends the input, and is at most one longer; it equals the input exactly when the input already ends with `/`, and otherwise it is the input plus `/` |
| `PublishConfig.NormalizePrefixIdempotent` | gulpfile.js:154-159 | normalising a normalised prefix changes nothing |
| `PublishConfig.NormalizePrefixShortest` | gulpfile.js:154-159 | the normalised prefix is the shortest extension of the input that ends with `/` |
| `PublishConfig.DeterminePublishPrefixIdempotent` | gulpfile.js:148-160 | an accepted prefix, fed back in as the variable, is accepted again unchanged |
| `PublishConfig.PrefixExamples` | gulpfile.js:148-159 | `team` becomes `team/`, `team/` and `/` are kept, and an empty value is rejected |
| `PublishConfig.CacheFileName` | gulpfile.js:113 | the manifest name is `.ci/awspublish-`, then the bucket, then `.json` |
| `PublishConfig.CacheFileNameInjective` | gulpfile.js:113 | distinct buckets never share a manifest file |
| `PublishConfig.ResolvePublishTarget` | gulpfile.js:101-115 | a missing bucket is reported even when the prefix is missing too; a missing prefix is reported only when the bucket is present; a result is produced only when both are present: the region `us-west-2`, the given bucket and that bucket's manifest file, which the publisher is created with, and the normalised prefix, which the rename and sync steps use |
| `Fingerprint.Component` | gulpfile.js:91-92 | the final path component contains no `/` |
| `Fingerprint.DirComponentSplit` | gulpfile.js:91-92 | every path is its directory followed by its final component |
| `Fingerprint.ExtStart` | gulpfile.js:91 | the extension starts at a `.` that is not the component's first character, and no `.` follows it; when it is empty, no `.` appears after the first character |
| `Fingerprint.StemExtSplit` | gulpfile.js:91-92 | the final component is the basename followed by the extension; a non-empty extension is one `.` followed by characters that are neither `.` nor `/`, and its basename is not empty |
| `Fingerprint.ExtNameOfSuffix` | gulpfile.js:91-92 | a component `a + ".x"` with non-empty `a` and no further `.` has extension `.x` and basename `a` |
| `Fingerprint.TakeHash` | gulpfile.js:93 | `substr(0, 4)` yields the first `min(4, length)` characters of the hash |
| `Fingerprint.RevNameIsComponent` | gulpfile.js:90-94 | with a hash free of `.` and `/`, the new name is one path component, and it is the final component of the renamed path |
| `Fingerprint.RevNameKeepsParts` | gulpfile.js:90-94 | a file with an extension keeps it; the new basename is the old one, then `.rev.`, then at most four hash characters |
| `Fingerprint.RevNameWithoutExtension` | gulpfile.js:90-94 | a file without an extension gains the embedded hash as its extension |
| `Fingerprint.RevisionRenamesUnlessExempt` | gulpfile.js:84-95 | under the intended list (`Exempt`), a path keeps its name if and only if it is `/robots.txt` or `/index.html`, so `/a/robots.txt` is renamed; a renamed path keeps its directory and grows by `.rev.` plus the embedded hash |
| `Fingerprint.RevisionAsWrittenRenamesUnlessExempt` | gulpfile.js:84-95 | under the list as written, a path keeps its name if and only if the list matches it; every other path, `/a/robots.txt` included, is renamed exactly as under the intended list |
| `Fingerprint.ExemptAsWrittenCoversExempt` | gulpfile.js:85-88 | the list as written exempts both intended files |
| `Fingerprint.DotMatchesNearMisses` | gulpfile.js:86 | the unescaped `.` of the robots pattern also matches `_` and `/` |
| `Fingerprint.ExemptAsWrittenNearMiss` | gulpfile.js:85-88 | the list as written also keeps `/robots_txt` and the nested path `/robots/txt` unrenamed, which the intended list renames |
| `Routes.FirstMatch` | gulpfile.js:121-133 | the chosen rule matches, and no earlier rule of the table does; when no rule is chosen, none matches |
| `Routes.AsWrittenRouteCases` | gulpfile.js:121-133 | the table as written: a hashed name gets the 1-week rule; otherwise a word character followed by a final `robots.txt` gets the 5-minute rule; otherwise a non-empty single-line key gets the default; a key matching none of these has no route. The table's first-match route always equals this case split (`AsWrittenRoute`) |
| `Routes.RouteCases` | gulpfile.js:121-133 | the same case split for the corrected table, whose robots rule matches a final `robots.txt` component (`CorrectedRoute`) |
| `Routes.CatchAllCovers` | gulpfile.js:131 | the last rule, `^.+$`, gives every non-empty single-line key a route in both tables |
| `Routes.RouteExamples` | gulpfile.js:121-133 | `app.rev.a1b2.js` gets the 1-week rule and `index.html` the default |
| `Routes.FindRevHash` | gulpfile.js:123 | the scan finds a match of `\.rev\.([a-z0-9]{4})` exactly when one exists, and reports the leftmost one |
| `Publish.DropLeadingSlashes` | gulpfile.js:117-120 | a path taken relative to the distribution root is no longer than the path and does not start with `/` |
| `Publish.DropLeadingSlashesOnlySlashes` | gulpfile.js:117-120 | taking a path relative to the root keeps a suffix of it and removes only `/` characters |
| `Publish.DropLeadingSlashesAppend` | gulpfile.js:117-120 | when the second part of a path does not start with `/`, the leading slashes removed are those of the first part |
| `Publish.RemoteKeySplit` | gulpfile.js:117-120 | a key is the directory part contributed by the prefix and directory, followed by the unchanged name; under a normalised prefix that directory part is empty or ends with `/` |
| `Publish.RemoteKeyEndsWithName` | gulpfile.js:117-120 | under a normalised prefix a key ends with the file name, with `/` before it or nothing at all |
| `Publish.RemoteKeyShape` | gulpfile.js:117-120 | under a normalised prefix, a key is the prefix without its leading slashes followed by the file's path below the distribution root; it never starts with `/` and ends with the name after a `/` or at its start |
| `Publish.RootPrefixKeys` | gulpfile.js:117-120 | under the root opt-in `/`, `index.html` is uploaded as `index.html` and `css/site.css` as `css/site.css` |
| `Publish.NamedPrefixKeys` | gulpfile.js:117-120 | under `team/`, `css/site.css` is uploaded as `team/css/site.css` |
| `Publish.RevAtShift` | gulpfile.js:118-123 | re-rooting a name under any directory keeps its hashed-name match |
| `Publish.RevNameRevAt` | gulpfile.js:90-123 | a name built from a hash with four leading `[a-z0-9]` characters matches the hashed-name pattern right after its basename |
| `Publish.RevisedKeyHasRevHash` | gulpfile.js:90-123 | such a name, re-rooted under any prefix and directory, still matches the hashed-name pattern |
| `Publish.RevisedNameCachedOneWeek` | gulpfile.js:90-125 | a fingerprinted name always lands in the 1-week route, under both tables and whatever the prefix and directory |
| `Publish.RevisedPathName` | gulpfile.js:84-94 | the final component of a renamed build path is exactly the `transformFilename` name |
| `Publish.RobotsKeyMissesRobotsRouteAsWritten` | gulpfile.js:117-128 | as written, a re-rooted `robots.txt` never gets the 5-minute rule, whatever the prefix and directory |
| `Publish.RobotsKeyGetsRobotsRoute` | gulpfile.js:117-128 | with the corrected rule, a re-rooted `robots.txt` gets the 5-minute rule, unless its prefix or directory already carries a hashed name |
| `Publish.PlanOne` | gulpfile.js:117-133 | a file's upload key is the prefix without leading slashes followed by the file's path below the root; its route is a rule of the given table that matches the key, or none when no rule matches; a table led by the hashed-name rule sends every hashed key there; under the script's table and the corrected one the route follows their case splits |
| `Publish.PlannedCons` | gulpfile.js:117-133 | planning the first file and then the rest plans every file at its own position |
| `Publish.PlanUploads` | gulpfile.js:117-133 | the plan has one upload per distribution file, in order, and each upload has the key and route properties stated for `PlanOne` under the given table |
| `Publish.PlanSingle` | gulpfile.js:117-133 | the plan of a one-file tree is that file's upload |
| `Publish.PlannedVersusCorrected` | gulpfile.js:117-133 | under the script's table and the corrected one a file gets the same key; the routes differ only on keys ending in `robots.txt`; for `robots.txt` only the corrected table gives the 5-minute rule |
| `Publish.AsWrittenPlanVersusCorrected` | gulpfile.js:117-133 | the same comparison for every file of a whole plan |
| `Publish.TeamRobotsRoutes` | gulpfile.js:121-133 | the key `team/robots.txt` gets the default route as written and the 5-minute rule from the corrected table |
| `Publish.RevAtSuffix` | gulpfile.js:123 | a hashed-name match in a suffix of a key is a match in the key |
| `Publish.NoRevHashInSuffix` | gulpfile.js:123 | a key without a hashed-name match has none in any suffix |
| `Publish.NoRevHashBeforeRobots` | gulpfile.js:123 | a directory part without a hashed-name match, followed by `robots.txt`, still has none |
| `Publish.PlainKeyDir` | gulpfile.js:117-123 | the directory part of a prefix with no hashed name and no line break has neither |
| `Publish.SingleLineBeforeRobots` | gulpfile.js:131 | a single-line directory part followed by `robots.txt` is matched by `^.+$` |
| `Publish.RootRobotsKeyShape` | gulpfile.js:117-128 | the key of a root-level `robots.txt` is its directory part, empty or ending in `/`, then the name; it is a robots file that the rule as written does not catch |
| `Publish.RootRobotsKey` | gulpfile.js:117-133 | under a prefix with no hashed name and no line break, that key also has no hashed name and is one non-empty line |
| `Publish.RootRobotsPlan` | gulpfile.js:117-133 | under such a prefix the script uploads a root-level `robots.txt` with the default route, and the corrected table gives it the 5-minute rule |

## Left out

- The gulp task graph (`gulp.parallel`, `gulp.series`, gulpfile.js:29-37, 76, 99, 163) is left out: it is library-supplied orchestration and concurrency.
- `clean` (`del`), `gulp.src`/`gulp.dest` and source maps are left out: they are filesystem I/O.
- The CSS pipeline (`postcss`, `autoprefixer`, `cssnano`) and `htmlmin` (gulpfile.js:41-64) are left out: they are opaque third-party transforms.
- The revisioning plugin's own hashing and reference rewriting are left out: the hash is an input string, and the rewriting algorithm is not visible.
- The `awspublish` upload, `cache`, `sync`, `reporter` and the `concurrent(…, 4)` limiter (gulpfile.js:105-137) are left out: they are network I/O and bounded concurrency. The model stops at the plan of keys and routes.
- What `awspublishRouter` does with a key that no rule matches, and how it turns `cacheTime` into a header, are not visible. The model returns no route (`None`) and the cache time in seconds.
- Loading `.env.local` and `.env` with `dotenv` (gulpfile.js:4-6) is left out: it is environment and file I/O. Each variable is an `Option<string>` input.
- `plumber`/`notify` error reporting is left out: it is a side-effecting notification.
- The statefulness of the `/g` flag on the `dontRenameFile` patterns is left out: the patterns are modelled as stateless tests.
- `Fingerprint.ExtStart`: in Node, `path.extname` gives the component `..` an empty extension; this definition gives `.`. Trailing slashes are also not stripped. Neither case is a file name the build produces.
- `Publish.RemoteKey`: `path.join`'s normalisation is modelled only for collapsing `prefix/.` at the root and for the leading slashes that taking the path relative to the root removes. Doubled slashes, a trailing `/` and `./` or `../` segments inside the prefix or the directory are kept as written. `WellFormed` admits directories such as `css/` or `a//b` that `path.dirname` never produces; for those `RemoteKey("team/", "css/", "a.css")` is `team/css//a.css`, where the script uploads `team/css/a.css`.
- Characters are Unicode scalar values, not the UTF-16 code units JavaScript regular expressions without the `u` flag work on. A character outside the Basic Multilingual Plane is one `.` here but two in the script. So `ExemptAsWritten` accepts `/robots` + U+1F600 + `txt`, which the script's pattern rejects.
- `Fingerprint.RevNameKeepsParts`: the hash must be free of `.` and `/`, which holds for the hex digests the revisioning plugin produces.

## Findings

| source | as written | input that shows it | evidently intended | confidence | as-written member | corrected member |
|---|---|---|---|---|---|---|
| gulpfile.js:127 | `\wrobots\.txt$` needs a word character right before `robots.txt`; in every re-rooted key that character is the `/` of the prefix or directory, or there is none at all (prefix `/` gives key `robots.txt`) | `robots.txt` at the distribution root under prefix `team/` gives key `team/robots.txt`, which falls through to the default route | `robots.txt` gets the 5-minute cache | not executed; medium | `Publish.RobotsKeyMissesRobotsRouteAsWritten` | `Publish.RobotsKeyGetsRobotsRoute` |
| gulpfile.js:86-87 | the `.` in `/^\/robots.txt$/` and `/^\/index.html$/` is unescaped, so it matches any character | `/robots_txt` and `/robots/txt` are kept unrenamed | only `/robots.txt` and `/index.html` are kept | not executed; low | `Fingerprint.ExemptAsWrittenNearMiss` | `Fingerprint.RevisionRenamesUnlessExempt` |
