/** Resolution of the two publish settings of the `publish:s3` task: the
    target bucket and the key prefix under which every object is placed. */
module PublishConfig {
  import opened Wrappers

  const MissingBucket: string := "Missing S3_PUBLISH_BUCKET."
  const MissingPrefix: string :=
    "Missing S3_PUBLISH_PREFIX. If you really want to publish to the root of a bucket, specify '/'."
  const Region: string := "us-west-2"

  /** JavaScript falsiness of an environment lookup: the variable is unset, or
      set to the empty string (the only falsy string). */
  predicate Falsy(v: Option<string>) {
    v.None? || v.value == ""
  }

  predicate EndsWithSlash(s: string) {
    |s| > 0 && s[|s| - 1] == '/'
  }

  /** `determinePublishBucket`: a falsy value is rejected, anything else is
      returned as it is. */
  function DeterminePublishBucket(env: Option<string>): (r: Result<string, string>)
    ensures r.Failure? <==> Falsy(env)
    ensures r.Failure? ==> r.error == MissingBucket
    ensures r.Success? ==> env == Some(r.value) && r.value != ""
  {
    if Falsy(env) then Failure(MissingBucket) else Success(env.value)
  }

  /** The trailing-slash normalisation at the end of `determinePublishPrefix`. */
  function NormalizePrefix(p: string): (r: string)
    ensures EndsWithSlash(r)
    ensures |p| <= |r| <= |p| + 1
    ensures r[..|p|] == p
    ensures r == p <==> EndsWithSlash(p)
    ensures r != p ==> r == p + "/"
  {
    if EndsWithSlash(p) then p else p + "/"
  }

  /** `determinePublishPrefix`: a falsy value is rejected with a message that
      says how to opt into the bucket root; any other value is normalised. */
  function DeterminePublishPrefix(env: Option<string>): (r: Result<string, string>)
    ensures r.Failure? <==> Falsy(env)
    ensures r.Failure? ==> r.error == MissingPrefix
    ensures r.Success? ==> env.Some? && r.value == NormalizePrefix(env.value)
  {
    if Falsy(env) then Failure(MissingPrefix) else Success(NormalizePrefix(env.value))
  }

  /** The name of the local upload manifest that `awspublish` keeps per bucket. */
  function CacheFileName(bucket: string): (r: string)
    ensures |r| == |bucket| + 20
    ensures r[..15] == ".ci/awspublish-" && r[|r| - 5..] == ".json"
    ensures r[15..|r| - 5] == bucket
  {
    ".ci/awspublish-" + bucket + ".json"
  }

  /** The settings of one publish run once both variables resolved: the
      region, bucket and manifest file name the publisher is created with,
      and the normalised prefix the rename and sync steps use. */
  datatype PublishTarget = PublishTarget(region: string, bucket: string, prefix: string, cacheFileName: string)

  /** The start of the `publish:s3` task: the bucket is resolved first, then the
      prefix, and only then is the publisher created. */
  function ResolvePublishTarget(bucketEnv: Option<string>, prefixEnv: Option<string>): (r: Result<PublishTarget, string>)
    ensures Falsy(bucketEnv) ==> r == Failure(MissingBucket)
    ensures !Falsy(bucketEnv) && Falsy(prefixEnv) ==> r == Failure(MissingPrefix)
    ensures r.Success? <==> !Falsy(bucketEnv) && !Falsy(prefixEnv)
    ensures r.Success? ==>
      && r.value.region == Region
      && bucketEnv == Some(r.value.bucket)
      && prefixEnv.Some? && r.value.prefix == NormalizePrefix(prefixEnv.value)
      && r.value.cacheFileName == CacheFileName(r.value.bucket)
  {
    match DeterminePublishBucket(bucketEnv)
    case Failure(e) => Failure(e)
    case Success(bucket) =>
      match DeterminePublishPrefix(prefixEnv)
      case Failure(e) => Failure(e)
      case Success(prefix) => Success(PublishTarget(Region, bucket, prefix, CacheFileName(bucket)))
  }

  /** Normalising is idempotent: a normalised prefix passes through unchanged. */
  lemma NormalizePrefixIdempotent(p: string)
    ensures NormalizePrefix(NormalizePrefix(p)) == NormalizePrefix(p)
  {
  }

  /** `team` is published under `team/`, `team/` as it is, and `/` opts into
      the bucket root; an empty value is as good as a missing one. */
  lemma PrefixExamples()
    ensures DeterminePublishPrefix(Some("team")) == Success("team/")
    ensures DeterminePublishPrefix(Some("team/")) == Success("team/")
    ensures DeterminePublishPrefix(Some("/")) == Success("/")
    ensures DeterminePublishPrefix(Some("")) == Failure(MissingPrefix)
  {
    assert "team" + "/" == "team/";
  }

  /** Feeding an accepted prefix back in as the environment value accepts it
      again and returns it unchanged. */
  lemma DeterminePublishPrefixIdempotent(env: Option<string>)
    requires DeterminePublishPrefix(env).Success?
    ensures DeterminePublishPrefix(Some(DeterminePublishPrefix(env).value)) == DeterminePublishPrefix(env)
  {
  }

  /** The normalised prefix is the shortest string that extends the given
      value and ends with a slash. */
  lemma NormalizePrefixShortest(p: string, q: string)
    requires |p| <= |q| && q[..|p|] == p && EndsWithSlash(q)
    ensures |NormalizePrefix(p)| <= |q|
  {
  }

  /** One manifest per bucket: distinct buckets never share a cache file. */
  lemma CacheFileNameInjective(a: string, b: string)
    requires CacheFileName(a) == CacheFileName(b)
    ensures a == b
  {
  }
}
