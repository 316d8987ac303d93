/** `assertOrigin` (src/utterances.ts, lines 180-200): a write is allowed only
    when the embedding page's origin is listed in the repository's
    `utterances.json`, which is fetched afresh on every call. */
module OriginGate {
  import opened Wrappers

  /** The repository's `utterances.json`: the origins allowed to post. */
  datatype RepoConfig = RepoConfig(origins: seq<string>)

  /** The error `assertOrigin` throws for an origin that is not listed. */
  const NotPermitted: string := "Origin not permitted."

  /** JavaScript's `Array.prototype.indexOf` with strict equality: the index
      of the first occurrence, or -1 when there is none. */
  function IndexOf<T(==)>(xs: seq<T>, x: T): (r: int)
    ensures -1 <= r < |xs|
    ensures r == -1 <==> x !in xs
    ensures 0 <= r ==> xs[r] == x && forall i :: 0 <= i < r ==> xs[i] != x
  {
    if xs == [] then -1
    else if xs[0] == x then 0
    else
      var k := IndexOf(xs[1..], x);
      if k == -1 then -1 else k + 1
  }

  /** The membership the gate decides. */
  predicate Permitted(origin: string, config: RepoConfig)
  {
    origin in config.origins
  }

  /** `assertOrigin()` given the settled `getRepoConfig()` request: it returns
      normally exactly when the config loaded and lists the origin; an
      unlisted origin throws "Origin not permitted." (after the error banner,
      which is not modelled), and a failed config load propagates its reason. */
  function AssertOrigin(origin: string, config: Settled<RepoConfig>): (r: Settled<()>)
    ensures r.Fulfilled? <==> config.Fulfilled? && Permitted(origin, config.value)
    ensures config.Rejected? ==> r == Rejected(config.reason)
    ensures config.Fulfilled? && !Permitted(origin, config.value) ==> r == Rejected(NotPermitted)
  {
    match config
    case Rejected(reason) => Rejected(reason)
    case Fulfilled(c) =>
      if IndexOf(c.origins, origin) != -1 then Fulfilled(()) else Rejected(NotPermitted)
  }
}
