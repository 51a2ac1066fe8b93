/** The hybrid transaction client: which sign-bytes form it signs, what it caches, and its one retry. */
module SignBytesClient {
  import opened Common

  datatype Version = V1 | V2

  /** Auto asks the network; the other two force a form. */
  datatype Mode = Auto | ForceV1 | ForceV2

  /** A broadcast as it reached the chain: the form signed, when, and whether the hybrid signature was refused. */
  datatype Posted = Posted(version: Version, at: nat, refused: bool)

  datatype TxError = QueryFailed | PostFailed

  /** The form a chain verifies at an instant: v2 from the first instant one of the upgrades is applied. */
  predicate AppliedAt(upgrade: Option<nat>, t: nat) { upgrade.Some? && upgrade.value <= t }

  predicate AnyApplied(upgrades: seq<Option<nat>>, t: nat) {
    exists i :: 0 <= i < |upgrades| && AppliedAt(upgrades[i], t)
  }

  function FormAt(legacy: bool, upgrades: seq<Option<nat>>, t: nat): Version {
    if !legacy || AnyApplied(upgrades, t) then V2 else V1
  }

  /** The form only ever moves from v1 to v2. */
  lemma FormMonotone(legacy: bool, upgrades: seq<Option<nat>>, s: nat, t: nat)
    requires s <= t && FormAt(legacy, upgrades, s) == V2
    ensures FormAt(legacy, upgrades, t) == V2
  {
    if legacy {
      var i :| 0 <= i < |upgrades| && AppliedAt(upgrades[i], s);
      assert AppliedAt(upgrades[i], t);
    }
  }

  /** The node and the clock: requests take time, and upgrades are applied at their own instants. */
  class Network {
    const legacy: bool
    const upgrades: seq<Option<nat>>
    var now: nat
    var queries: nat
    var posts: seq<Posted>

    constructor (legacy: bool, upgrades: seq<Option<nat>>)
      ensures this.legacy == legacy && this.upgrades == upgrades && now == 0 && queries == 0 && posts == []
    {
      this.legacy, this.upgrades := legacy, upgrades;
      now, queries, posts := 0, 0, [];
    }

    ghost function Form(): Version
      reads this
    {
      FormAt(legacy, upgrades, now)
    }

    method Elapse(delay: nat)
      modifies this`now
      ensures now == old(now) + delay
    {
      now := now + delay;
    }

    /** Whether upgrade i has been applied by now (a positive applied-plan height). */
    method AskApplied(i: nat) returns (applied: bool)
      requires i < |upgrades|
      modifies this`queries
      ensures applied == AppliedAt(upgrades[i], now) && queries == old(queries) + 1
    {
      queries := queries + 1;
      applied := upgrades[i].Some? && upgrades[i].value <= now;
    }

    /** Posting a transaction: a wrong form is always refused; `unlucky` is any other refusal of the signature. */
    method Post(version: Version, unlucky: bool) returns (refused: bool)
      modifies this`posts
      ensures posts == old(posts) + [Posted(version, now, refused)]
      ensures refused == (unlucky || version != Form())
    {
      var applied := !legacy;
      for i := 0 to |upgrades|
        invariant applied == (!legacy || exists j :: 0 <= j < i && AppliedAt(upgrades[j], now))
      {
        applied := applied || (upgrades[i].Some? && upgrades[i].value <= now);
      }
      refused := unlucky || version != if applied then V2 else V1;
      posts := posts + [Posted(version, now, refused)];
    }
  }

  /** How one round of upgrade queries turns out: which are answered, and how long each takes. */
  datatype Asking = Asking(answered: nat -> bool, delay: nat -> nat)

  predicate AllAnswered(a: Asking, n: nat) { forall i :: 0 <= i < n ==> a.answered(i) }

  /** How one post turns out: how long it takes to get there, any other refusal, and whether the answer is lost. */
  datatype Posting = Posting(delay: nat, unlucky: bool, lost: bool)

  class Client {
    const mode: Mode
    const net: Network
    /** How long an answer is good for. */
    const ttl: nat
    var cache: Option<(Version, nat)>

    constructor (mode: Mode, net: Network, ttl: nat)
      ensures Valid() && this.mode == mode && this.net == net && this.ttl == ttl && cache.None?
    {
      this.mode, this.net, this.ttl, cache := mode, net, ttl, None;
    }

    /** The cache is dated in the past, and a cached v2 holds from its date on. */
    ghost predicate Valid()
      reads this, net
    {
      cache.Some? ==> (&& cache.value.1 <= net.now
                       && (cache.value.0 == V2 ==> FormAt(net.legacy, net.upgrades, cache.value.1) == V2))
    }

    predicate Fresh()
      reads this, net
    {
      cache.Some? && net.now < cache.value.1 + ttl
    }

    /** Whether the form comes from the network rather than from the mode, the chain's name or the cache. */
    predicate Asks(refresh: bool)
      reads this, net
    {
      mode == Auto && net.legacy && (refresh || !Fresh())
    }

    /** resolve_sign_bytes_version_with. Time passes before every query; `asked` is the instant answered for. */
    method Resolve(refresh: bool, luck: Asking) returns (r: Result<Version, TxError>, ghost asked: nat)
      requires Valid()
      modifies this`cache, net`now, net`queries
      ensures Valid() && old(net.now) <= asked <= net.now
      // The network is asked unless the form is forced, the chain is new, or an answer younger than ttl will do.
      ensures old(Asks(refresh)) <==>
                mode == Auto && net.legacy && (refresh || old(cache.None?) || old(net.now - cache.value.1 >= ttl))
      ensures mode != Auto ==> r == Ok(if mode == ForceV1 then V1 else V2)
      ensures mode == Auto && !net.legacy ==> r == Ok(V2)
      ensures !old(Asks(refresh)) ==> net.queries == old(net.queries) && cache == old(cache) && net.now == old(net.now)
      ensures mode == Auto && net.legacy && !old(Asks(refresh)) ==> r == Ok(old(cache.value.0))
      ensures old(Asks(refresh)) && AllAnswered(luck, |net.upgrades|) ==> r.Ok?
      ensures r.Err? ==> old(Asks(refresh)) && r.error == QueryFailed && cache == old(cache)
      ensures old(Asks(refresh)) && r.Ok? ==>
                r.value == FormAt(net.legacy, net.upgrades, asked) && cache == Some((r.value, net.now))
    {
      asked := net.now;
      if mode == ForceV1 {
        return Ok(V1), asked;
      }
      if mode == ForceV2 || !net.legacy {
        return Ok(V2), asked;
      }
      if !refresh && Fresh() {
        return Ok(cache.value.0), asked;
      }
      var applied, i := false, 0;
      while i < |net.upgrades| && !applied
        modifies net`queries, net`now
        invariant 0 <= i <= |net.upgrades| && old(net.now) <= asked <= net.now
        invariant applied ==> AnyApplied(net.upgrades, net.now) && asked == net.now
        invariant !applied ==> forall j :: 0 <= j < i ==> !AppliedAt(net.upgrades[j], asked)
      {
        net.Elapse(luck.delay(i));
        if !luck.answered(i) {
          return Err(QueryFailed), asked;
        }
        applied := net.AskApplied(i);
        if applied { asked := net.now; }
        i := i + 1;
      }
      var version := if applied then V2 else V1;
      cache := Some((version, net.now));
      if version == V2 { FormMonotone(net.legacy, net.upgrades, asked, net.now); }
      return Ok(version), asked;
    }

    /** broadcast: sign, post, and with Auto ask again and re-sign once after a refused hybrid signature. */
    method Broadcast(ask: Asking, post: Posting, askAgain: Asking, postAgain: Posting)
      returns (r: Result<bool, TxError>, ghost firstAsked: nat, ghost asked: nat)
      requires Valid()
      modifies this`cache, net`now, net`queries, net`posts
      ensures Valid() && net.now >= old(net.now)
      // The first post: v2 on a new chain, what is cached if that is younger than ttl, else what was asked for.
      ensures AllAnswered(ask, |net.upgrades|) ==> |net.posts| > |old(net.posts)|
      ensures |net.posts| > |old(net.posts)| && mode == Auto ==>
                var first := net.posts[|old(net.posts)|];
                && old(net.now) <= firstAsked <= first.at
                && first.version
                   == if !net.legacy then V2
                      else if old(cache.Some?) && old(net.now - cache.value.1 < ttl) then old(cache.value.0)
                      else FormAt(net.legacy, net.upgrades, firstAsked)
      // The second post follows if and only if the first was refused, the refusal arrived, and the form is known.
      ensures |net.posts| == |old(net.posts)| + 1 ==>
                var first := net.posts[|old(net.posts)|];
                || mode != Auto || !first.refused || post.lost || !AllAnswered(askAgain, |net.upgrades|)
      ensures |net.posts| == |old(net.posts)| + 2 ==> !post.lost
      ensures |net.posts| == |old(net.posts)| + 1 && post.lost ==> r == Err(PostFailed)
      ensures |net.posts| == |old(net.posts)| + 2 && postAgain.lost ==> r == Err(PostFailed)
      ensures old(net.posts) <= net.posts && |net.posts| <= |old(net.posts)| + 2
      ensures r.Ok? ==> |net.posts| > |old(net.posts)| && r.value == net.posts[|net.posts| - 1].refused
      // A second post comes only with Auto, after a refusal, and is signed in the form asked for again;
      // it can only miss the chain's form if the upgrade was applied in between.
      ensures |net.posts| == |old(net.posts)| + 2 ==>
                var first, second := net.posts[|net.posts| - 2], net.posts[|net.posts| - 1];
                && mode == Auto && first.refused && first.at <= asked <= second.at
                && second.version == FormAt(net.legacy, net.upgrades, asked)
                && (second.version != FormAt(net.legacy, net.upgrades, second.at) ==>
                      second.version == V1 && FormAt(net.legacy, net.upgrades, second.at) == V2)
      // Forced modes never query, post once, and sign what was forced.
      ensures mode != Auto ==> net.queries == old(net.queries) && |net.posts| == |old(net.posts)| + 1
      ensures mode != Auto ==> net.posts[|net.posts| - 1].version == if mode == ForceV1 then V1 else V2
      // While the form stands still, an answered Auto broadcast is accepted, even from a stale cache.
      ensures mode == Auto && AllAnswered(ask, |net.upgrades|) && AllAnswered(askAgain, |net.upgrades|)
              && !post.unlucky && !post.lost && !postAgain.unlucky && !postAgain.lost
              && FormAt(net.legacy, net.upgrades, old(net.now)) == FormAt(net.legacy, net.upgrades, net.now)
              ==> r == Ok(false)
    {
      hide FormAt, AnyApplied;
      ghost var began := net.now;
      var version;
      version, asked := Resolve(false, ask);
      firstAsked := asked;
      if version.Err? {
        return Err(version.error), firstAsked, asked;
      }
      net.Elapse(post.delay);
      var refused := net.Post(version.value, post.unlucky);
      if post.lost {
        return Err(PostFailed), firstAsked, asked;
      }
      if mode != Auto || !refused {
        return Ok(refused), firstAsked, asked;
      }
      if !net.legacy { NewChain(net.upgrades, net.now); }
      version, asked := Resolve(true, askAgain);
      if version.Err? {
        return Err(version.error), firstAsked, asked;
      }
      net.Elapse(postAgain.delay);
      FormBetween(net.legacy, net.upgrades, began, asked, net.now);
      refused := net.Post(version.value, postAgain.unlucky);
      if postAgain.lost {
        return Err(PostFailed), firstAsked, asked;
      }
      return Ok(refused), firstAsked, asked;
    }
  }

  lemma NewChain(upgrades: seq<Option<nat>>, t: nat)
    ensures FormAt(false, upgrades, t) == V2
  {
  }

  /** A valid client's cached v2 is never stale, however old. */
  lemma CachedV2NeverStale(c: Client)
    requires c.Valid() && c.cache.Some? && c.cache.value.0 == V2
    ensures c.net.Form() == V2
  {
    FormMonotone(c.net.legacy, c.net.upgrades, c.cache.value.1, c.net.now);
  }

  /** A form that is the same at two instants is the same in between, and otherwise moves up once. */
  lemma FormBetween(legacy: bool, upgrades: seq<Option<nat>>, s: nat, m: nat, t: nat)
    requires s <= m <= t
    ensures FormAt(legacy, upgrades, s) == FormAt(legacy, upgrades, t) ==>
              FormAt(legacy, upgrades, m) == FormAt(legacy, upgrades, t)
    ensures FormAt(legacy, upgrades, m) != FormAt(legacy, upgrades, t) ==>
              FormAt(legacy, upgrades, m) == V1 && FormAt(legacy, upgrades, t) == V2
  {
    if FormAt(legacy, upgrades, s) == V2 { FormMonotone(legacy, upgrades, s, m); }
    if FormAt(legacy, upgrades, m) == V2 { FormMonotone(legacy, upgrades, m, t); }
  }
}
