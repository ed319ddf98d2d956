/**
 * What a resolver can rely on when it drives a GitSet through several calls:
 * each method here is client code whose contract follows from the contracts
 * of DependencyResolver.GitSet alone.
 */
module GitSetScenarios {
  import opened DependencyResolver

  /** The example in the class comment: register rake at a tag, then look it up. */
  method RakeAtTag(fetch: Source -> Specification, repository: Repository, reference: Reference)
    returns (gs: GitSet, found: seq<GitSpecification>, ghost log: seq<Source>)
    ensures gs.Valid()
    ensures gs.repositories == map["rake" := Binding(repository, reference)] && gs.keyOrder == ["rake"]
    ensures |found| == 1
    ensures found[0].owner == gs
    ensures found[0].source == Source("rake", repository, reference)
    ensures found[0].spec == fetch(Source("rake", repository, reference))
    ensures gs.specs == map["rake" := found[0]]
    ensures log == gs.fetched == [Source("rake", repository, reference)]
  {
    gs := new GitSet(fetch);
    gs.AddGitGem("rake", repository, reference);
    found := gs.FindAll(Request("rake", _ => true));
    log := gs.fetched;
  }

  /** Looking the same name up twice fetches once: the second lookup is a cache hit. */
  method FindAllTwice(gs: GitSet, req: Request) returns (first: seq<GitSpecification>, second: seq<GitSpecification>)
    requires gs.Valid()
    requires req.name in gs.repositories && req.name !in gs.specs
    modifies gs
    ensures gs.Valid()
    ensures gs.repositories == old(gs.repositories) && gs.keyOrder == old(gs.keyOrder)
    ensures gs.specs == old(gs.specs)[req.name := gs.Loaded(gs.repositories, req.name)]
    ensures first == second
    ensures first != [] <==> req.matches(gs.Loaded(gs.repositories, req.name))
    ensures gs.fetched == old(gs.fetched) + [gs.SourceFor(gs.repositories, req.name)]
  {
    first := gs.FindAll(req);
    second := gs.FindAll(req);
  }

  /** Prefetching a name that is already cached fetches it again and overwrites the entry. */
  method PrefetchCached(gs: GitSet, req: Request)
    requires gs.Valid()
    requires req.name in gs.specs
    modifies gs
    ensures gs.Valid()
    ensures gs.repositories == old(gs.repositories) && gs.keyOrder == old(gs.keyOrder)
    ensures gs.specs == old(gs.specs)[req.name := gs.Loaded(gs.repositories, req.name)]
    ensures gs.fetched == old(gs.fetched) + [gs.SourceFor(gs.repositories, req.name)]
  {
    KeysAmongOne(gs.keyOrder, req.name);
    assert RequestNames([req]) == [req.name];
    gs.Prefetch([req]);
    assert gs.SourcesFor(gs.repositories, [req.name]) == [gs.SourceFor(gs.repositories, req.name)];
    RefetchOne(gs, old(gs.specs), gs.repositories, req.name);
  }

  /** Refetching a single registered name overwrites that one cache entry. */
  lemma RefetchOne(gs: GitSet, cache: map<Name, GitSpecification>, registry: map<Name, Binding>, name: Name)
    requires name in registry
    ensures cache + (map n | n in registry && n in [name] :: gs.Loaded(registry, n))
         == cache[name := gs.Loaded(registry, name)]
  {
    assert (map n | n in registry && n in [name] :: gs.Loaded(registry, n))
        == map[name := gs.Loaded(registry, name)];
  }

  /**
   * Re-registering a cached name under a new binding does not touch the
   * cache: a lookup keeps serving the specification fetched under the old
   * binding, without fetching.
   */
  method ReregisterCached(gs: GitSet, req: Request, repository: Repository, reference: Reference)
    returns (found: seq<GitSpecification>)
    requires gs.Valid()
    requires req.name in gs.specs
    modifies gs
    ensures gs.Valid()
    ensures gs.repositories == old(gs.repositories)[req.name := Binding(repository, reference)]
    ensures gs.keyOrder == old(gs.keyOrder)
    ensures gs.specs == old(gs.specs) && gs.fetched == old(gs.fetched)
    ensures found == if req.matches(gs.specs[req.name]) then [gs.specs[req.name]] else []
  {
    gs.AddGitGem(req.name, repository, reference);
    found := gs.FindAll(req);
  }
}
