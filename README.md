# GitSet: the git-backed gem set of the RubyGems dependency resolver

`Gem::DependencyResolver::GitSet` lets the resolver treat gems whose source
lives in git repositories as candidates. A set keeps two tables:

- the registry, `repositories`: gem name to the repository and commit
  reference it is taken from;
- the cache, `specs`: gem name to the specification fetched for it, wrapped
  together with the set and the git source that produced it.

`add_git_gem` registers a gem; the last binding for a name wins. `find_all`
answers a resolver request. It selects the registered names equal to the
requested name. For each, it takes the cached specification or else loads
it. It keeps the ones the request accepts. `load_spec` always fetches and
overwrites the cache entry. `prefetch` calls `load_spec` for every
registered name that some request asks for, even when that name is cached.

The model is `git_set.dfy`, module `DependencyResolver`:

- `GitSet` is a class. Its fields are `repositories` and `specs` (both
  `map`s), `keyOrder` (the registry's keys in insertion order; a Ruby Hash
  iterates in that order) and the ghost log `fetched`, which records every
  fetch. The methods `AddGitGem`, `FindAll`, `LoadSpec` and `Prefetch` change
  these fields in place. `Valid()` is the invariant every method keeps:
  - the key order lists each registry key once;
  - the cache holds only registered names;
  - each cache entry is a wrapper of this set, built from a fetch of that
    name that appears in the log.
- The git fetch is the constructor's parameter `fetch`, a function from a
  git source (name, repository, reference) to a specification. A request is
  a name plus an acceptance predicate over wrapped specifications.
- `KeysAmong`, `Select` and `RequestNames` are the `select`/`map` steps of
  `find_all` and `prefetch`. `Refetched` and `RefetchLog` give the cache and
  the fetches after `prefetch`'s loop; lemmas tie them to plain statements.

`git_set_scenarios.dfy`, module `GitSetScenarios`, holds client code that
chains several calls. Its contracts follow from the class's contracts alone.

`load_spec` on an unregistered name destructures `nil` and hands a `nil`
repository and reference to the git source (git_set.rb:48-50); the model
requires the name to be registered.

## Model

| member | source | states |
|---|---|---|
| `DependencyResolver.GitSet.constructor` | lib/rubygems/dependency_resolver/git_set.rb:24-28 | A new set has an empty registry, an empty cache and no fetches, and is valid. |
| `DependencyResolver.GitSet.AddGitGem` | lib/rubygems/dependency_resolver/git_set.rb:30-32 | The registry maps the name to the new (repository, reference), overwriting any earlier binding. Every other binding, the cache and the fetch log are unchanged. A new name goes to the end of the key order; a re-registered name keeps its place. |
| `DependencyResolver.GitSet.LoadSpec` | lib/rubygems/dependency_resolver/git_set.rb:47-58 | Exactly one fetch happens, of the source built from the name's current binding. The cache entry for the name becomes the wrapper (this set, fetched spec, source), whether or not one existed, and that wrapper is returned. Other cache entries and the registry are unchanged. |
| `DependencyResolver.GitSet.FindAll` | lib/rubygems/dependency_resolver/git_set.rb:37-45 | At most one result, and every result is accepted by the request. Unregistered name: empty result, no fetch, cache unchanged. Cached name: no fetch, cache unchanged, and the result is the cached wrapper if accepted. Registered but uncached name: one fetch of its binding, and the wrapper is cached even when the request rejects it; the result is that wrapper if accepted. The registry is unchanged. |
| `DependencyResolver.GitSet.Prefetch` | lib/rubygems/dependency_resolver/git_set.rb:63-71 | The cache entries of exactly the registered names that some request names are overwritten by fresh fetches, cached or not. All other entries and the registry are untouched. The log grows by the sources of those names, in registry order, and no name is fetched twice. |
| `DependencyResolver.KeysAmong` | lib/rubygems/dependency_resolver/git_set.rb:38-40 | The selected keys are exactly the keys that occur among the given names, and there are no more of them than keys. |
| `DependencyResolver.KeysAmongAppend` | lib/rubygems/dependency_resolver/git_set.rb:38-40 | Selection keeps key order: selecting from one key list followed by another gives the selection from the first followed by the selection from the second. |
| `DependencyResolver.KeysAmongSingle` | lib/rubygems/dependency_resolver/git_set.rb:38-40 | A single key is selected exactly when it is among the names; with `KeysAmongAppend` this fixes the whole selected sequence. |
| `DependencyResolver.DistinctIndices` | lib/rubygems/dependency_resolver/git_set.rb:66-70 | In a key list without repeats, different positions hold different names; this turns the registry's unique keys into `Prefetch`'s at-most-once fetch. |
| `DependencyResolver.KeysAmongOne` | lib/rubygems/dependency_resolver/git_set.rb:38-40 | Because registry keys are distinct, selecting the keys equal to one name yields that name once if it is registered, and nothing otherwise. |
| `DependencyResolver.KeysAmongDistinct` | lib/rubygems/dependency_resolver/git_set.rb:66-70 | Selecting from distinct keys picks each key at most once, so `prefetch` loads each name at most once. |
| `DependencyResolver.Select` | lib/rubygems/dependency_resolver/git_set.rb:42-44 | Every kept element comes from the input and passes the predicate. Every input element that passes the predicate is kept. |
| `DependencyResolver.SelectAppend` | lib/rubygems/dependency_resolver/git_set.rb:42-44 | Selection keeps order and multiplicity: selecting from one sequence followed by another gives the selection from the first followed by the selection from the second. |
| `DependencyResolver.SelectSingle` | lib/rubygems/dependency_resolver/git_set.rb:42-44 | A single element is kept exactly when it passes; with `SelectAppend` this fixes the whole kept sequence. |
| `DependencyResolver.RequestNames` | lib/rubygems/dependency_resolver/git_set.rb:64 | One name per request, position by position: the i-th name is the i-th request's name. A name occurs among them exactly when some request asks for it. |
| `DependencyResolver.GitSet.RefetchedIs` | lib/rubygems/dependency_resolver/git_set.rb:66-70 | Running `prefetch`'s loop over some keys leaves the old cache with the keys among the requested names overwritten by their fresh wrappers, and nothing else changed. |
| `DependencyResolver.GitSet.RefetchedRegistered` | lib/rubygems/dependency_resolver/git_set.rb:66-70 | When the loop runs over the whole key order, the overwritten entries are exactly the registered names that some request asks for. |
| `DependencyResolver.GitSet.RefetchLogIs` | lib/rubygems/dependency_resolver/git_set.rb:66-70 | The loop fetches the sources of the selected keys, in key order. |
| `GitSetScenarios.RakeAtTag` | lib/rubygems/dependency_resolver/git_set.rb:8-9 | Registering rake at a tag in a new set and asking for it with an accept-all request returns one wrapper of that set. Its source is exactly that name, repository and reference, and its spec is the fetch of that source. The set then registers only rake, caches exactly that wrapper, and has fetched once. |
| `GitSetScenarios.FindAllTwice` | lib/rubygems/dependency_resolver/git_set.rb:41 | Two lookups of a registered, uncached name return the same answer. Together they fetch once: the second lookup is a cache hit. Afterwards the name's cache entry is its fresh wrapper, and the registry and key order are unchanged. |
| `GitSetScenarios.PrefetchCached` | lib/rubygems/dependency_resolver/git_set.rb:63-71 | Prefetching a name that is already cached fetches it again and overwrites its entry; the log grows by one. The registry and key order are unchanged. |
| `GitSetScenarios.ReregisterCached` | lib/rubygems/dependency_resolver/git_set.rb:30-32 | Re-registering a cached name changes only its binding in the registry; its place in the key order stays. A following lookup serves the entry fetched under the earlier binding, without fetching. |

## Left out

- The `@git` tool path read from the environment at construction (git_set.rb:25): environment input, and no other line uses it.
- The git fetch itself (`Gem::Source::Git.new` and its `load_spec`): network and filesystem work whose code is not part of this model. It is the function `fetch`, so a source always yields the same specification, even where a moving branch would not.
- Fetch failures: a failed fetch would raise out of `load_spec`, `find_all` or `prefetch`. Not modelled; every fetch succeeds.
- `DependencyResolver.GitSet.LoadSpec`: requires a registered name, because the code has no defined behaviour for an unregistered one.
- The internals of the request's `matches_spec?` and of `GitSpecification`: foreign classes. The predicate is an opaque function value and the wrapper is a plain record.
- The `Gem::DependencyResolver::Set` superclass: not part of this model.
- The `attr_reader` accessors for `repositories` and `specs`: the model's fields are public.
- Concurrency: the code has none.
