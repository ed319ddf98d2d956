/**
 * Gem::DependencyResolver::GitSet: the set of gems whose specifications come
 * from git repositories rather than from a gem index.
 *
 * The set owns two tables. The registry (`repositories`) binds a gem name to
 * the repository and commit reference it comes from; the cache (`specs`) holds
 * the specification fetched for a name, wrapped together with the set and the
 * git source that produced it. `FindAll` serves a cached specification when
 * there is one and fetches otherwise; `LoadSpec` and `Prefetch` always fetch.
 *
 * The git fetch itself is outside the model: it is the function `fetch` a set
 * is constructed with, from a git source (name, repository, reference) to the
 * specification found there. Every fetch is recorded in the ghost log
 * `fetched`, so that contracts can say when a fetch happens and when not.
 */
module DependencyResolver {

  /** A gem name. */
  type Name = string

  /** Where a gem's git repository lives; passed to the fetcher untouched. */
  type Repository

  /** The commit reference (branch, tag or revision) to check out; opaque here. */
  type Reference

  /** A gem specification as the git source loads it. */
  type Specification

  /** What the registry holds for one gem name. */
  datatype Binding = Binding(repository: Repository, reference: Reference)

  /** A git source: one gem name at one reference of one repository. */
  datatype Source = Source(name: Name, repository: Repository, reference: Reference)

  /** A fetched specification, wrapped with the set and the source it came from. */
  datatype GitSpecification = GitSpecification(owner: GitSet, spec: Specification, source: Source)

  /** A resolver request: the gem name it asks for and its acceptance test. */
  datatype Request = Request(name: Name, matches: GitSpecification -> bool)

  /** No name occurs twice in `s`. */
  ghost predicate Distinct(s: seq<Name>)
  {
    s == [] || (s[|s| - 1] !in s[..|s| - 1] && Distinct(s[..|s| - 1]))
  }

  /**
   * The keys, in their order, that occur among `names`. `FindAll` selects the
   * registry keys equal to the requested name with it, `Prefetch` the registry
   * keys that some request names.
   */
  function KeysAmong(keys: seq<Name>, names: seq<Name>): (r: seq<Name>)
    ensures forall k :: k in r <==> k in keys && k in names
    ensures |r| <= |keys|
  {
    if keys == [] then []
    else
      var front, last := keys[..|keys| - 1], keys[|keys| - 1];
      assert keys == front + [last];
      KeysAmong(front, names) + (if last in names then [last] else [])
  }

  /** Selecting from distinct keys picks each at most once. */
  lemma {:induction false} KeysAmongDistinct(keys: seq<Name>, names: seq<Name>)
    requires Distinct(keys)
    ensures Distinct(KeysAmong(keys, names))
  {
    if keys != [] {
      var front, last := keys[..|keys| - 1], keys[|keys| - 1];
      assert keys == front + [last];
      KeysAmongDistinct(front, names);
      var picked := KeysAmong(front, names);
      assert last !in picked;
      if last in names {
        assert KeysAmong(keys, names) == picked + [last];
        assert (picked + [last])[..|picked|] == picked;
      } else {
        assert KeysAmong(keys, names) == picked;
      }
    }
  }

  /** Registry keys are unique, so selecting one name yields it at most once. */
  lemma {:induction false} KeysAmongOne(keys: seq<Name>, name: Name)
    requires Distinct(keys)
    ensures KeysAmong(keys, [name]) == if name in keys then [name] else []
  {
    if keys != [] {
      var front, last := keys[..|keys| - 1], keys[|keys| - 1];
      assert keys == front + [last];
      KeysAmongOne(front, name);
      assert last == name ==> name !in front;
    }
  }

  /** In a sequence without repeats, different positions hold different names. */
  lemma {:induction false} DistinctIndices(s: seq<Name>)
    requires Distinct(s)
    ensures forall i, j :: 0 <= i < j < |s| ==> s[i] != s[j]
  {
    if s != [] {
      var front := s[..|s| - 1];
      DistinctIndices(front);
      forall i, j | 0 <= i < j < |s|
        ensures s[i] != s[j]
      {
        if j < |s| - 1 {
          assert s[i] == front[i] && s[j] == front[j];
        } else {
          assert s[i] == front[i];
        }
      }
    }
  }

  /** Selection keeps key order: selecting from `a + b` selects from `a`, then from `b`. */
  lemma {:induction false} KeysAmongAppend(a: seq<Name>, b: seq<Name>, names: seq<Name>)
    ensures KeysAmong(a + b, names) == KeysAmong(a, names) + KeysAmong(b, names)
  {
    if b == [] {
      assert a + b == a;
    } else {
      var front, last := b[..|b| - 1], b[|b| - 1];
      assert b == front + [last];
      assert (a + b)[..|a + b| - 1] == a + front;
      assert (a + b)[|a + b| - 1] == last;
      KeysAmongAppend(a, front, names);
    }
  }

  /** A single key is selected exactly when it is among `names`. */
  lemma KeysAmongSingle(k: Name, names: seq<Name>)
    ensures KeysAmong([k], names) == if k in names then [k] else []
  {
    assert [k][..0] == [];
  }

  /** The elements of `xs` that pass `p`, in their order. */
  function Select<T>(xs: seq<T>, p: T -> bool): (r: seq<T>)
    ensures forall i :: 0 <= i < |r| ==> r[i] in xs && p(r[i])
    ensures forall i :: 0 <= i < |xs| && p(xs[i]) ==> xs[i] in r
    ensures |r| <= |xs|
  {
    if xs == [] then []
    else
      assert xs == [xs[0]] + xs[1..];
      (if p(xs[0]) then [xs[0]] else []) + Select(xs[1..], p)
  }

  /** Selection keeps order and multiplicity: selecting from `a + b` selects from `a`, then from `b`. */
  lemma {:induction false} SelectAppend<T>(a: seq<T>, b: seq<T>, p: T -> bool)
    ensures Select(a + b, p) == Select(a, p) + Select(b, p)
  {
    if a == [] {
      assert a + b == b;
    } else {
      assert (a + b)[0] == a[0];
      assert (a + b)[1..] == a[1..] + b;
      SelectAppend(a[1..], b, p);
    }
  }

  /** A single element is kept exactly when it passes. */
  lemma SelectSingle<T>(x: T, p: T -> bool)
    ensures Select([x], p) == if p(x) then [x] else []
  {
    assert [x][1..] == [];
  }

  /** The names the requests ask for, one per request. */
  function RequestNames(reqs: seq<Request>): (names: seq<Name>)
    ensures |names| == |reqs|
    ensures forall i :: 0 <= i < |reqs| ==> names[i] == reqs[i].name
    ensures forall n :: n in names <==> exists q :: q in reqs && q.name == n
  {
    if reqs == [] then []
    else
      var front, last := reqs[..|reqs| - 1], reqs[|reqs| - 1];
      assert reqs == front + [last];
      RequestNames(front) + [last.name]
  }

  class GitSet {
    /** The git fetch: the specification a source yields. */
    const fetch: Source -> Specification

    /** The registry: gem name to repository and reference. */
    var repositories: map<Name, Binding>
    /** The registry's keys in insertion order, the order the registry iterates in. */
    var keyOrder: seq<Name>
    /** The cache: gem name to its fetched, wrapped specification. */
    var specs: map<Name, GitSpecification>
    /** Every fetch performed so far, oldest first. */
    ghost var fetched: seq<Source>

    /** `g` is a wrapper this set built by fetching gem `name`. */
    ghost predicate Fetched(name: Name, g: GitSpecification)
      reads this`fetched
    {
      g.owner == this && g.source.name == name && g.spec == fetch(g.source) && g.source in fetched
    }

    /**
     * The registry's keys are listed once each in `keyOrder`; the cache only
     * holds registered names, each mapped to the result of a fetch of it.
     */
    ghost predicate Valid()
      reads this
    {
      && Distinct(keyOrder)
      && (forall n :: n in keyOrder <==> n in repositories)
      && specs.Keys <= repositories.Keys
      && (forall n :: n in specs ==> Fetched(n, specs[n]))
    }

    /** The git source for a name, from its binding in `registry`. */
    ghost function SourceFor(registry: map<Name, Binding>, name: Name): Source
      requires name in registry
    {
      Source(name, registry[name].repository, registry[name].reference)
    }

    /** What a fetch of `name` under `registry` yields and the cache then holds. */
    ghost function Loaded(registry: map<Name, Binding>, name: Name): GitSpecification
      requires name in registry
    {
      GitSpecification(this, fetch(SourceFor(registry, name)), SourceFor(registry, name))
    }

    /** The sources fetched, in order, when each of `names` is loaded under `registry`. */
    ghost function SourcesFor(registry: map<Name, Binding>, names: seq<Name>): seq<Source>
      requires forall n :: n in names ==> n in registry
    {
      seq(|names|, j requires 0 <= j < |names| => SourceFor(registry, names[j]))
    }

    /** Loading one more name appends its source to the fetches. */
    lemma SourcesForSnoc(registry: map<Name, Binding>, names: seq<Name>, name: Name)
      requires forall n :: n in names ==> n in registry
      requires name in registry
      ensures SourcesFor(registry, names + [name]) == SourcesFor(registry, names) + [SourceFor(registry, name)]
    {
      assert (names + [name])[..|names|] == names;
    }

    /** The cache after refetching, in order, each of `keys` that occurs among `names`. */
    ghost function Refetched(cache: map<Name, GitSpecification>, registry: map<Name, Binding>,
                             keys: seq<Name>, names: seq<Name>): map<Name, GitSpecification>
      requires forall k :: k in keys ==> k in registry
    {
      if keys == [] then cache
      else
        var front, last := keys[..|keys| - 1], keys[|keys| - 1];
        assert keys == front + [last];
        var c := Refetched(cache, registry, front, names);
        if last in names then c[last := Loaded(registry, last)] else c
    }

    /** The sources fetched, in order, when refetching each of `keys` that occurs among `names`. */
    ghost function RefetchLog(registry: map<Name, Binding>, keys: seq<Name>, names: seq<Name>): seq<Source>
      requires forall k :: k in keys ==> k in registry
    {
      if keys == [] then []
      else
        var front, last := keys[..|keys| - 1], keys[|keys| - 1];
        assert keys == front + [last];
        var log := RefetchLog(registry, front, names);
        if last in names then log + [SourceFor(registry, last)] else log
    }

    /** Refetching overwrites exactly the entries of the keys among `names`. */
    lemma {:induction false} RefetchedIs(cache: map<Name, GitSpecification>, registry: map<Name, Binding>,
                                         keys: seq<Name>, names: seq<Name>)
      requires forall k :: k in keys ==> k in registry
      ensures Refetched(cache, registry, keys, names)
           == cache + map n | n in keys && n in names :: Loaded(registry, n)
    {
      if keys != [] {
        var front, last := keys[..|keys| - 1], keys[|keys| - 1];
        assert keys == front + [last];
        RefetchedIs(cache, registry, front, names);
      }
    }

    /** When `keys` lists the registry, refetching overwrites the registered names among `names`. */
    lemma RefetchedRegistered(cache: map<Name, GitSpecification>, registry: map<Name, Binding>,
                              keys: seq<Name>, names: seq<Name>)
      requires forall k :: k in keys <==> k in registry
      ensures Refetched(cache, registry, keys, names)
           == cache + map n | n in registry && n in names :: Loaded(registry, n)
    {
      RefetchedIs(cache, registry, keys, names);
      assert (map n | n in keys && n in names :: Loaded(registry, n))
          == (map n | n in registry && n in names :: Loaded(registry, n));
    }

    /** Refetching fetches the keys among `names`, each once, in key order. */
    lemma {:induction false} RefetchLogIs(registry: map<Name, Binding>, keys: seq<Name>, names: seq<Name>)
      requires forall k :: k in keys ==> k in registry
      ensures RefetchLog(registry, keys, names) == SourcesFor(registry, KeysAmong(keys, names))
    {
      if keys != [] {
        var front, last := keys[..|keys| - 1], keys[|keys| - 1];
        assert keys == front + [last];
        RefetchLogIs(registry, front, names);
        if last in names {
          SourcesForSnoc(registry, KeysAmong(front, names), last);
        }
      }
    }

    /** A new set: empty registry, empty cache, nothing fetched. */
    constructor (fetch: Source -> Specification)
      ensures this.fetch == fetch
      ensures repositories == map[] && keyOrder == []
      ensures specs == map[] && fetched == []
      ensures Valid()
    {
      this.fetch := fetch;
      repositories := map[];
      keyOrder := [];
      specs := map[];
      fetched := [];
    }

    /**
     * Registers (or re-registers) a gem. The last binding wins; the cache is
     * left alone, so a specification cached under an earlier binding stays.
     */
    method AddGitGem(name: Name, repository: Repository, reference: Reference)
      requires Valid()
      modifies this
      ensures Valid()
      ensures repositories == old(repositories)[name := Binding(repository, reference)]
      ensures keyOrder == if name in old(repositories) then old(keyOrder) else old(keyOrder) + [name]
      ensures specs == old(specs) && fetched == old(fetched)
    {
      if name !in repositories {
        keyOrder := keyOrder + [name];
      }
      repositories := repositories[name := Binding(repository, reference)];
    }

    /**
     * Fetches a registered gem from its current binding and overwrites its
     * cache entry, whether or not one existed.
     */
    method LoadSpec(name: Name) returns (g: GitSpecification)
      requires Valid()
      requires name in repositories
      modifies this
      ensures Valid()
      ensures repositories == old(repositories) && keyOrder == old(keyOrder)
      ensures g == Loaded(repositories, name)
      ensures specs == old(specs)[name := g]
      ensures fetched == old(fetched) + [SourceFor(repositories, name)]
    {
      var binding := repositories[name];
      var source := Source(name, binding.repository, binding.reference);
      var spec := fetch(source);
      fetched := fetched + [source];
      g := GitSpecification(this, spec, source);
      specs := specs[name := g];
    }

    /**
     * The specifications that answer `req`: the registered names equal to the
     * requested one, each served from the cache or else loaded, kept when
     * `req` accepts them.
     */
    method FindAll(req: Request) returns (r: seq<GitSpecification>)
      requires Valid()
      modifies this
      ensures Valid()
      ensures repositories == old(repositories) && keyOrder == old(keyOrder)
      ensures |r| <= 1
      ensures forall g :: g in r ==> req.matches(g)
      ensures req.name !in repositories ==>
                r == [] && specs == old(specs) && fetched == old(fetched)
      ensures req.name in old(specs) ==>
                && specs == old(specs) && fetched == old(fetched)
                && r == (if req.matches(specs[req.name]) then [specs[req.name]] else [])
      ensures req.name in repositories && req.name !in old(specs) ==>
                && specs == old(specs)[req.name := Loaded(repositories, req.name)]
                && fetched == old(fetched) + [SourceFor(repositories, req.name)]
                && r == (if req.matches(Loaded(repositories, req.name)) then [Loaded(repositories, req.name)] else [])
    {
      var names := KeysAmong(keyOrder, [req.name]);
      KeysAmongOne(keyOrder, req.name);
      var found: seq<GitSpecification> := [];
      for i := 0 to |names|
        invariant Valid()
        invariant repositories == old(repositories) && keyOrder == old(keyOrder)
        invariant |found| == i
        invariant i == 0 ==> specs == old(specs) && fetched == old(fetched)
        invariant 0 < i && req.name in old(specs) ==>
                    specs == old(specs) && fetched == old(fetched) && found == [specs[req.name]]
        invariant 0 < i && req.name !in old(specs) ==>
                    && specs == old(specs)[req.name := Loaded(repositories, req.name)]
                    && fetched == old(fetched) + [SourceFor(repositories, req.name)]
                    && found == [Loaded(repositories, req.name)]
      {
        var name := names[i];
        var g;
        if name in specs {
          g := specs[name];
        } else {
          g := LoadSpec(name);
        }
        found := found + [g];
      }
      r := Select(found, req.matches);
    }

    /**
     * Warms the cache for a batch of requests: every registered name that some
     * request asks for is fetched again and its cache entry overwritten, in
     * registry order, even when it is already cached.
     */
    method Prefetch(reqs: seq<Request>)
      requires Valid()
      modifies this
      ensures Valid()
      ensures repositories == old(repositories) && keyOrder == old(keyOrder)
      ensures specs == old(specs) + map n | n in repositories && n in RequestNames(reqs) :: Loaded(repositories, n)
      ensures fetched == old(fetched) + SourcesFor(repositories, KeysAmong(keyOrder, RequestNames(reqs)))
      ensures var loaded := KeysAmong(keyOrder, RequestNames(reqs));
                forall i, j :: 0 <= i < j < |loaded| ==> loaded[i] != loaded[j]
    {
      var names := RequestNames(reqs);
      var keys := keyOrder;
      ghost var registry := repositories;
      for i := 0 to |keys|
        invariant Valid()
        invariant repositories == registry && keyOrder == keys
        invariant specs == Refetched(old(specs), registry, keys[..i], names)
        invariant fetched == old(fetched) + RefetchLog(registry, keys[..i], names)
      {
        var name := keys[i];
        assert keys[..i + 1][..i] == keys[..i];
        if name in names {
          var _ := LoadSpec(name);
        }
      }
      assert keys[..|keys|] == keys;
      RefetchedRegistered(old(specs), registry, keys, names);
      RefetchLogIs(registry, keys, names);
      KeysAmongDistinct(keys, names);
      DistinctIndices(KeysAmong(keys, names));
    }
  }
}
