/** The content type manager: content types declared in the settings, loaded
    lazily into a cache, each merged with the configuration of its super types. */
module ContentTypes {
  import opened Wrappers

  /** A configuration value: absent (NULL), a scalar, or a list of names. */
  datatype Setting = NullSetting | Scalar(text: string) | NameList(names: seq<string>)

  /** A content type's configuration, keyed by option name. */
  type Config = map<string, Setting>

  /** The configuration key naming the super types. */
  const SuperTypesKey := "superTypes"

  /** A loaded content type: its name, its loaded super types in declaration
      order and its merged configuration. */
  datatype ContentType = ContentType(name: string, superTypes: seq<ContentType>, configuration: Config)

  datatype ContentTypeError =
    | UnknownContentType(name: string)     // 1316451800
    | CreationNotSupported(name: string)   // 1316449432

  /** isset($configuration['superTypes']) */
  predicate HasSuperTypes(c: Config)
  {
    SuperTypesKey in c && c[SuperTypesKey] != NullSetting
  }

  /** The names the foreach over the super types visits; a scalar visits none. */
  function SuperTypeNames(c: Config): seq<string>
  {
    if HasSuperTypes(c) && c[SuperTypesKey].NameList? then c[SuperTypesKey].names else []
  }

  /** ContentType.isOfType: the type itself or, transitively, one of its super types. */
  predicate IsOfType(t: ContentType, s: string)
    decreases t
  {
    t.name == s || exists j :: 0 <= j < |t.superTypes| && IsOfType(t.superTypes[j], s)
  }

  // ---------------------------------------------------------------------
  // Loading, as a function of the settings
  // ---------------------------------------------------------------------

  /** The declared super types never lead back to a type: every declared type
      has a rank above each of its declared super types. Without this the
      recursive loading does not end. */
  ghost predicate Ranked(types: map<string, Config>, rank: map<string, nat>)
  {
    (forall n :: n in types ==> n in rank) &&
    forall n, j :: n in types && 0 <= j < |SuperTypeNames(types[n])| && SuperTypeNames(types[n])[j] in types ==>
      rank[SuperTypeNames(types[n])[j]] < rank[n]
  }

  ghost function Height(types: map<string, Config>, rank: map<string, nat>, n: string): nat
  {
    if n in types && n in rank then rank[n] + 1 else 0
  }

  /** loadContentType without the cache: an undeclared name fails, so does a
      type whose super types fail to load (with the first such error);
      otherwise the inherited configuration, without its superTypes entry when
      the type declares super types, overridden by the type's own. */
  ghost function Load(types: map<string, Config>, rank: map<string, nat>, name: string): Result<ContentType, ContentTypeError>
    requires Ranked(types, rank)
    decreases Height(types, rank, name), 1, 0
  {
    if name !in types then Failure(UnknownContentType(name))
    else
      var own := types[name];
      var supers := MergeSupers(types, rank, name, |SuperTypeNames(own)|);
      if supers.Failure? then Failure(supers.error)
      else
        var inherited := if HasSuperTypes(own) then supers.value.1 - {SuperTypesKey} else supers.value.1;
        Success(ContentType(name, supers.value.0, inherited + own))
  }

  /** The first i super types of name, loaded, and their configurations merged
      in declaration order, later ones overriding earlier ones. */
  ghost function MergeSupers(types: map<string, Config>, rank: map<string, nat>, name: string, i: nat)
    : Result<(seq<ContentType>, Config), ContentTypeError>
    requires Ranked(types, rank) && name in types && i <= |SuperTypeNames(types[name])|
    decreases Height(types, rank, name), 0, i
  {
    if i == 0 then Success(([], map[]))
    else
      var prev := MergeSupers(types, rank, name, i - 1);
      if prev.Failure? then prev
      else
        var s := Load(types, rank, SuperTypeNames(types[name])[i - 1]);
        if s.Failure? then Failure(s.error)
        else Success((prev.value.0 + [s.value], prev.value.1 + s.value.configuration))
  }

  /** Once a super type fails, the rest of the merge keeps that error. */
  lemma {:induction false} MergeSupersFails(types: map<string, Config>, rank: map<string, nat>, name: string, i: nat, j: nat)
    requires Ranked(types, rank) && name in types && i <= j <= |SuperTypeNames(types[name])|
    requires MergeSupers(types, rank, name, i).Failure?
    ensures MergeSupers(types, rank, name, j) == MergeSupers(types, rank, name, i)
    decreases j - i
  {
    if i < j {
      MergeSupersFails(types, rank, name, i, j - 1);
    }
  }

  /** A successful merge loaded exactly the first i declared super types, in order. */
  lemma {:induction false} MergeSupersLoaded(types: map<string, Config>, rank: map<string, nat>, name: string, i: nat)
    requires Ranked(types, rank) && name in types && i <= |SuperTypeNames(types[name])|
    requires MergeSupers(types, rank, name, i).Success?
    ensures var ts := MergeSupers(types, rank, name, i).value.0;
      |ts| == i && forall j :: 0 <= j < i ==> Load(types, rank, SuperTypeNames(types[name])[j]) == Success(ts[j])
  {
    if i > 0 {
      var supers := SuperTypeNames(types[name]);
      MergeSupersLoaded(types, rank, name, i - 1);
      var prev := MergeSupers(types, rank, name, i - 1);
      var s := Load(types, rank, supers[i - 1]);
      assert prev.Success? && s.Success?;
      var ts := MergeSupers(types, rank, name, i).value.0;
      assert ts == prev.value.0 + [s.value];
      forall j | 0 <= j < i ensures Load(types, rank, supers[j]) == Success(ts[j]) {
        if j < i - 1 {
          assert ts[j] == prev.value.0[j];
        }
      }
    }
  }

  /** Key k of a successful merge comes from the last of the first i super
      types that has it, and is there exactly when one of them has it. */
  lemma {:induction false} MergeSupersKey(types: map<string, Config>, rank: map<string, nat>, name: string, i: nat, k: string)
    requires Ranked(types, rank) && name in types && i <= |SuperTypeNames(types[name])|
    requires MergeSupers(types, rank, name, i).Success?
    ensures OverridesKey(MergeSupers(types, rank, name, i).value.0, MergeSupers(types, rank, name, i).value.1, k)
  {
    if i > 0 {
      MergeSupersKey(types, rank, name, i - 1, k);
      var prev := MergeSupers(types, rank, name, i - 1);
      var s := Load(types, rank, SuperTypeNames(types[name])[i - 1]);
      assert prev.Success? && s.Success?;
      assert MergeSupers(types, rank, name, i).value == (prev.value.0 + [s.value], prev.value.1 + s.value.configuration);
      OverridesKeyStep(prev.value.0, prev.value.1, s.value, k);
    }
  }

  /** c is what overriding by the configurations of ts in order gives, as far as key k is concerned. */
  ghost predicate OverridesKey(ts: seq<ContentType>, c: Config, k: string)
  {
    (k in c <==> exists j :: 0 <= j < |ts| && k in ts[j].configuration) &&
    (k in c ==> exists j :: 0 <= j < |ts| && LastWith(ts, k, j) && c[k] == ts[j].configuration[k])
  }

  lemma OverridesKeyStep(ts: seq<ContentType>, c: Config, t: ContentType, k: string)
    requires OverridesKey(ts, c, k)
    ensures OverridesKey(ts + [t], c + t.configuration, k)
  {
    var us := ts + [t];
    var m := c + t.configuration;
    if k in t.configuration {
      assert us[|ts|] == t;
      assert LastWith(us, k, |ts|);
    } else {
      if k in m {
        var j :| 0 <= j < |ts| && LastWith(ts, k, j) && c[k] == ts[j].configuration[k];
        assert us[j] == ts[j];
        assert LastWith(us, k, j);
      }
      if exists j :: 0 <= j < |us| && k in us[j].configuration {
        var j :| 0 <= j < |us| && k in us[j].configuration;
        assert j < |ts| && us[j] == ts[j];
      }
    }
  }

  /** ts[j] has key k and no later type of ts does. */
  ghost predicate LastWith(ts: seq<ContentType>, k: string, j: nat)
  {
    j < |ts| && k in ts[j].configuration && forall l :: j < l < |ts| ==> k !in ts[l].configuration
  }

  /** A loaded type carries its name, and its super types are the declared
      ones, each loaded, in declaration order. */
  lemma LoadSuperTypes(types: map<string, Config>, rank: map<string, nat>, name: string)
    requires Ranked(types, rank) && Load(types, rank, name).Success?
    ensures name in types
    ensures var t := Load(types, rank, name).value;
      t.name == name && |t.superTypes| == |SuperTypeNames(types[name])| &&
      forall j :: 0 <= j < |t.superTypes| ==> Load(types, rank, SuperTypeNames(types[name])[j]) == Success(t.superTypes[j])
  {
    MergeSupersLoaded(types, rank, name, |SuperTypeNames(types[name])|);
  }

  /** A type fails to load exactly when it is undeclared or one of its
      declared super types fails to load. */
  lemma LoadFails(types: map<string, Config>, rank: map<string, nat>, name: string)
    requires Ranked(types, rank)
    ensures Load(types, rank, name).Failure? <==>
      name !in types ||
      exists j :: 0 <= j < |SuperTypeNames(types[name])| && Load(types, rank, SuperTypeNames(types[name])[j]).Failure?
  {
    if name in types {
      var supers := SuperTypeNames(types[name]);
      if Load(types, rank, name).Success? {
        LoadSuperTypes(types, rank, name);
      } else {
        LoadFailsAt(types, rank, name, |supers|);
      }
    }
  }

  lemma {:induction false} LoadFailsAt(types: map<string, Config>, rank: map<string, nat>, name: string, i: nat)
    requires Ranked(types, rank) && name in types && i <= |SuperTypeNames(types[name])|
    requires MergeSupers(types, rank, name, i).Failure?
    ensures exists j :: 0 <= j < i && Load(types, rank, SuperTypeNames(types[name])[j]).Failure?
  {
    if MergeSupers(types, rank, name, i - 1).Failure? {
      LoadFailsAt(types, rank, name, i - 1);
    }
  }

  /** The merged configuration: the type's own keys win; the superTypes entry
      is the type's own or absent; every other key is inherited from the last
      super type that has it, and present exactly when some super type has it. */
  lemma LoadConfiguration(types: map<string, Config>, rank: map<string, nat>, name: string, k: string)
    requires Ranked(types, rank) && Load(types, rank, name).Success?
    ensures name in types
    ensures var t := Load(types, rank, name).value; var own := types[name];
      (k in own ==> k in t.configuration && t.configuration[k] == own[k]) &&
      (k == SuperTypesKey ==> (k in t.configuration <==> k in own)) &&
      (k !in own && k != SuperTypesKey ==>
        (k in t.configuration <==> exists j :: 0 <= j < |t.superTypes| && k in t.superTypes[j].configuration)) &&
      (k !in own && k != SuperTypesKey && k in t.configuration ==>
        exists j :: 0 <= j < |t.superTypes| && LastWith(t.superTypes, k, j) && t.configuration[k] == t.superTypes[j].configuration[k])
  {
    var own := types[name];
    var n := |SuperTypeNames(own)|;
    MergeSupersKey(types, rank, name, n, k);
    if !HasSuperTypes(own) {
      assert n == 0;
      assert MergeSupers(types, rank, name, n).value.1 == map[];
    }
  }

  /** A loaded type is of its own type and of each of its declared super types. */
  lemma LoadIsOfSupers(types: map<string, Config>, rank: map<string, nat>, name: string)
    requires Ranked(types, rank) && Load(types, rank, name).Success?
    ensures name in types
    ensures IsOfType(Load(types, rank, name).value, name)
    ensures forall j :: 0 <= j < |SuperTypeNames(types[name])| ==>
      IsOfType(Load(types, rank, name).value, SuperTypeNames(types[name])[j])
  {
    LoadSuperTypes(types, rank, name);
    var t := Load(types, rank, name).value;
    var supers := SuperTypeNames(types[name]);
    forall j | 0 <= j < |supers| ensures IsOfType(t, supers[j]) {
      LoadSuperTypes(types, rank, supers[j]);
      assert IsOfType(t.superTypes[j], supers[j]);
    }
  }

  /** name loads to a type that is of type s. */
  ghost predicate LoadsOfType(types: map<string, Config>, rank: map<string, nat>, name: string, s: string)
    requires Ranked(types, rank)
  {
    Load(types, rank, name).Success? && IsOfType(Load(types, rank, name).value, s)
  }

  /** isOfType on a loaded type follows the declared super type names. */
  lemma LoadIsOfType(types: map<string, Config>, rank: map<string, nat>, name: string, s: string)
    requires Ranked(types, rank) && Load(types, rank, name).Success?
    ensures name in types
    ensures LoadsOfType(types, rank, name, s) <==>
      name == s || exists j :: 0 <= j < |SuperTypeNames(types[name])| && LoadsOfType(types, rank, SuperTypeNames(types[name])[j], s)
  {
    LoadSuperTypes(types, rank, name);
    var t := Load(types, rank, name).value;
    var supers := SuperTypeNames(types[name]);
    if exists j :: 0 <= j < |supers| && LoadsOfType(types, rank, supers[j], s) {
      var j :| 0 <= j < |supers| && LoadsOfType(types, rank, supers[j], s);
      assert Load(types, rank, supers[j]) == Success(t.superTypes[j]);
      assert IsOfType(t.superTypes[j], s);
    }
    if IsOfType(t, s) && name != s {
      var j :| 0 <= j < |t.superTypes| && IsOfType(t.superTypes[j], s);
      assert Load(types, rank, supers[j]) == Success(t.superTypes[j]);
      assert LoadsOfType(types, rank, supers[j], s);
    }
  }

  /** loadContentTypes without the cache: the first declared name, in
      settings order, that fails to load decides the outcome. */
  ghost function LoadAll(types: map<string, Config>, rank: map<string, nat>, order: seq<string>, i: nat): Outcome<ContentTypeError>
    requires Ranked(types, rank) && i <= |order|
  {
    if i == 0 then Pass
    else
      var prev := LoadAll(types, rank, order, i - 1);
      if prev.Fail? then prev
      else
        var t := Load(types, rank, order[i - 1]);
        if t.Failure? then Fail(t.error) else Pass
  }

  /** LoadAll passes iff every one of the first i names loads; when it fails,
      its error is that of the first name that fails. */
  lemma {:induction false} LoadAllSpec(types: map<string, Config>, rank: map<string, nat>, order: seq<string>, i: nat)
    requires Ranked(types, rank) && i <= |order|
    ensures LoadAll(types, rank, order, i).Pass? <==> forall j :: 0 <= j < i ==> Load(types, rank, order[j]).Success?
    ensures LoadAll(types, rank, order, i).Fail? ==>
      exists j :: 0 <= j < i && Load(types, rank, order[j]) == Failure(LoadAll(types, rank, order, i).error) &&
        forall l :: 0 <= l < j ==> Load(types, rank, order[l]).Success?
  {
    if i > 0 {
      LoadAllSpec(types, rank, order, i - 1);
    }
  }

  /** createContentType: creating content types is not supported. */
  function CreateContentType(name: string): (r: Result<ContentType, ContentTypeError>)
    ensures r.Failure? && r.error.CreationNotSupported? && r.error.name == name
  {
    Failure(CreationNotSupported(name))
  }

  // ---------------------------------------------------------------------
  // The manager and its cache
  // ---------------------------------------------------------------------

  /** order names exactly the declared content types. */
  ghost predicate Lists(order: seq<string>, types: map<string, Config>)
  {
    forall n :: n in types <==> n in order
  }

  /** b keeps every entry of a. */
  ghost predicate Extends(a: map<string, ContentType>, b: map<string, ContentType>)
  {
    forall n :: n in a ==> n in b && b[n] == a[n]
  }

  /** The first i names of order are cached. */
  ghost predicate Covered(order: seq<string>, i: nat, cached: map<string, ContentType>)
  {
    forall j :: 0 <= j < i && j < |order| ==> order[j] in cached
  }

  class ContentTypeManager {
    /** settings['contentTypes'], and the order of its keys. */
    const types: map<string, Config>
    const order: seq<string>
    /** Witness that the declared super types have no cycle. */
    ghost const rank: map<string, nat>
    /** cachedContentTypes, indexed by name. */
    var cached: map<string, ContentType>

    /** Every cached type is what loading its name gives. */
    ghost predicate Valid()
      reads this
    {
      Ranked(types, rank) &&
      forall n :: n in cached ==> Load(types, rank, n) == Success(cached[n])
    }

    /** Valid, and order lists the declared types: what the public lookups need. */
    ghost predicate Ready()
      reads this
    {
      Valid() && Lists(order, types)
    }

    /** injectSettings, with an empty cache. */
    constructor (types: map<string, Config>, order: seq<string>, ghost rank: map<string, nat>)
      requires Ranked(types, rank) && Lists(order, types)
      ensures Ready() && cached == map[]
      ensures this.types == types && this.order == order && this.rank == rank
    {
      this.types := types;
      this.order := order;
      this.rank := rank;
      cached := map[];
    }

    /** Cached types are declared types. */
    lemma CachedDeclared()
      requires Valid()
      ensures forall n :: n in cached ==> n in types
    {
    }

    /** loadContentType: the cached instance when there is one; otherwise the
        super types are loaded (and cached) first, then the type is built and
        cached under its name. */
    method LoadContentType(name: string) returns (r: Result<ContentType, ContentTypeError>)
      requires Valid()
      modifies this
      decreases Height(types, rank, name), 1
      ensures Valid() && r == Load(types, rank, name)
      ensures Extends(old(cached), cached)
      ensures name in old(cached) ==> cached == old(cached)
      ensures r.Success? ==> name in cached
    {
      if name in cached {
        return Success(cached[name]);
      }
      if name !in types {
        return Failure(UnknownContentType(name));
      }
      var own := types[name];
      var merged: Config := map[];
      var superTypes: seq<ContentType> := [];
      if HasSuperTypes(own) {
        var supers := SuperTypeNames(own);
        var i := 0;
        while i < |supers|
          invariant 0 <= i <= |supers|
          invariant Valid()
          invariant MergeSupers(types, rank, name, i) == Success((superTypes, merged))
          invariant Extends(old(cached), cached)
        {
          var s := LoadContentType(supers[i]);
          if s.Failure? {
            MergeSupersFails(types, rank, name, i + 1, |supers|);
            return Failure(s.error);
          }
          superTypes := superTypes + [s.value];
          merged := merged + s.value.configuration;
          i := i + 1;
        }
        merged := merged - {SuperTypesKey};
      }
      merged := merged + own;
      var t := ContentType(name, superTypes, merged);
      cached := cached[name := t];
      return Success(t);
    }

    /** loadContentTypes: every declared name in settings order; the first
        failure ends the loop and leaves what was cached so far. */
    method LoadContentTypes() returns (o: Outcome<ContentTypeError>)
      requires Valid()
      modifies this
      ensures Valid() && o == LoadAll(types, rank, order, |order|)
      ensures Extends(old(cached), cached)
      ensures o.Pass? ==> Covered(order, |order|, cached)
    {
      var i := 0;
      while i < |order|
        invariant 0 <= i <= |order|
        invariant Valid() && Extends(old(cached), cached) && Covered(order, i, cached)
      {
        CoveredLoadAll(types, rank, order, i, cached);
        var failed := LoadNext(i);
        if failed.Fail? {
          return failed;
        }
        i := i + 1;
      }
      CoveredLoadAll(types, rank, order, |order|, cached);
      return Pass;
    }

    /** One iteration of loadContentTypes. */
    method LoadNext(i: nat) returns (o: Outcome<ContentTypeError>)
      requires Valid() && i < |order| && Covered(order, i, cached) && LoadAll(types, rank, order, i) == Pass
      modifies this
      ensures Valid() && Extends(old(cached), cached)
      ensures o.Fail? ==> o == LoadAll(types, rank, order, |order|)
      ensures o.Pass? ==> Covered(order, i + 1, cached)
    {
      var t := LoadContentType(order[i]);
      if t.Failure? {
        LoadAllFails(types, rank, order, i + 1, t.error);
        return Fail(t.error);
      }
      return Pass;
    }

    /** The guard of every public lookup: load everything when the cache is empty. */
    method Prepare() returns (o: Outcome<ContentTypeError>)
      requires Ready()
      modifies this
      ensures Ready()
      ensures old(cached) != map[] ==> o == Pass && cached == old(cached)
      ensures old(cached) == map[] ==> o == LoadAll(types, rank, order, |order|)
      ensures old(cached) == map[] && o.Pass? ==> forall n :: n in cached <==> n in types
    {
      if cached == map[] {
        o := LoadContentTypes();
        CachedDeclared();
        if o.Pass? {
          forall n | n in types ensures n in cached {
            var j :| 0 <= j < |order| && order[j] == n;
          }
        }
      } else {
        o := Pass;
      }
    }

    /** getContentType: NULL for a name that is not cached. */
    method GetContentType(name: string) returns (r: Result<Option<ContentType>, ContentTypeError>)
      requires Ready()
      modifies this
      ensures Ready()
      ensures old(cached) != map[] ==> cached == old(cached) && r.Success?
      ensures old(cached) == map[] ==>
        (r.Failure? <==> LoadAll(types, rank, order, |order|).Fail?) &&
        (r.Failure? ==> r.error == LoadAll(types, rank, order, |order|).error) &&
        (r.Success? ==> (r.value.Some? <==> name in types))
      ensures r.Success? ==> (r.value.Some? <==> name in cached)
      ensures r.Success? && r.value.Some? ==> Load(types, rank, name) == Success(r.value.value)
    {
      var o := Prepare();
      if o.Fail? {
        return Failure(o.error);
      }
      if name in cached {
        return Success(Some(cached[name]));
      }
      return Success(None);
    }

    /** hasContentType: whether the name is cached. */
    method HasContentType(name: string) returns (r: Result<bool, ContentTypeError>)
      requires Ready()
      modifies this
      ensures Ready()
      ensures old(cached) != map[] ==> cached == old(cached) && r.Success?
      ensures old(cached) == map[] ==>
        (r.Failure? <==> LoadAll(types, rank, order, |order|).Fail?) &&
        (r.Failure? ==> r.error == LoadAll(types, rank, order, |order|).error) &&
        (r.Success? ==> (r.value <==> name in types))
      ensures r.Success? ==> (r.value <==> name in cached)
      ensures r.Success? && r.value ==> Load(types, rank, name).Success?
    {
      var o := Prepare();
      if o.Fail? {
        return Failure(o.error);
      }
      return Success(name in cached);
    }

    /** getSubContentTypes: the cached types that are of type superType, except superType itself. */
    method GetSubContentTypes(superType: string) returns (r: Result<map<string, ContentType>, ContentTypeError>)
      requires Ready()
      modifies this
      ensures Ready()
      ensures old(cached) != map[] ==> cached == old(cached) && r.Success?
      ensures old(cached) == map[] ==>
        (r.Failure? <==> LoadAll(types, rank, order, |order|).Fail?) &&
        (r.Failure? ==> r.error == LoadAll(types, rank, order, |order|).error)
      ensures r.Success? ==> forall n :: n in r.value <==> n in cached && IsOfType(cached[n], superType) && n != superType
      ensures r.Success? ==> forall n :: n in r.value ==> r.value[n] == cached[n]
    {
      var o := Prepare();
      if o.Fail? {
        return Failure(o.error);
      }
      var found := SubTypes(cached, superType);
      return Success(found);
    }

    /** getFullConfiguration: the merged configuration of every cached type. */
    method GetFullConfiguration() returns (r: Result<map<string, Config>, ContentTypeError>)
      requires Ready()
      modifies this
      ensures Ready()
      ensures old(cached) != map[] ==> cached == old(cached) && r.Success?
      ensures old(cached) == map[] ==>
        (r.Failure? <==> LoadAll(types, rank, order, |order|).Fail?) &&
        (r.Failure? ==> r.error == LoadAll(types, rank, order, |order|).error)
      ensures r.Success? ==> forall n :: n in r.value <==> n in cached
      ensures r.Success? ==> forall n :: n in r.value ==> r.value[n] == Load(types, rank, n).value.configuration
    {
      var o := Prepare();
      if o.Fail? {
        return Failure(o.error);
      }
      var full := Configurations(cached);
      return Success(full);
    }
  }

  /** The foreach of getSubContentTypes over the cached types. */
  method SubTypes(cached: map<string, ContentType>, superType: string) returns (found: map<string, ContentType>)
    ensures forall n :: n in found <==> n in cached && IsOfType(cached[n], superType) && n != superType
    ensures forall n :: n in found ==> found[n] == cached[n]
  {
    found := map[];
    var remaining := cached.Keys;
    while remaining != {}
      invariant remaining <= cached.Keys
      invariant forall n :: n in found <==> n in cached && n !in remaining && IsOfType(cached[n], superType) && n != superType
      invariant forall n :: n in found ==> found[n] == cached[n]
      decreases remaining
    {
      var n :| n in remaining;
      if IsOfType(cached[n], superType) && n != superType {
        found := found[n := cached[n]];
      }
      remaining := remaining - {n};
    }
  }

  /** The foreach of getFullConfiguration over the cached types. */
  method Configurations(cached: map<string, ContentType>) returns (full: map<string, Config>)
    ensures forall n :: n in full <==> n in cached
    ensures forall n :: n in full ==> full[n] == cached[n].configuration
  {
    full := map[];
    var remaining := cached.Keys;
    while remaining != {}
      invariant remaining <= cached.Keys
      invariant forall n :: n in full <==> n in cached && n !in remaining
      invariant forall n :: n in full ==> full[n] == cached[n].configuration
      decreases remaining
    {
      var n :| n in remaining;
      full := full[n := cached[n].configuration];
      remaining := remaining - {n};
    }
  }

  /** When the first i names are cached, and the cache agrees with loading,
      loading the first i names passes. */
  lemma {:induction false} CoveredLoadAll(types: map<string, Config>, rank: map<string, nat>, order: seq<string>, i: nat,
                                          cached: map<string, ContentType>)
    requires Ranked(types, rank) && i <= |order| && Covered(order, i, cached)
    requires forall n :: n in cached ==> Load(types, rank, n) == Success(cached[n])
    ensures LoadAll(types, rank, order, i) == Pass
  {
    if i > 0 {
      CoveredLoadAll(types, rank, order, i - 1, cached);
      assert order[i - 1] in cached;
    }
  }

  /** Once name i - 1 fails, LoadAll over the first i names fails with its error. */
  lemma LoadAllFails(types: map<string, Config>, rank: map<string, nat>, order: seq<string>, i: nat, e: ContentTypeError)
    requires Ranked(types, rank) && 0 < i <= |order|
    requires LoadAll(types, rank, order, i - 1) == Pass && Load(types, rank, order[i - 1]) == Failure(e)
    ensures LoadAll(types, rank, order, |order|) == Fail(e)
  {
    LoadAllStaysFailed(types, rank, order, i, |order|);
  }

  lemma {:induction false} LoadAllStaysFailed(types: map<string, Config>, rank: map<string, nat>, order: seq<string>, i: nat, j: nat)
    requires Ranked(types, rank) && i <= j <= |order| && LoadAll(types, rank, order, i).Fail?
    ensures LoadAll(types, rank, order, j) == LoadAll(types, rank, order, i)
    decreases j - i
  {
    if i < j {
      LoadAllStaysFailed(types, rank, order, i, j - 1);
    }
  }
}
