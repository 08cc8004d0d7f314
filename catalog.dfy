/** Model of the diagnostic provider registry of the agent validator
    (pkg/diagnostic/catalog/catalog.go): a map from a check identifier to
    its visibility and its provider, filled once at start-up and then
    queried by identifier. */
module Catalog {

  /** An opaque diagnostic check built by a provider factory outside the
      registry. The registry only stores and returns references to it;
      the null value of `Provider?` stands for Go's nil provider. */
  class Provider {}

  /** What the registry keeps per identifier (Go's `providerInfo`):
      whether the check is private (an internal stage event) and its
      handler. The handler type is non-null, so no stored entry can hold
      a nil provider. */
  datatype ProviderInfo = ProviderInfo(private: bool, handler: Provider)

  type Entries = map<string, ProviderInfo>

  /** The two ways a registration fails (the two panics of `add`). */
  datatype AddError = NilProvider | Duplicate(name: string)

  /** The result of one registration. */
  datatype Outcome = Pass | Fail(error: AddError) {
    predicate IsFailure() { Fail? }
    function PropagateFailure<U>(): Result<U>
      requires Fail?
    {
      Failure(error)
    }
  }

  datatype Result<T> = Success(value: T) | Failure(error: AddError)

  // ------------------------------------------------------------------
  // Specification functions

  /** The requested identifiers that are registered, in input order,
      repeats kept and unknown ones dropped. */
  function Known(m: Entries, ids: seq<string>): (r: seq<string>)
    ensures |r| <= |ids|
    ensures forall k :: 0 <= k < |r| ==> r[k] in m
  {
    if ids == [] then []
    else (if ids[0] in m then [ids[0]] else []) + Known(m, ids[1..])
  }

  /** The identifiers of the public (listable) entries. */
  function PublicIds(m: Entries): (r: set<string>)
    ensures r <= m.Keys
  {
    set id | id in m && !m[id].private
  }

  function Elements(s: seq<string>): (r: set<string>) {
    set x | x in s
  }

  predicate Distinct(s: seq<string>) {
    forall i, j | 0 <= i < j < |s| :: s[i] != s[j]
  }

  // ------------------------------------------------------------------
  // Lemmas about the specification functions

  /** Filtering distributes over concatenation: the kept identifiers of
      a longer request are those of its parts, in the same order. */
  lemma {:induction false} KnownAppend(m: Entries, a: seq<string>, b: seq<string>)
    ensures Known(m, a + b) == Known(m, a) + Known(m, b)
  {
    if a == [] {
      assert a + b == b;
    } else {
      assert (a + b)[1..] == a[1..] + b;
      KnownAppend(m, a[1..], b);
    }
  }

  /** An identifier is kept exactly when it was requested and is registered. */
  lemma {:induction false} KnownMember(m: Entries, ids: seq<string>, x: string)
    ensures x in Known(m, ids) <==> x in ids && x in m
  {
    if ids != [] {
      KnownMember(m, ids[1..], x);
      assert ids == [ids[0]] + ids[1..];
    }
  }

  /** Every registered identifier is kept as often as it was requested;
      every unknown one is dropped entirely. */
  lemma {:induction false} KnownMultiplicity(m: Entries, ids: seq<string>, x: string)
    ensures multiset(Known(m, ids))[x] == if x in m then multiset(ids)[x] else 0
  {
    if ids != [] {
      KnownMultiplicity(m, ids[1..], x);
      assert ids == [ids[0]] + ids[1..];
      assert multiset(ids) == multiset([ids[0]]) + multiset(ids[1..]);
    }
  }

  /** Nothing is kept exactly when no requested identifier is registered
      (in particular for the empty request). */
  lemma {:induction false} KnownEmpty(m: Entries, ids: seq<string>)
    ensures Known(m, ids) == [] <==> forall k :: 0 <= k < |ids| ==> ids[k] !in m
  {
    if ids != [] {
      KnownEmpty(m, ids[1..]);
      assert forall k :: 1 <= k < |ids| ==> ids[k] == ids[1..][k - 1];
    }
  }

  /** The request comes back whole (and only then is nothing dropped)
      exactly when every requested identifier is registered. */
  lemma {:induction false} KnownWhole(m: Entries, ids: seq<string>)
    ensures Known(m, ids) == ids <==> forall k :: 0 <= k < |ids| ==> ids[k] in m
    ensures |Known(m, ids)| == |ids| <==> forall k :: 0 <= k < |ids| ==> ids[k] in m
  {
    if ids != [] {
      KnownWhole(m, ids[1..]);
      assert forall k :: 1 <= k < |ids| ==> ids[k] == ids[1..][k - 1];
      assert ids == [ids[0]] + ids[1..];
    }
  }

  /** With "a", "b" and "c" registered, the request ["x", "b", "a"]
      resolves to the entries of "b" then "a"; the unknown "x" is dropped. */
  lemma KnownExample(pa: Provider, pb: Provider, pc: Provider)
    ensures var m := map["a" := ProviderInfo(false, pa), "b" := ProviderInfo(false, pb),
                         "c" := ProviderInfo(false, pc)];
      Known(m, ["x", "b", "a"]) == ["b", "a"]
  {
    var m := map["a" := ProviderInfo(false, pa), "b" := ProviderInfo(false, pb),
                 "c" := ProviderInfo(false, pc)];
    assert "x"[0] != "a"[0] && "x"[0] != "b"[0] && "x"[0] != "c"[0];
    assert "x" !in m;
    assert ["a"][1..] == [];
    assert Known(m, ["a"]) == ["a"];
    assert ["b", "a"][1..] == ["a"];
    assert Known(m, ["b", "a"]) == ["b", "a"];
    assert ["x", "b", "a"][1..] == ["b", "a"];
  }

  /** What a successful registration does to the entries: exactly one
      new identifier, and every existing entry, with its visibility, kept. */
  lemma AddOneEntry(m: Entries, name: string, info: ProviderInfo)
    requires name !in m
    ensures m[name := info].Keys == m.Keys + {name}
    ensures |m[name := info]| == |m| + 1
    ensures forall id :: id in m ==> m[name := info][id] == m[id]
  {
  }

  // ------------------------------------------------------------------
  // The registry

  /** The registry of NewCatalog (Go's `registry`), without its mutex. */
  class Registry {
    var providers: Entries

    /** An empty registry. */
    constructor ()
      ensures providers == map[]
    {
      providers := map[];
    }

    /** One-time registration (Go's `add`): refuses a nil provider first,
        then an identifier already present, and leaves the registry
        unchanged when it refuses; otherwise maps `name` to exactly
        `(private, provider)`, adding one entry and keeping every other
        (see AddOneEntry). */
    method Add(name: string, private: bool, provider: Provider?) returns (o: Outcome)
      modifies this
      ensures provider == null ==> o == Fail(NilProvider)
      ensures provider != null && name in old(providers) ==> o == Fail(Duplicate(name))
      ensures o.Pass? <==> provider != null && name !in old(providers)
      ensures o.Fail? ==> providers == old(providers)
      ensures o.Pass? ==> provider != null && providers == old(providers)[name := ProviderInfo(private, provider)]
    {
      if provider == null {
        return Fail(NilProvider);
      }
      if name in providers {
        return Fail(Duplicate(name));
      }
      providers := providers[name := ProviderInfo(private, provider)];
      return Pass;
    }

    /** Membership test. */
    method Has(id: string) returns (ok: bool)
      ensures ok <==> id in providers
    {
      ok := id in providers;
    }

    /** The handlers of the registered identifiers among `ids`, in input
        order, repeats kept and unknown identifiers dropped. */
    method Get(ids: seq<string>) returns (handlers: seq<Provider>)
      ensures |handlers| == |Known(providers, ids)| <= |ids|
      ensures forall k :: 0 <= k < |handlers| ==>
                handlers[k] == providers[Known(providers, ids)[k]].handler
    {
      handlers := [];
      if |ids| == 0 {
        return;
      }
      var needed := [];
      for i := 0 to |ids|
        invariant needed == Known(providers, ids[..i])
      {
        var ok := Has(ids[i]);
        if ok {
          needed := needed + [ids[i]];
        }
        assert ids[..i + 1] == ids[..i] + [ids[i]];
        KnownAppend(providers, ids[..i], [ids[i]]);
      }
      assert ids[..|ids|] == ids;
      for j := 0 to |needed|
        invariant |handlers| == j
        invariant forall k :: 0 <= k < j ==> handlers[k] == providers[needed[k]].handler
      {
        handlers := handlers + [providers[needed[j]].handler];
      }
    }

    /** The identifiers of the public entries, each once, in an
        unspecified order (Go map iteration order). */
    method List() returns (ids: seq<string>)
      ensures Elements(ids) == PublicIds(providers)
      ensures Distinct(ids)
      ensures |ids| == |PublicIds(providers)|
    {
      ids := [];
      var rest := providers.Keys;
      while rest != {}
        invariant rest <= providers.Keys
        invariant forall id :: id in ids <==> id in providers && id !in rest && !providers[id].private
        invariant Distinct(ids)
        decreases rest
      {
        var id :| id in rest;
        rest := rest - {id};
        if providers[id].private {
          continue;
        }
        ids := ids + [id];
      }
      assert Elements(ids) == PublicIds(providers);
      DistinctCard(ids);
    }
  }

  // ------------------------------------------------------------------
  // The fixed registration sequence of NewCatalog

  /** The identifier constants of the configuration package. */
  datatype DiagnosticIds = DiagnosticIds(
    apiKey: string, egressAccess: string, k8sVersion: string, kms: string,
    nodeExporter: string, scrapeConfig: string,
    internalInitStart: string, internalInitStop: string, internalInitFailed: string,
    internalPodStart: string, internalPodStop: string)

  /** The providers the factories build, one per identifier. */
  datatype BuiltProviders = BuiltProviders(
    apiKey: Provider, egressAccess: Provider, k8sVersion: Provider, kms: Provider,
    nodeExporter: Provider, scrapeConfig: Provider,
    internalInitStart: Provider, internalInitStop: Provider, internalInitFailed: Provider,
    internalPodStart: Provider, internalPodStop: Provider)

  /** The user-facing checks, in registration order. */
  function PublicChecks(d: DiagnosticIds): (r: seq<string>) {
    [d.apiKey, d.egressAccess, d.k8sVersion, d.kms, d.nodeExporter, d.scrapeConfig]
  }

  /** The internal stage-event checks, in registration order. */
  function StageChecks(d: DiagnosticIds): (r: seq<string>) {
    [d.internalInitStart, d.internalInitStop, d.internalInitFailed,
     d.internalPodStart, d.internalPodStop]
  }

  function AllChecks(d: DiagnosticIds): (r: seq<string>) {
    PublicChecks(d) + StageChecks(d)
  }

  /** One call of `add` in NewCatalog. */
  datatype Registration = Registration(name: string, private: bool, provider: Provider)

  /** The registrations of NewCatalog in order: the six public checks,
      then the five private stage checks. */
  function Registrations(d: DiagnosticIds, p: BuiltProviders): (regs: seq<Registration>)
    ensures |regs| == 11
    ensures forall k :: 0 <= k < 11 ==>
              regs[k].name == AllChecks(d)[k] && (regs[k].private <==> k >= 6)
  {
    [Registration(d.apiKey, false, p.apiKey),
     Registration(d.egressAccess, false, p.egressAccess),
     Registration(d.k8sVersion, false, p.k8sVersion),
     Registration(d.kms, false, p.kms),
     Registration(d.nodeExporter, false, p.nodeExporter),
     Registration(d.scrapeConfig, false, p.scrapeConfig),
     Registration(d.internalInitStart, true, p.internalInitStart),
     Registration(d.internalInitStop, true, p.internalInitStop),
     Registration(d.internalInitFailed, true, p.internalInitFailed),
     Registration(d.internalPodStart, true, p.internalPodStart),
     Registration(d.internalPodStop, true, p.internalPodStop)]
  }

  /** The identifiers of `regs`, in order. */
  function Names(regs: seq<Registration>): (r: seq<string>) {
    seq(|regs|, k requires 0 <= k < |regs| => regs[k].name)
  }

  /** Registration `r` after the outcome `acc` of the earlier ones (the
      logic of `add` for a non-nil provider): an earlier refusal stands,
      an identifier already present is refused, otherwise it is added. */
  function AddEntry(acc: Result<Entries>, r: Registration): (res: Result<Entries>)
    ensures acc.Failure? ==> res == acc
    ensures res.Success? <==> acc.Success? && r.name !in acc.value
    ensures acc.Success? && res.Failure? ==> res.error == Duplicate(r.name)
    ensures res.Success? ==> res.value.Keys == acc.value.Keys + {r.name}
    ensures res.Success? ==> res.value[r.name] == ProviderInfo(r.private, r.provider)
  {
    match acc
    case Failure(_) => acc
    case Success(m) =>
      if r.name in m then Failure(Duplicate(r.name))
      else Success(m[r.name := ProviderInfo(r.private, r.provider)])
  }

  /** Registers `regs` in order on `m`, stopping at the first refused one. */
  function RegisterAll(m: Entries, regs: seq<Registration>): (res: Result<Entries>)
    ensures res.Failure? ==> res.error.Duplicate?
    decreases |regs|
  {
    if regs == [] then Success(m)
    else match AddEntry(Success(m), regs[0])
      case Failure(e) => Failure(e)
      case Success(m') => RegisterAll(m', regs[1..])
  }

  /** Eleven registrations made one after another on an empty registry,
      written out step by step as NewCatalog makes them. */
  function ElevenSteps(regs: seq<Registration>): (res: Result<Entries>)
    requires |regs| == 11
    ensures res.Failure? ==> res.error.Duplicate?
  {
    var r0 := AddEntry(Success(map[]), regs[0]);
    var r1 := AddEntry(r0, regs[1]);
    var r2 := AddEntry(r1, regs[2]);
    var r3 := AddEntry(r2, regs[3]);
    var r4 := AddEntry(r3, regs[4]);
    var r5 := AddEntry(r4, regs[5]);
    var r6 := AddEntry(r5, regs[6]);
    var r7 := AddEntry(r6, regs[7]);
    var r8 := AddEntry(r7, regs[8]);
    var r9 := AddEntry(r8, regs[9]);
    AddEntry(r9, regs[10])
  }

  /** The outcome of NewCatalog's straight-line registrations. */
  function BuildCatalog(d: DiagnosticIds, p: BuiltProviders): (res: Result<Entries>)
    ensures res.Failure? ==> res.error.Duplicate?
  {
    ElevenSteps(Registrations(d, p))
  }

  /** Registering one more identifier after a sequence is one more step
      on the sequence's outcome. */
  lemma {:induction false} RegisterAllSnoc(m: Entries, a: seq<Registration>, r: Registration)
    ensures RegisterAll(m, a + [r]) == AddEntry(RegisterAll(m, a), r)
    decreases |a|
  {
    if a == [] {
      assert [] + [r] == [r];
    } else {
      assert (a + [r])[0] == a[0] && (a + [r])[1..] == a[1..] + [r];
      match AddEntry(Success(m), a[0])
      case Failure(_) =>
      case Success(m') => RegisterAllSnoc(m', a[1..], r);
    }
  }

  /** Eleven straight-line registrations are the fold of their list. */
  lemma ElevenStepsIsFold(regs: seq<Registration>)
    requires |regs| == 11
    ensures ElevenSteps(regs) == RegisterAll(map[], regs)
  {
    assert regs[..0] == [];
    PrefixStep(regs, 0);
    PrefixStep(regs, 1);
    PrefixStep(regs, 2);
    PrefixStep(regs, 3);
    PrefixStep(regs, 4);
    PrefixStep(regs, 5);
    PrefixStep(regs, 6);
    PrefixStep(regs, 7);
    PrefixStep(regs, 8);
    PrefixStep(regs, 9);
    PrefixStep(regs, 10);
    assert regs[..11] == regs;
  }

  /** Folding one more element of a list is one more registration step. */
  lemma PrefixStep(regs: seq<Registration>, k: nat)
    requires k < |regs|
    ensures RegisterAll(map[], regs[..k + 1]) == AddEntry(RegisterAll(map[], regs[..k]), regs[k])
  {
    assert regs[..k + 1] == regs[..k] + [regs[k]];
    RegisterAllSnoc(map[], regs[..k], regs[k]);
  }

  /** The straight-line registrations are the fold of the registration list. */
  lemma CatalogIsFold(d: DiagnosticIds, p: BuiltProviders)
    ensures BuildCatalog(d, p) == RegisterAll(map[], Registrations(d, p))
  {
    ElevenStepsIsFold(Registrations(d, p));
  }

  /** A sequence of registrations succeeds exactly when its names are
      pairwise distinct and none is already present. */
  lemma {:induction false} RegisterAllOutcome(m: Entries, regs: seq<Registration>)
    ensures RegisterAll(m, regs).Success? <==> Distinct(Names(regs)) && Elements(Names(regs)) !! m.Keys
    decreases |regs|
  {
    if regs != [] {
      var r := regs[0];
      var tail := regs[1..];
      if r.name in m {
        assert Names(regs)[0] == r.name;
      } else {
        var m' := m[r.name := ProviderInfo(r.private, r.provider)];
        assert RegisterAll(m, regs) == RegisterAll(m', tail);
        RegisterAllOutcome(m', tail);
        assert Names(regs) == [r.name] + Names(tail);
        assert m'.Keys == m.Keys + {r.name};
        FreshCons(r.name, Names(tail), m.Keys);
      }
    }
  }

  /** Prepending a new name `x` to `s` keeps it repeat-free and disjoint
      from `present` exactly when `s` is repeat-free and disjoint from
      `present` with `x` added. */
  lemma FreshCons(x: string, s: seq<string>, present: set<string>)
    requires x !in present
    ensures Distinct([x] + s) && Elements([x] + s) !! present
        <==> Distinct(s) && Elements(s) !! present + {x}
  {
    DistinctCons(x, s);
    assert Elements([x] + s) == {x} + Elements(s);
  }

  /** A refused sequence of registrations is refused as a duplicate of one
      of the names it registers (every provider in it is non-nil). */
  lemma {:induction false} RegisterAllRefusal(m: Entries, regs: seq<Registration>)
    requires RegisterAll(m, regs).Failure?
    ensures RegisterAll(m, regs).error.Duplicate?
    ensures RegisterAll(m, regs).error.name in Elements(Names(regs))
    decreases |regs|
  {
    var r := regs[0];
    var tail := regs[1..];
    assert Names(regs) == [r.name] + Names(tail);
    assert Elements(Names(regs)) == {r.name} + Elements(Names(tail));
    if r.name !in m {
      var m' := m[r.name := ProviderInfo(r.private, r.provider)];
      assert RegisterAll(m, regs) == RegisterAll(m', tail);
      RegisterAllRefusal(m', tail);
    }
  }

  /** A successful sequence of registrations adds exactly the names it
      registers as keys, and keeps every earlier entry. */
  lemma {:induction false} RegisterAllKeeps(m: Entries, regs: seq<Registration>)
    requires RegisterAll(m, regs).Success?
    ensures RegisterAll(m, regs).value.Keys == m.Keys + Elements(Names(regs))
    ensures forall id :: id in m ==> RegisterAll(m, regs).value[id] == m[id]
    decreases |regs|
  {
    if regs != [] {
      var r := regs[0];
      var tail := regs[1..];
      var m' := m[r.name := ProviderInfo(r.private, r.provider)];
      assert RegisterAll(m, regs) == RegisterAll(m', tail);
      RegisterAllKeeps(m', tail);
      assert Names(regs) == [r.name] + Names(tail);
      assert Elements(Names(regs)) == {r.name} + Elements(Names(tail));
    }
  }

  /** A successful sequence of registrations maps each name it registers
      to that registration's visibility and provider. */
  lemma {:induction false} RegisterAllEntries(m: Entries, regs: seq<Registration>)
    requires RegisterAll(m, regs).Success?
    ensures forall k :: 0 <= k < |regs| ==>
              regs[k].name in RegisterAll(m, regs).value &&
              RegisterAll(m, regs).value[regs[k].name] == ProviderInfo(regs[k].private, regs[k].provider)
    decreases |regs|
  {
    if regs != [] {
      var r := regs[0];
      var tail := regs[1..];
      var m' := m[r.name := ProviderInfo(r.private, r.provider)];
      assert RegisterAll(m, regs) == RegisterAll(m', tail);
      RegisterAllKeeps(m', tail);
      RegisterAllEntries(m', tail);
      var v := RegisterAll(m', tail).value;
      assert v[r.name] == ProviderInfo(r.private, r.provider);
      forall k | 0 < k < |regs|
        ensures regs[k].name in v && v[regs[k].name] == ProviderInfo(regs[k].private, regs[k].provider)
      {
        assert regs[k] == tail[k - 1];
      }
    }
  }



  /** A non-empty sequence is repeat-free exactly when its head does not
      recur and its tail is repeat-free. */
  lemma DistinctCons(x: string, s: seq<string>)
    ensures Distinct([x] + s) <==> x !in Elements(s) && Distinct(s)
  {
    var t := [x] + s;
    if Distinct(t) {
      forall i, j | 0 <= i < j < |s| ensures s[i] != s[j] {
        assert s[i] == t[i + 1] && s[j] == t[j + 1];
      }
      forall k | 0 <= k < |s| ensures s[k] != x {
        assert t[0] == x && t[k + 1] == s[k];
      }
    }
    if x !in Elements(s) && Distinct(s) {
      forall i, j | 0 <= i < j < |t| ensures t[i] != t[j] {
        assert t[j] == s[j - 1];
        if i > 0 {
          assert t[i] == s[i - 1];
        }
      }
    }
  }

  /** Builds the catalog (Go's `NewCatalog`): six public checks, then five
      private stage checks, on a fresh registry. It succeeds exactly when
      the eleven identifiers are pairwise distinct, and then holds the
      entries BuildCatalog describes; otherwise it reports the refusal of
      the first repeated identifier, where the source panics. */
  method NewCatalog(d: DiagnosticIds, p: BuiltProviders) returns (res: Result<Registry>)
    ensures res.Success? <==> Distinct(AllChecks(d))
    ensures res.Success? <==> BuildCatalog(d, p).Success?
    ensures res.Success? ==> fresh(res.value) && res.value.providers == BuildCatalog(d, p).value
    ensures res.Failure? ==> res.error == BuildCatalog(d, p).error
    ensures res.Failure? ==> res.error.Duplicate? && res.error.name in AllChecks(d)
  {
    CatalogOutcome(d, p);
    var r := new Registry();
    // The first registration cannot be refused: the registry is empty and
    // the provider is not nil.
    var first := r.Add(d.apiKey, false, p.apiKey);
    assert first == Pass;
    :- r.Add(d.egressAccess, false, p.egressAccess);
    :- r.Add(d.k8sVersion, false, p.k8sVersion);
    :- r.Add(d.kms, false, p.kms);
    :- r.Add(d.nodeExporter, false, p.nodeExporter);
    :- r.Add(d.scrapeConfig, false, p.scrapeConfig);

    :- r.Add(d.internalInitStart, true, p.internalInitStart);
    :- r.Add(d.internalInitStop, true, p.internalInitStop);
    :- r.Add(d.internalInitFailed, true, p.internalInitFailed);
    :- r.Add(d.internalPodStart, true, p.internalPodStart);
    :- r.Add(d.internalPodStop, true, p.internalPodStop);
    return Success(r);
  }

  /** The catalog's registrations succeed exactly when the eleven
      identifiers are pairwise distinct; a refusal is a duplicate naming one
      of the eleven (CatalogRefusalRepeated: one that occurs twice). */
  lemma CatalogOutcome(d: DiagnosticIds, p: BuiltProviders)
    ensures BuildCatalog(d, p).Success? <==> Distinct(AllChecks(d))
    ensures BuildCatalog(d, p).Failure? ==>
              BuildCatalog(d, p).error.Duplicate? && BuildCatalog(d, p).error.name in AllChecks(d)
  {
    CatalogIsFold(d, p);
    assert Names(Registrations(d, p)) == AllChecks(d);
    RegisterAllOutcome(map[], Registrations(d, p));
    if BuildCatalog(d, p).Failure? {
      RegisterAllRefusal(map[], Registrations(d, p));
    }
  }

  /** The name of a refused sequence of registrations was already present,
      or is registered twice in the sequence. */
  lemma {:induction false} RegisterAllRepeated(m: Entries, regs: seq<Registration>)
    requires RegisterAll(m, regs).Failure?
    ensures RegisterAll(m, regs).error.Duplicate?
    ensures var n := RegisterAll(m, regs).error.name;
      n in m || exists i, j :: 0 <= i < j < |regs| && regs[i].name == n && regs[j].name == n
    decreases |regs|
  {
    RegisterAllRefusal(m, regs);
    var r := regs[0];
    var tail := regs[1..];
    if r.name !in m {
      var m' := m[r.name := ProviderInfo(r.private, r.provider)];
      assert RegisterAll(m, regs) == RegisterAll(m', tail);
      var n := RegisterAll(m, regs).error.name;
      RegisterAllRepeated(m', tail);
      if n in m' && n !in m {
        RegisterAllRefusal(m', tail);
        var j :| 0 <= j < |tail| && Names(tail)[j] == n;
        assert regs[0].name == n && regs[j + 1].name == n;
      } else if n !in m' {
        var i, j :| 0 <= i < j < |tail| && tail[i].name == n && tail[j].name == n;
        assert regs[i + 1].name == n && regs[j + 1].name == n;
      }
    }
  }

  /** A refusal of the catalog names an identifier that occurs twice among
      the eleven checks. */
  lemma CatalogRefusalRepeated(d: DiagnosticIds, p: BuiltProviders)
    requires BuildCatalog(d, p).Failure?
    ensures BuildCatalog(d, p).error.Duplicate?
    ensures exists i, j :: 0 <= i < j < 11 &&
              AllChecks(d)[i] == BuildCatalog(d, p).error.name &&
              AllChecks(d)[j] == BuildCatalog(d, p).error.name
  {
    CatalogIsFold(d, p);
    var regs := Registrations(d, p);
    RegisterAllRepeated(map[], regs);
    var n := BuildCatalog(d, p).error.name;
    var i, j :| 0 <= i < j < 11 && regs[i].name == n && regs[j].name == n;
    assert AllChecks(d)[i] == n && AllChecks(d)[j] == n;
  }

  /** A sequence without repeats has as many elements as its set. */
  lemma {:induction false} DistinctCard(s: seq<string>)
    requires Distinct(s)
    ensures |Elements(s)| == |s|
  {
    if s != [] {
      var t := s[1..];
      assert s == [s[0]] + t;
      DistinctCons(s[0], t);
      DistinctCard(t);
      assert Elements(s) == {s[0]} + Elements(t);
    }
  }

  /** With distinct identifiers every registration of the catalog takes
      effect: check `k` is registered, and is private exactly when it is
      one of the five stage checks (k >= 6). */
  lemma CatalogEntriesAt(d: DiagnosticIds, p: BuiltProviders)
    requires Distinct(AllChecks(d))
    ensures BuildCatalog(d, p).Success?
    ensures var m := BuildCatalog(d, p).value;
      && m.Keys == Elements(AllChecks(d))
      && forall k :: 0 <= k < 11 ==> (m[AllChecks(d)[k]].private <==> k >= 6)
  {
    CatalogIsFold(d, p);
    RegistrationEntries(d, p);
  }

  /** The registration list of the catalog, folded, takes every entry. */
  lemma RegistrationEntries(d: DiagnosticIds, p: BuiltProviders)
    requires Distinct(AllChecks(d))
    ensures RegisterAll(map[], Registrations(d, p)).Success?
    ensures var m := RegisterAll(map[], Registrations(d, p)).value;
      && m.Keys == Elements(AllChecks(d))
      && forall k :: 0 <= k < 11 ==> (m[AllChecks(d)[k]].private <==> k >= 6)
  {
    var regs := Registrations(d, p);
    assert Names(regs) == AllChecks(d);
    RegisterAllOutcome(map[], regs);
    RegisterAllKeeps(map[], regs);
    RegisterAllEntries(map[], regs);
    var m := RegisterAll(map[], regs).value;
    forall k | 0 <= k < 11 ensures m[AllChecks(d)[k]].private <==> k >= 6 {
      assert regs[k].name == AllChecks(d)[k];
    }
  }

  /** With distinct identifiers the catalog holds exactly the eleven checks. */
  lemma CatalogSize(d: DiagnosticIds, p: BuiltProviders)
    requires Distinct(AllChecks(d))
    ensures BuildCatalog(d, p).Success?
    ensures |BuildCatalog(d, p).value| == 11
  {
    CatalogEntriesAt(d, p);
    DistinctCard(AllChecks(d));
  }

  /** In any registry whose keys are the eleven distinct checks, check `k`
      being private exactly when k >= 6, the public entries are the six
      user-facing checks and the stage checks are registered but private. */
  lemma PublicOfEleven(m: Entries, all: seq<string>)
    requires |all| == 11 && Distinct(all)
    requires m.Keys == Elements(all)
    requires forall k :: 0 <= k < 11 ==> (m[all[k]].private <==> k >= 6)
    ensures PublicIds(m) == Elements(all[..6])
    ensures |PublicIds(m)| == 6
    ensures forall id :: id in all[6..] ==> id in m && id !in PublicIds(m)
  {
    var pub := all[..6];
    forall x | x in PublicIds(m) ensures x in pub {
      var k :| 0 <= k < 11 && all[k] == x;
      assert pub[k] == x;
    }
    forall x | x in pub ensures x in PublicIds(m) {
      var k :| 0 <= k < 6 && pub[k] == x;
      assert all[k] == x;
    }
    forall x | x in all[6..] ensures x in m && x !in PublicIds(m) {
      var k :| 0 <= k < 5 && all[6..][k] == x;
      assert all[k + 6] == x;
    }
    assert Distinct(pub) by {
      forall i, j | 0 <= i < j < |pub| ensures pub[i] != pub[j] {
        assert pub[i] == all[i] && pub[j] == all[j];
      }
    }
    DistinctCard(pub);
  }

  /** With distinct identifiers the catalog lists exactly the six public
      checks, and the five stage checks are registered but never listed. */
  lemma CatalogVisibility(d: DiagnosticIds, p: BuiltProviders)
    requires Distinct(AllChecks(d))
    ensures BuildCatalog(d, p).Success?
    ensures var m := BuildCatalog(d, p).value;
      && PublicIds(m) == Elements(PublicChecks(d))
      && |PublicIds(m)| == 6
      && forall id :: id in StageChecks(d) ==> id in m && id !in PublicIds(m)
  {
    CatalogEntriesAt(d, p);
    var all := AllChecks(d);
    assert all[..6] == PublicChecks(d) && all[6..] == StageChecks(d);
    PublicOfEleven(BuildCatalog(d, p).value, all);
  }
}
