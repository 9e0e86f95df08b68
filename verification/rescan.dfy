/**
  The periodic rescan (`watchAllFiles`): for every root, once its walk has
  completed, each listed path that is not yet watched and passes the
  extension filter is registered at tier `Normal` with a 2000 ms poller; if
  that root contributed at least one new file, one `update` is broadcast on
  the plain socket.
 */
module Rescan {
  import opened Registry
  import opened Extensions

  /** The registry after registering a listing, and the newly registered paths in listing order. */
  datatype Registration = Registration(watching: Watching, added: seq<string>)

  /** The eligible paths of a listing. */
  ghost function EligibleAmong(files: seq<string>): set<string> {
    set f | f in files && Eligible(f)
  }

  /**
    What registering a listing whose eligible paths are `eligible` promises:
    the registry gains exactly those paths, keeps every existing tier, starts
    every new path at `Normal`, and `added` lists each new path once.
   */
  ghost predicate RegisteredFrom(watching: Watching, r: Registration, eligible: set<string>) {
    && r.watching.Keys == watching.Keys + eligible
    && (forall p | p in watching :: r.watching[p] == watching[p])
    && (forall p | p in r.watching && p !in watching :: r.watching[p] == Normal)
    && (forall p :: p in r.added <==> p in r.watching && p !in watching)
    && |r.added| == |r.watching| - |watching|
  }

  /**
    The `list.forEach` of one root: a path is registered when it is absent
    from the registry and eligible; registered paths keep their tier, new
    ones start `Normal`, and a path listed twice is registered at most once.
   */
  function RegisterFiles(watching: Watching, files: seq<string>): (r: Registration)
    ensures RegisteredFrom(watching, r, EligibleAmong(files))
    decreases |files|
  {
    if |files| == 0 then Registration(watching, [])
    else
      var prior := RegisterFiles(watching, files[..|files| - 1]);
      var f := files[|files| - 1];
      var r := RegisterOne(prior, f, Eligible(f));
      EligibleAmongLast(files);
      RegisterOneStep(watching, prior, EligibleAmong(files[..|files| - 1]), f, Eligible(f));
      r
  }

  /** The loop body for one listed path; `eligible` is the extension filter's verdict on it. */
  function RegisterOne(prior: Registration, f: string, eligible: bool): Registration {
    if f !in prior.watching && eligible then
      Registration(prior.watching[f := Normal], prior.added + [f])
    else
      prior
  }

  lemma RegisterOneStep(watching: Watching, prior: Registration, eligible: set<string>, f: string, ok: bool)
    requires RegisteredFrom(watching, prior, eligible)
    ensures RegisteredFrom(watching, RegisterOne(prior, f, ok), eligible + (if ok then {f} else {}))
  {
    if f !in prior.watching && ok {
      RegisterNewStep(watching, prior, eligible, f);
    } else {
      assert prior.watching.Keys == watching.Keys + (eligible + (if ok then {f} else {}));
    }
  }

  lemma RegisterNewStep(watching: Watching, prior: Registration, eligible: set<string>, f: string)
    requires RegisteredFrom(watching, prior, eligible)
    requires f !in prior.watching
    ensures RegisteredFrom(watching, Registration(prior.watching[f := Normal], prior.added + [f]), eligible + {f})
  {
    RegisterNewKeys(watching, prior, eligible, f);
    RegisterNewAdded(watching, prior, eligible, f);
  }

  lemma RegisterNewKeys(watching: Watching, prior: Registration, eligible: set<string>, f: string)
    requires RegisteredFrom(watching, prior, eligible)
    requires f !in prior.watching
    ensures prior.watching[f := Normal].Keys == watching.Keys + (eligible + {f})
    ensures |prior.watching[f := Normal]| == |prior.watching| + 1
  {
  }

  lemma RegisterNewAdded(watching: Watching, prior: Registration, eligible: set<string>, f: string)
    requires RegisteredFrom(watching, prior, eligible)
    requires f !in prior.watching
    ensures forall p :: p in prior.added + [f] <==> p in prior.watching[f := Normal] && p !in watching
  {
  }

  lemma EligibleAmongLast(files: seq<string>)
    requires |files| > 0
    ensures var f := files[|files| - 1];
            EligibleAmong(files) == EligibleAmong(files[..|files| - 1]) + (if Eligible(f) then {f} else {})
  {
    assert files == files[..|files| - 1] + [files[|files| - 1]];
  }

  /** No path occurs twice. */
  predicate Distinct(paths: seq<string>) {
    forall i, j | 0 <= i < j < |paths| :: paths[i] != paths[j]
  }

  /**
    A path listed several times, in one listing, is registered (and gets a
    poller) only once: the newly registered paths are pairwise distinct.
   */
  lemma {:induction false} RegisteredOnce(watching: Watching, files: seq<string>)
    ensures Distinct(RegisterFiles(watching, files).added)
    decreases |files|
  {
    if |files| > 0 {
      var prior := RegisterFiles(watching, files[..|files| - 1]);
      var f := files[|files| - 1];
      var ok := Eligible(f);
      assert RegisterFiles(watching, files) == RegisterOne(prior, f, ok);
      RegisteredOnce(watching, files[..|files| - 1]);
      RegisterOneOnce(watching, prior, EligibleAmong(files[..|files| - 1]), f, ok);
    }
  }

  lemma RegisterOneOnce(watching: Watching, prior: Registration, eligible: set<string>, f: string, ok: bool)
    requires RegisteredFrom(watching, prior, eligible) && Distinct(prior.added)
    ensures Distinct(RegisterOne(prior, f, ok).added)
  {
    if f !in prior.watching && ok {
      var added := prior.added + [f];
      assert f !in prior.added;
      forall i, j | 0 <= i < j < |added|
        ensures added[i] != added[j]
      {
        assert added[i] == prior.added[i];
      }
    }
  }

  /** One 2000 ms `fs.watchFile` per newly registered path, in order. */
  function WatchEffects(paths: seq<string>): seq<Effect> {
    seq(|paths|, i requires 0 <= i < |paths| => WatchFile(paths[i], PollInterval(Normal)))
  }

  /** Outcome of one root's walk callback: registry, effects, and the logged count. */
  datatype Scan = Scan(watching: Watching, effects: seq<Effect>, count: nat)

  /** The walk callback of `watchAllFiles` for one root. */
  function ScanRoot(watching: Watching, files: seq<string>): (r: Scan)
    ensures r.count == |r.watching| - |watching|
    ensures r.watching.Keys == watching.Keys + EligibleAmong(files)
    ensures forall p | p in watching :: r.watching[p] == watching[p]
    ensures forall p | p in r.watching && p !in watching :: r.watching[p] == Normal
    ensures Emits(r.effects, Plain) == (if r.count > 0 then 1 else 0)
    ensures Emits(r.effects, Ssl) == 0
  {
    var reg := RegisterFiles(watching, files);
    var emit: seq<Effect> := if |reg.added| > 0 then [Emit(Plain, UpdateEvent)] else [];
    NoEmitsInWatches(reg.added, Plain);
    NoEmitsInWatches(reg.added, Ssl);
    EmitsAppend(WatchEffects(reg.added), emit, Plain);
    EmitsAppend(WatchEffects(reg.added), emit, Ssl);
    Scan(reg.watching, WatchEffects(reg.added) + emit, |reg.added|)
  }

  lemma {:induction false} NoEmitsInWatches(paths: seq<string>, ch: Channel)
    ensures Emits(WatchEffects(paths), ch) == 0
    decreases |paths|
  {
    if |paths| > 0 {
      assert WatchEffects(paths)[1..] == WatchEffects(paths[1..]);
      NoEmitsInWatches(paths[1..], ch);
    }
  }

  /**
    Rescanning a listing that has already been scanned registers nothing,
    changes no tier and broadcasts nothing.
   */
  lemma RescanIdempotent(watching: Watching, files: seq<string>)
    ensures var once := ScanRoot(watching, files);
            ScanRoot(once.watching, files) == Scan(once.watching, [], 0)
  {
    var once := ScanRoot(watching, files);
    var twice := RegisterFiles(once.watching, files);
    assert twice.watching == once.watching;
  }

  /**
    Registering a listing starts exactly one `Normal`-interval poller per new
    path, so registry and pollers stay in agreement.
   */
  lemma {:induction false} RegisterKeepsPollersConsistent(watching: Watching, pollers: Pollers, files: seq<string>)
    requires Consistent(watching, pollers)
    ensures var r := RegisterFiles(watching, files);
            Consistent(r.watching, ApplyEffects(pollers, WatchEffects(r.added)))
    decreases |files|
  {
    if |files| > 0 {
      var prior := RegisterFiles(watching, files[..|files| - 1]);
      var f := files[|files| - 1];
      RegisterKeepsPollersConsistent(watching, pollers, files[..|files| - 1]);
      if f !in prior.watching && Eligible(f) {
        var before := ApplyEffects(pollers, WatchEffects(prior.added));
        var w := WatchFile(f, PollInterval(Normal));
        WatchEffectsSnoc(prior.added, f);
        ApplyEffectsAppend(pollers, WatchEffects(prior.added), [w]);
        ApplyEffectsSingle(before, w);
        WatchNewKeepsConsistent(prior.watching, before, f);
      }
    }
  }

  lemma WatchEffectsSnoc(paths: seq<string>, f: string)
    ensures WatchEffects(paths + [f]) == WatchEffects(paths) + [WatchFile(f, PollInterval(Normal))]
  {
  }

  lemma WatchNewKeepsConsistent(watching: Watching, pollers: Pollers, f: string)
    requires Consistent(watching, pollers) && f !in watching
    ensures f !in pollers
    ensures ApplyEffect(pollers, WatchFile(f, PollInterval(Normal))) == pollers[f := PollInterval(Normal)]
    ensures Consistent(watching[f := Normal], pollers[f := PollInterval(Normal)])
  {
  }

  /** A root's scan keeps registry and pollers in agreement. */
  lemma ScanKeepsPollersConsistent(watching: Watching, pollers: Pollers, files: seq<string>)
    requires Consistent(watching, pollers)
    ensures var r := ScanRoot(watching, files);
            Consistent(r.watching, ApplyEffects(pollers, r.effects))
  {
    var reg := RegisterFiles(watching, files);
    RegisterKeepsPollersConsistent(watching, pollers, files);
    var emit: seq<Effect> := if |reg.added| > 0 then [Emit(Plain, UpdateEvent)] else [];
    ApplyEffectsAppend(pollers, WatchEffects(reg.added), emit);
  }

  /** Number of roots whose callback registered at least one file. */
  function RootsWithNewFiles(counts: seq<nat>): nat {
    if |counts| == 0 then 0
    else RootsWithNewFiles(counts[..|counts| - 1]) + (if counts[|counts| - 1] > 0 then 1 else 0)
  }

  function Sum(counts: seq<nat>): nat {
    if |counts| == 0 then 0 else Sum(counts[..|counts| - 1]) + counts[|counts| - 1]
  }

  lemma CountsSnoc(counts: seq<nat>, c: nat)
    ensures Sum(counts + [c]) == Sum(counts) + c
    ensures RootsWithNewFiles(counts + [c]) == RootsWithNewFiles(counts) + (if c > 0 then 1 else 0)
  {
    assert (counts + [c])[..|counts|] == counts;
  }

  /** Eligible paths of all listings. */
  ghost function EligibleAmongAll(listings: seq<seq<string>>): set<string>
    decreases |listings|
  {
    if |listings| == 0 then {}
    else EligibleAmongAll(listings[..|listings| - 1]) + EligibleAmong(listings[|listings| - 1])
  }

  /** Some listing holds `p`. */
  ghost predicate Listed(listings: seq<seq<string>>, p: string) {
    exists i | 0 <= i < |listings| :: p in listings[i]
  }

  /** A path is among the eligible paths of all listings exactly when some listing holds it and it passes the filter. */
  lemma {:induction false} EligibleAmongAllMembers(listings: seq<seq<string>>, p: string)
    ensures p in EligibleAmongAll(listings) <==> Eligible(p) && Listed(listings, p)
    decreases |listings|
  {
    if |listings| > 0 {
      var n := |listings| - 1;
      EligibleAmongAllMembers(listings[..n], p);
      ListedSnoc(listings, p);
    }
  }

  lemma ListedSnoc(listings: seq<seq<string>>, p: string)
    requires |listings| > 0
    ensures var n := |listings| - 1;
            Listed(listings, p) <==> Listed(listings[..n], p) || p in listings[n]
  {
    var n := |listings| - 1;
    if Listed(listings[..n], p) {
      var i :| 0 <= i < n && p in listings[..n][i];
      assert p in listings[i];
    }
    if Listed(listings, p) {
      var i :| 0 <= i < |listings| && p in listings[i];
      if i < n {
        assert p in listings[..n][i];
      }
    }
  }

  lemma EligibleAmongAllStep(listings: seq<seq<string>>, k: nat)
    requires k < |listings|
    ensures EligibleAmongAll(listings[..k + 1]) == EligibleAmongAll(listings[..k]) + EligibleAmong(listings[k])
  {
    assert listings[..k + 1][..k] == listings[..k];
  }

  /** `after` is `watching` plus the paths of `added`, old tiers kept and new paths `Normal`. */
  ghost predicate Extends(watching: Watching, after: Watching, added: set<string>) {
    && after.Keys == watching.Keys + added
    && (forall p | p in watching :: after[p] == watching[p])
    && (forall p | p in after && p !in watching :: after[p] == Normal)
  }

  lemma ExtendsTransitive(a: Watching, b: Watching, c: Watching, ab: set<string>, bc: set<string>)
    requires Extends(a, b, ab) && Extends(b, c, bc)
    ensures Extends(a, c, ab + bc)
  {
  }

  lemma GrowthStep(counts: seq<nat>, count: nat, before: int, middle: int, after: int)
    requires Sum(counts) == middle - before && count == after - middle
    ensures Sum(counts + [count]) == after - before
  {
    CountsSnoc(counts, count);
  }

  lemma BroadcastStep(effects: seq<Effect>, counts: seq<nat>, more: seq<Effect>, count: nat)
    requires Emits(effects, Plain) == RootsWithNewFiles(counts) && Emits(effects, Ssl) == 0
    requires Emits(more, Plain) == (if count > 0 then 1 else 0) && Emits(more, Ssl) == 0
    ensures Emits(effects + more, Plain) == RootsWithNewFiles(counts + [count])
    ensures Emits(effects + more, Ssl) == 0
  {
    CountsSnoc(counts, count);
    EmitsAppend(effects, more, Plain);
    EmitsAppend(effects, more, Ssl);
  }

  /**
    `watchAllFiles` over all roots, given each root's listing in the order the
    walk callbacks complete: each callback runs on the registry the earlier
    ones left behind. The registry gains exactly the eligible paths of all
    listings, keeps every tier, and starts new paths at `Normal`; each root
    logs how many of its eligible paths are new to the rescan so far; the
    counts add up to the registry's growth, which is the number of eligible
    listed paths not watched before, however often a path is listed; and there
    is one plain `update` per root that registered something, none on SSL.
   */
  method WatchAllFiles(watching: Watching, listings: seq<seq<string>>)
    returns (after: Watching, effects: seq<Effect>, counts: seq<nat>)
    ensures |counts| == |listings|
    ensures forall p :: p in after <==> p in watching || p in EligibleAmongAll(listings)
    ensures forall p | p in watching :: after[p] == watching[p]
    ensures forall p | p in after && p !in watching :: after[p] == Normal
    ensures Sum(counts) == |after| - |watching|
    ensures Sum(counts) == |EligibleAmongAll(listings) - watching.Keys|
    ensures Emits(effects, Plain) == RootsWithNewFiles(counts)
    ensures Emits(effects, Ssl) == 0
    ensures forall i | 0 <= i < |listings| :: counts[i] == NewPaths(watching, listings, i)
  {
    after, effects, counts := watching, [], [];
    var k := 0;
    assert EligibleAmongAll(listings[..0]) == {};
    while k < |listings|
      invariant 0 <= k <= |listings| && |counts| == k
      invariant RescannedSoFar(watching, after, effects, counts, EligibleAmongAll(listings[..k]))
      invariant forall i | 0 <= i < k :: counts[i] == NewPaths(watching, listings, i)
    {
      EligibleAmongAllStep(listings, k);
      ghost var before := counts;
      after, effects, counts := ScanNext(watching, after, effects, counts, EligibleAmongAll(listings[..k]), listings[k]);
      NewPathsStep(watching, listings, before, k, counts);
      k := k + 1;
    }
    assert listings[..k] == listings;
  }

  /**
    The count root `i` logs in a full rescan: its eligible paths that were
    neither watched before the rescan nor registered by an earlier root.
   */
  ghost function NewPaths(watching: Watching, listings: seq<seq<string>>, i: nat): nat
    requires i < |listings|
  {
    |EligibleAmong(listings[i]) - (watching.Keys + EligibleAmongAll(listings[..i]))|
  }

  /** Root `k`'s count extends the per-root counts of the roots before it. */
  lemma NewPathsStep(watching: Watching, listings: seq<seq<string>>, counts: seq<nat>, k: nat, counts': seq<nat>)
    requires k < |listings| && |counts| == k
    requires forall i | 0 <= i < k :: counts[i] == NewPaths(watching, listings, i)
    requires counts' == counts + [|EligibleAmong(listings[k]) - (watching.Keys + EligibleAmongAll(listings[..k]))|]
    ensures forall i | 0 <= i < k + 1 :: counts'[i] == NewPaths(watching, listings, i)
  {
    forall i | 0 <= i < k + 1
      ensures counts'[i] == NewPaths(watching, listings, i)
    {
      if i < k {
        assert counts'[i] == counts[i];
      }
    }
  }

  /**
    What holds after the callbacks of some roots have run: the registry has
    gained the paths of `eligible`, the counts add up to its growth, and there
    was one plain `update` per root with new files.
   */
  ghost predicate RescannedSoFar(watching: Watching, after: Watching, effects: seq<Effect>, counts: seq<nat>, eligible: set<string>) {
    && Extends(watching, after, eligible)
    && Sum(counts) == |after| - |watching|
    && Emits(effects, Plain) == RootsWithNewFiles(counts)
    && Emits(effects, Ssl) == 0
  }

  lemma UnionGrowth(before: set<string>, added: set<string>)
    ensures |before + added| == |before| + |added - before|
  {
    assert before + added == before + (added - before);
    assert before * (added - before) == {};
  }

  /** The loop body: one more root's callback, appended to what the earlier ones did. */
  method ScanNext(watching: Watching, after: Watching, effects: seq<Effect>, counts: seq<nat>, ghost eligible: set<string>, files: seq<string>)
    returns (after': Watching, effects': seq<Effect>, counts': seq<nat>)
    requires RescannedSoFar(watching, after, effects, counts, eligible)
    ensures RescannedSoFar(watching, after', effects', counts', eligible + EligibleAmong(files))
    ensures counts' == counts + [|EligibleAmong(files) - (watching.Keys + eligible)|]
  {
    var scan := ScanRoot(after, files);
    RescannedStep(watching, after, effects, counts, eligible, scan, EligibleAmong(files));
    after', effects', counts' := scan.watching, effects + scan.effects, counts + [scan.count];
  }

  /** One more root's callback keeps `RescannedSoFar`. */
  lemma RescannedStep(watching: Watching, after: Watching, effects: seq<Effect>, counts: seq<nat>, eligible: set<string>, scan: Scan, more: set<string>)
    requires RescannedSoFar(watching, after, effects, counts, eligible)
    requires Extends(after, scan.watching, more) && scan.count == |scan.watching| - |after|
    requires Emits(scan.effects, Plain) == (if scan.count > 0 then 1 else 0) && Emits(scan.effects, Ssl) == 0
    ensures RescannedSoFar(watching, scan.watching, effects + scan.effects, counts + [scan.count], eligible + more)
    ensures scan.count == |more - (watching.Keys + eligible)|
  {
    UnionGrowth(after.Keys, more);
    ExtendsTransitive(watching, after, scan.watching, eligible, more);
    GrowthStep(counts, scan.count, |watching|, |after|, |scan.watching|);
    BroadcastStep(effects, counts, scan.effects, scan.count);
  }
}
