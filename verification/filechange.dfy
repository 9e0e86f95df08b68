/**
  The per-file poll callback (`onFileChange`): given the poller's current and
  previous stat snapshots of one watched file it decides whether anything
  changed, broadcasts, forgets deleted files and escalates a changed file from
  the `Normal` to the `Hyperspeed` polling tier.
 */
module FileChange {
  import opened Registry

  /** The two fields of an `fs.Stats` snapshot the callback reads. */
  datatype Stat = Stat(mtimeMs: int, nlink: nat)

  /**
    The modification time as the callback compares it: `Date.toString()`
    shows whole seconds (with the time-zone offset), so two snapshots compare
    equal exactly when their mtimes fall in the same second.
   */
  function MtimeSecond(mtimeMs: int): int {
    mtimeMs / 1000
  }

  /** `cur.mtime.toString() !== prev.mtime.toString()` */
  predicate MtimeChanged(cur: Stat, prev: Stat) {
    MtimeSecond(cur.mtimeMs) != MtimeSecond(prev.mtimeMs)
  }

  datatype Transition = Transition(watching: Watching, effects: seq<Effect>)

  /**
    `onFileChange` bound to `file`, with `sslConfigured` telling whether the
    SSL socket exists. Deletion is only noticed when the mtime also changed,
    and the plain-socket `update` goes out before the deletion check, so a
    deletion is announced on the plain socket but not on the SSL one.
   */
  function OnFileChange(watching: Watching, file: string, cur: Stat, prev: Stat, sslConfigured: bool): (r: Transition)
    ensures !MtimeChanged(cur, prev) ==> r.watching == watching && r.effects == []
    ensures MtimeChanged(cur, prev) ==> |r.effects| > 0 && r.effects[0] == Emit(Plain, UpdateEvent)
    ensures MtimeChanged(cur, prev) && cur.nlink == 0 ==>
              && r.watching.Keys == watching.Keys - {file}
              && (forall p | p in r.watching :: r.watching[p] == watching[p])
              && Emits(r.effects, Plain) == 1
              && Emits(r.effects, Ssl) == 0
    ensures MtimeChanged(cur, prev) && cur.nlink > 0 ==>
              && r.watching.Keys == watching.Keys
              && (file in watching ==> r.watching[file] == Hyperspeed)
              && (forall p | p in watching && p != file :: r.watching[p] == watching[p])
              && Emits(r.effects, Plain) == 1
              && Emits(r.effects, Ssl) == (if sslConfigured then 1 else 0)
  {
    var plain := Emit(Plain, UpdateEvent);
    EmitsSingle(plain, Plain);
    EmitsSingle(plain, Ssl);
    if !MtimeChanged(cur, prev) then
      Transition(watching, [])
    else if cur.nlink == 0 then
      EmitsSingle(UnwatchFile(file), Plain);
      EmitsSingle(UnwatchFile(file), Ssl);
      EmitsAppend([plain], [UnwatchFile(file)], Plain);
      EmitsAppend([plain], [UnwatchFile(file)], Ssl);
      Transition(watching - {file}, [plain] + [UnwatchFile(file)])
    else
      var ssl: seq<Effect> := if sslConfigured then [Emit(Ssl, UpdateEvent)] else [];
      EmitsSingle(Emit(Ssl, UpdateEvent), Plain);
      EmitsSingle(Emit(Ssl, UpdateEvent), Ssl);
      EmitsAppend([plain], ssl, Plain);
      EmitsAppend([plain], ssl, Ssl);
      var broadcasts := [plain] + ssl;
      if file in watching && watching[file] == Normal then
        var repoll := [UnwatchFile(file)] + [WatchFile(file, PollInterval(Hyperspeed))];
        NoEmitsInRepoll(file, Plain);
        NoEmitsInRepoll(file, Ssl);
        EmitsAppend(broadcasts, repoll, Plain);
        EmitsAppend(broadcasts, repoll, Ssl);
        Transition(watching[file := Hyperspeed], broadcasts + repoll)
      else
        assert file in watching ==> watching[file] == Hyperspeed;
        Transition(watching, broadcasts)
  }

  /** Restarting a poller broadcasts nothing. */
  lemma NoEmitsInRepoll(file: string, ch: Channel)
    ensures Emits([UnwatchFile(file)] + [WatchFile(file, PollInterval(Hyperspeed))], ch) == 0
  {
    EmitsSingle(UnwatchFile(file), ch);
    EmitsSingle(WatchFile(file, PollInterval(Hyperspeed)), ch);
    EmitsAppend([UnwatchFile(file)], [WatchFile(file, PollInterval(Hyperspeed))], ch);
  }

  /**
    The poll callback keeps registry and pollers in agreement: a deleted file
    loses its poller, an escalated one is re-polled every 100 ms.
   */
  lemma FileChangeKeepsPollersConsistent(watching: Watching, pollers: Pollers, file: string,
                                         cur: Stat, prev: Stat, sslConfigured: bool)
    requires Consistent(watching, pollers)
    ensures var r := OnFileChange(watching, file, cur, prev, sslConfigured);
            Consistent(r.watching, ApplyEffects(pollers, r.effects))
  {
    var plain := Emit(Plain, UpdateEvent);
    if MtimeChanged(cur, prev) && cur.nlink > 0 {
      var ssl: seq<Effect> := if sslConfigured then [Emit(Ssl, UpdateEvent)] else [];
      var broadcasts := [plain] + ssl;
      ApplyEffectsAppend(pollers, [plain], ssl);
      ApplyEffectsSingle(pollers, plain);
      ApplyEffectsSingle(pollers, Emit(Ssl, UpdateEvent));
      assert ApplyEffects(pollers, broadcasts) == pollers;
      if file in watching && watching[file] == Normal {
        var unwatch := UnwatchFile(file);
        var rewatch := WatchFile(file, PollInterval(Hyperspeed));
        ApplyEffectsAppend(pollers, broadcasts, [unwatch] + [rewatch]);
        ApplyEffectsAppend(pollers, [unwatch], [rewatch]);
        ApplyEffectsSingle(pollers, unwatch);
        ApplyEffectsSingle(pollers - {file}, rewatch);
        assert ApplyEffects(pollers, [unwatch] + [rewatch]) == pollers[file := PollInterval(Hyperspeed)];
      }
    } else if MtimeChanged(cur, prev) {
      ApplyEffectsAppend(pollers, [plain], [UnwatchFile(file)]);
      ApplyEffectsSingle(pollers, plain);
      ApplyEffectsSingle(pollers, UnwatchFile(file));
    }
  }

  /**
    The tier transition is one-way: no file still watched after a poll
    callback has gone from `Hyperspeed` back to `Normal`.
   */
  lemma TierNeverDrops(watching: Watching, file: string, cur: Stat, prev: Stat, sslConfigured: bool)
    ensures var r := OnFileChange(watching, file, cur, prev, sslConfigured);
            forall p | p in watching && p in r.watching && watching[p] == Hyperspeed :: r.watching[p] == Hyperspeed
  {
  }

  /**
    Escalation happens once: a further change of a `Hyperspeed` file only
    broadcasts; registry and pollers are left as they are.
   */
  lemma EscalationIdempotent(watching: Watching, file: string, cur: Stat, prev: Stat, sslConfigured: bool)
    requires file in watching && watching[file] == Hyperspeed
    requires cur.nlink > 0
    ensures var r := OnFileChange(watching, file, cur, prev, sslConfigured);
            && r.watching == watching
            && forall i | 0 <= i < |r.effects| :: r.effects[i].Emit?
  {
  }
}
