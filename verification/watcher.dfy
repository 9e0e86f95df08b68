/**
  The watcher as a sequential state machine. Every callback the process
  receives runs to completion before the next one, so a run is a sequence of
  events: a root's walk completing (the body of `watchAllFiles` for that root)
  or a file's poller firing (`onFileChange`).
 */
module Watcher {
  import opened Registry
  import opened Extensions
  import opened Rescan
  import opened FileChange

  datatype Event =
    | RootWalked(files: seq<string>)                 // walk callback of one root
    | Polled(file: string, cur: Stat, prev: Stat)    // poller callback of one file

  function Step(watching: Watching, ev: Event, sslConfigured: bool): Transition {
    match ev
    case RootWalked(files) =>
      var scan := ScanRoot(watching, files);
      Transition(scan.watching, scan.effects)
    case Polled(file, cur, prev) => OnFileChange(watching, file, cur, prev, sslConfigured)
  }

  /** The registry after a run of events, and every effect in the order it happened. */
  function Run(watching: Watching, events: seq<Event>, sslConfigured: bool): Transition
    decreases |events|
  {
    if |events| == 0 then Transition(watching, [])
    else
      var first := Step(watching, events[0], sslConfigured);
      var rest := Run(first.watching, events[1..], sslConfigured);
      Transition(rest.watching, first.effects + rest.effects)
  }

  /**
    What holds between callbacks: only eligible paths are watched, and the
    running pollers are exactly those of the watched paths at their tier's
    interval.
   */
  ghost predicate Invariant(watching: Watching, pollers: Pollers) {
    && Consistent(watching, pollers)
    && forall p | p in watching :: Eligible(p)
  }

  lemma StepPreservesInvariant(watching: Watching, pollers: Pollers, ev: Event, sslConfigured: bool)
    requires Invariant(watching, pollers)
    ensures var t := Step(watching, ev, sslConfigured);
            Invariant(t.watching, ApplyEffects(pollers, t.effects))
  {
    match ev
    case RootWalked(files) =>
      ScanKeepsPollersConsistent(watching, pollers, files);
    case Polled(file, cur, prev) =>
      FileChangeKeepsPollersConsistent(watching, pollers, file, cur, prev, sslConfigured);
  }

  /** Every run from a state satisfying the invariant ends in one satisfying it. */
  lemma {:induction false} RunPreservesInvariant(watching: Watching, pollers: Pollers, events: seq<Event>, sslConfigured: bool)
    requires Invariant(watching, pollers)
    ensures var t := Run(watching, events, sslConfigured);
            Invariant(t.watching, ApplyEffects(pollers, t.effects))
    decreases |events|
  {
    if |events| > 0 {
      var first := Step(watching, events[0], sslConfigured);
      StepPreservesInvariant(watching, pollers, events[0], sslConfigured);
      RunPreservesInvariant(first.watching, ApplyEffects(pollers, first.effects), events[1..], sslConfigured);
      var rest := Run(first.watching, events[1..], sslConfigured);
      ApplyEffectsAppend(pollers, first.effects, rest.effects);
    }
  }

  /**
    A path that fails the extension filter never enters the registry, however
    many rescans and poll callbacks run.
   */
  lemma {:induction false} IneligibleNeverWatched(watching: Watching, events: seq<Event>, sslConfigured: bool, p: string)
    requires p !in watching && !Eligible(p)
    ensures p !in Run(watching, events, sslConfigured).watching
    decreases |events|
  {
    if |events| > 0 {
      var first := Step(watching, events[0], sslConfigured);
      IneligibleNeverWatched(first.watching, events[1..], sslConfigured, p);
    }
  }

  /**
    A deleted file that reappears in a later listing is registered afresh at
    `Normal`, whatever its tier was before the deletion, and that root's
    rescan broadcasts once.
   */
  lemma DeletedThenRelisted(watching: Watching, file: string, cur: Stat, prev: Stat, sslConfigured: bool, files: seq<string>)
    requires MtimeChanged(cur, prev) && cur.nlink == 0
    requires file in files && Eligible(file)
    ensures var gone := OnFileChange(watching, file, cur, prev, sslConfigured);
            var back := ScanRoot(gone.watching, files);
            && file !in gone.watching
            && file in back.watching && back.watching[file] == Normal
            && Emits(back.effects, Plain) == 1
  {
  }
}
