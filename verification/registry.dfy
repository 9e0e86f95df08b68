/**
  The watch registry (`watching`: path -> tier) and the observable effects the
  watcher produces: socket broadcasts and the starting/stopping of per-file
  stat pollers (`fs.watchFile` / `fs.unwatchFile`).
 */
module Registry {

  /** The two polling tiers, `'normal'` and `'hyperspeed'`. */
  datatype Tier = Normal | Hyperspeed

  /** Poll interval, in milliseconds, of a poller started for a file of that tier. */
  function PollInterval(t: Tier): nat {
    match t
    case Normal => 2000
    case Hyperspeed => 100
  }

  /** The registry: each watched path with its tier; absent paths are unwatched. */
  type Watching = map<string, Tier>

  /** The name of the only event ever broadcast. */
  const UpdateEvent: string := "update"

  /** The plain socket server, and the SSL one when a key was configured. */
  datatype Channel = Plain | Ssl

  datatype Effect =
    | Emit(channel: Channel, event: string)      // `<socket>.sockets.emit(event)`
    | WatchFile(path: string, interval: nat)    // `fs.watchFile(path, {interval}, ...)`
    | UnwatchFile(path: string)                 // `fs.unwatchFile(path)`

  /** Number of broadcasts on `ch` among `effects`. */
  function Emits(effects: seq<Effect>, ch: Channel): nat {
    if |effects| == 0 then 0
    else (if effects[0].Emit? && effects[0].channel == ch then 1 else 0) + Emits(effects[1..], ch)
  }

  lemma {:induction false} EmitsAppend(a: seq<Effect>, b: seq<Effect>, ch: Channel)
    ensures Emits(a + b, ch) == Emits(a, ch) + Emits(b, ch)
    decreases |a|
  {
    if |a| > 0 {
      assert (a + b)[0] == a[0];
      assert (a + b)[1..] == a[1..] + b;
      EmitsAppend(a[1..], b, ch);
    } else {
      assert a + b == b;
    }
  }

  lemma EmitsSingle(e: Effect, ch: Channel)
    ensures Emits([e], ch) == if e.Emit? && e.channel == ch then 1 else 0
  {
    assert [e][1..] == [];
  }

  /** The running stat pollers: path -> poll interval. */
  type Pollers = map<string, nat>

  /**
    Effect of one call on the running pollers. A `watchFile` on a path that
    already has a poller adds a listener to it and keeps its interval; an
    `unwatchFile` stops the path's poller.
   */
  function ApplyEffect(pollers: Pollers, e: Effect): Pollers {
    match e
    case Emit(_, _) => pollers
    case WatchFile(p, i) => if p in pollers then pollers else pollers[p := i]
    case UnwatchFile(p) => pollers - {p}
  }

  function ApplyEffects(pollers: Pollers, effects: seq<Effect>): Pollers
    decreases |effects|
  {
    if |effects| == 0 then pollers else ApplyEffects(ApplyEffect(pollers, effects[0]), effects[1..])
  }

  lemma {:induction false} ApplyEffectsAppend(pollers: Pollers, a: seq<Effect>, b: seq<Effect>)
    ensures ApplyEffects(pollers, a + b) == ApplyEffects(ApplyEffects(pollers, a), b)
    decreases |a|
  {
    if |a| > 0 {
      assert (a + b)[0] == a[0];
      assert (a + b)[1..] == a[1..] + b;
      ApplyEffectsAppend(ApplyEffect(pollers, a[0]), a[1..], b);
    } else {
      assert a + b == b;
    }
  }

  lemma ApplyEffectsSingle(pollers: Pollers, e: Effect)
    ensures ApplyEffects(pollers, [e]) == ApplyEffect(pollers, e)
  {
    assert [e][1..] == [];
  }

  /**
    Registry and pollers agree: exactly the watched paths are polled, each at
    the interval of its tier (no stale poller survives an unregistration).
   */
  ghost predicate Consistent(watching: Watching, pollers: Pollers) {
    && pollers.Keys == watching.Keys
    && forall p | p in watching :: pollers[p] == PollInterval(watching[p])
  }
}
