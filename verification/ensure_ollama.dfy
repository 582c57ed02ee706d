/**
 * The desktop shell's `ensure_ollama` command: probe the local model server
 * once, and if it is not answering, start `ollama serve` and poll it a bounded
 * number of times at a fixed interval.
 *
 * The HTTP probe and the process spawn are oracles: the caller supplies the
 * outcome each successive probe would have, and whether the spawn succeeded.
 * The command's observable behaviour is the returned flag plus the ordered
 * trace of probes, spawns and sleeps it performs.
 */
module OllamaSupervisor {

  /** Retry probes after the spawn, and the pause after each failed one. */
  const Retries: nat := 10
  const RetryDelayMs: nat := 400

  /** What one `GET /api/tags` produced: a response with some status, or a transport error. */
  datatype ProbeResult = Completed(status: nat) | TransportError

  /** A probe succeeds whenever the request completes (`is_ok`), whatever the status. */
  predicate ProbeOk(p: ProbeResult) {
    p.Completed?
  }

  datatype Event = Probe(ok: bool) | Spawn(started: bool) | Sleep(ms: nat)

  function ProbeCount(t: seq<Event>): nat {
    if |t| == 0 then 0 else ProbeCount(t[..|t| - 1]) + (if t[|t| - 1].Probe? then 1 else 0)
  }

  function SpawnCount(t: seq<Event>): nat {
    if |t| == 0 then 0 else SpawnCount(t[..|t| - 1]) + (if t[|t| - 1].Spawn? then 1 else 0)
  }

  /** Total time spent sleeping along a trace. */
  function SleepTotal(t: seq<Event>): nat {
    if |t| == 0 then 0 else SleepTotal(t[..|t| - 1]) + (if t[|t| - 1].Sleep? then t[|t| - 1].ms else 0)
  }

  /** Extending a trace by one event adds that event's contribution to each tally. */
  lemma Tally(t: seq<Event>, e: Event)
    ensures ProbeCount(t + [e]) == ProbeCount(t) + (if e.Probe? then 1 else 0)
    ensures SpawnCount(t + [e]) == SpawnCount(t) + (if e.Spawn? then 1 else 0)
    ensures SleepTotal(t + [e]) == SleepTotal(t) + (if e.Sleep? then e.ms else 0)
  {
    assert (t + [e])[..|t|] == t;
  }

  /**
   * `ensure_ollama`. `probes[k]` is what the k-th probe would see (index 0 is
   * the initial probe, 1..10 the retries); `spawnStarted` is whether
   * `Command::spawn` succeeded, which the command ignores.
   */
  method EnsureOllama(probes: seq<ProbeResult>, spawnStarted: bool) returns (ready: bool, trace: seq<Event>)
    requires |probes| >= 1 + Retries
    ensures ready <==> exists k :: 0 <= k <= Retries && ProbeOk(probes[k])
    ensures ProbeOk(probes[0]) ==> ready && trace == [Probe(true)]
    ensures !ProbeOk(probes[0]) ==> |trace| >= 2 && trace[1] == Spawn(spawnStarted) && SpawnCount(trace) == 1
    ensures 1 <= ProbeCount(trace) <= 1 + Retries
    ensures forall k :: 0 <= k < ProbeCount(trace) - 1 ==> !ProbeOk(probes[k])
    ensures ready ==> ProbeOk(probes[ProbeCount(trace) - 1]) && trace[|trace| - 1] == Probe(true)
    ensures ready && !ProbeOk(probes[0]) ==> SleepTotal(trace) == (ProbeCount(trace) - 2) * RetryDelayMs
    ensures !ready ==> ProbeCount(trace) == 1 + Retries && SleepTotal(trace) == Retries * RetryDelayMs
    ensures SleepTotal(trace) <= Retries * RetryDelayMs
  {
    trace := [Probe(ProbeOk(probes[0]))];
    assert ProbeCount(trace) == 1 by { Tally([], Probe(ProbeOk(probes[0]))); }
    if ProbeOk(probes[0]) {
      return true, trace;
    }
    Tally(trace, Spawn(spawnStarted));
    trace := trace + [Spawn(spawnStarted)];
    var i := 0;
    while i < Retries
      invariant 0 <= i <= Retries
      invariant |trace| >= 2 && trace[1] == Spawn(spawnStarted) && SpawnCount(trace) == 1
      invariant ProbeCount(trace) == 1 + i
      invariant SleepTotal(trace) == i * RetryDelayMs
      invariant forall k :: 0 <= k <= i ==> !ProbeOk(probes[k])
    {
      var ok := ProbeOk(probes[1 + i]);
      Tally(trace, Probe(ok));
      trace := trace + [Probe(ok)];
      if ok {
        return true, trace;
      }
      Tally(trace, Sleep(RetryDelayMs));
      trace := trace + [Sleep(RetryDelayMs)];
      i := i + 1;
    }
    return false, trace;
  }
}
