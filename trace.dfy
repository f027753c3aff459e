/**
 * Observable behaviour of the scraping script, recorded as a trace.
 *
 * The external scraping engine is replaced by one `Outcome` per attempt, and
 * every side effect the core performs (invoking the engine, sleeping, saving
 * an artifact) is recorded as an `Event` appended to a trace, so that attempts,
 * waits and artifacts can be counted and compared.
 */
module Trace {

  /** What one attempt of the engine call produced: a payload or an exception. */
  datatype Outcome<+V, +E> = Success(value: V) | Failure(error: E)

  /** One observable step of the script. */
  datatype Event<+V> =
    | Call(url: string, attempt: nat)         // attempt number `attempt` (1-based) on `url`
    | Sleep(seconds: nat)                     // time.sleep(seconds)
    | Saved(filename: string, content: V)     // an artifact written to `filename`

  /** The concatenation of `pick(e)` over the events `e` of `t`, in order. */
  function Collect<V, T>(t: seq<Event<V>>, pick: Event<V> -> seq<T>): seq<T>
  {
    if t == [] then [] else Collect(t[..|t| - 1], pick) + pick(t[|t| - 1])
  }

  /** Collecting over a concatenation concatenates what is collected. */
  lemma {:induction false} CollectAppend<V, T>(a: seq<Event<V>>, b: seq<Event<V>>, pick: Event<V> -> seq<T>)
    ensures Collect(a + b, pick) == Collect(a, pick) + Collect(b, pick)
    decreases |b|
  {
    if b == [] {
      assert a + b == a;
    } else {
      var b' := b[..|b| - 1];
      assert (a + b)[..|a + b| - 1] == a + b';
      assert (a + b)[|a + b| - 1] == b[|b| - 1];
      CollectAppend(a, b', pick);
    }
  }

  function SleepOf<V>(e: Event<V>): seq<nat> { if e.Sleep? then [e.seconds] else [] }
  function AttemptOf<V>(e: Event<V>): seq<nat> { if e.Call? then [e.attempt] else [] }
  function StartOf<V>(e: Event<V>): seq<string> { if e.Call? && e.attempt == 1 then [e.url] else [] }
  function SavedOf<V>(e: Event<V>): seq<string> { if e.Saved? then [e.filename] else [] }

  /** The durations of all sleeps in the trace, in order. */
  function Sleeps<V>(t: seq<Event<V>>): seq<nat> { Collect(t, SleepOf) }

  /** The attempt numbers of all engine calls in the trace, in order. */
  function Attempts<V>(t: seq<Event<V>>): seq<nat> { Collect(t, AttemptOf) }

  /** The work items whose first attempt appears in the trace, in order. */
  function Started<V>(t: seq<Event<V>>): seq<string> { Collect(t, StartOf) }

  /** The names of all artifacts written in the trace, in order. */
  function SavedNames<V>(t: seq<Event<V>>): seq<string> { Collect(t, SavedOf) }

  /** Every projection of a trace is a homomorphism: the projection of a
      concatenation is the concatenation of the projections. */
  lemma ProjectionsAppend<V>(a: seq<Event<V>>, b: seq<Event<V>>)
    ensures Sleeps(a + b) == Sleeps(a) + Sleeps(b)
    ensures Attempts(a + b) == Attempts(a) + Attempts(b)
    ensures Started(a + b) == Started(a) + Started(b)
    ensures SavedNames(a + b) == SavedNames(a) + SavedNames(b)
  {
    CollectAppend(a, b, SleepOf);
    CollectAppend(a, b, AttemptOf);
    CollectAppend(a, b, StartOf);
    CollectAppend(a, b, SavedOf);
  }

  /** The projections of a one-event trace. */
  lemma ProjectionsOne<V>(e: Event<V>)
    ensures Sleeps([e]) == SleepOf(e) && Attempts([e]) == AttemptOf(e)
    ensures Started([e]) == StartOf(e) && SavedNames([e]) == SavedOf(e)
  {
    var none: seq<Event<V>> := [];
    assert [e][..0] == none;
    assert Collect([e], SleepOf) == Collect(none, SleepOf) + SleepOf(e);
    assert Collect([e], AttemptOf) == Collect(none, AttemptOf) + AttemptOf(e);
    assert Collect([e], StartOf) == Collect(none, StartOf) + StartOf(e);
    assert Collect([e], SavedOf) == Collect(none, SavedOf) + SavedOf(e);
  }

  /** The traces `xs` run one after the other. */
  function Flatten<V>(xs: seq<seq<Event<V>>>): seq<Event<V>>
  {
    if xs == [] then [] else Flatten(xs[..|xs| - 1]) + xs[|xs| - 1]
  }

  /** Flattening distributes over concatenation. */
  lemma {:induction false} FlattenAppend<V>(xs: seq<seq<Event<V>>>, ys: seq<seq<Event<V>>>)
    ensures Flatten(xs + ys) == Flatten(xs) + Flatten(ys)
    decreases |ys|
  {
    if ys == [] {
      assert xs + ys == xs;
    } else {
      var ys', y := ys[..|ys| - 1], ys[|ys| - 1];
      assert ys == ys' + [y];
      assert xs + ys == (xs + ys') + [y];
      assert (xs + ys)[..|xs + ys| - 1] == xs + ys';
      FlattenAppend(xs, ys');
    }
  }

  /** The file system as far as the script touches it: artifact names mapped
      to their contents after replaying the writes of a trace on `fs`. A write
      opens the file for writing, so a later write to the same name replaces
      the earlier one. */
  function ApplyWrites<V>(fs: map<string, V>, t: seq<Event<V>>): map<string, V>
  {
    if t == [] then fs
    else
      var before := ApplyWrites(fs, t[..|t| - 1]);
      match t[|t| - 1]
      case Saved(name, content) => before[name := content]
      case _ => before
  }

  /** Replaying a trace overrides the initial files with the trace's own writes. */
  lemma {:induction false} ApplyWritesOverrides<V>(fs: map<string, V>, t: seq<Event<V>>)
    ensures ApplyWrites(fs, t) == fs + ApplyWrites(map[], t)
  {
    if t != [] {
      ApplyWritesOverrides(fs, t[..|t| - 1]);
    }
  }

  /** Replaying two traces one after the other is replaying the second on the
      files the first leaves behind. */
  lemma {:induction false} ApplyWritesAppend<V>(fs: map<string, V>, a: seq<Event<V>>, b: seq<Event<V>>)
    ensures ApplyWrites(fs, a + b) == ApplyWrites(ApplyWrites(fs, a), b)
    decreases |b|
  {
    if b == [] {
      assert a + b == a;
    } else {
      var front, e := b[..|b| - 1], b[|b| - 1];
      assert b == front + [e];
      assert a + b == (a + front) + [e];
      ApplyWritesAppend(fs, a, front);
    }
  }

  /** A trace that saves nothing leaves the files as they were. */
  lemma {:induction false} ApplyWritesNoSaves<V>(fs: map<string, V>, t: seq<Event<V>>)
    requires SavedNames(t) == []
    ensures ApplyWrites(fs, t) == fs
  {
    if t != [] {
      var front, e := t[..|t| - 1], t[|t| - 1];
      assert t == front + [e];
      ProjectionsAppend(front, [e]);
      ProjectionsOne(e);
      ApplyWritesNoSaves(fs, front);
    }
  }

  /** The files present afterwards are the initial ones plus every saved name. */
  lemma {:induction false} ApplyWritesKeys<V>(fs: map<string, V>, t: seq<Event<V>>)
    ensures ApplyWrites(fs, t).Keys == fs.Keys + set n | n in SavedNames(t)
  {
    if t != [] {
      ApplyWritesKeys(fs, t[..|t| - 1]);
    }
  }

  /** Replaying the same writes twice leaves the files as replaying them once:
      artifacts are overwritten, never accumulated. */
  lemma ApplyWritesIdempotent<V>(fs: map<string, V>, t: seq<Event<V>>)
    ensures ApplyWrites(ApplyWrites(fs, t), t) == ApplyWrites(fs, t)
  {
    ApplyWritesOverrides(fs, t);
    ApplyWritesOverrides(ApplyWrites(fs, t), t);
  }
}
