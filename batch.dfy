/**
 * The batch loop at the bottom of the script: every category, in list order,
 * goes through the retry runner with its default policy; a success is saved
 * under the derived filename and followed by a 5-second throttle; any
 * exception, from the runner or from the write, is caught at the item
 * boundary and the loop moves on to the next category.
 */
module Batch {
  import opened Trace
  import opened Retry
  import opened Naming

  /** The categories the script walks, in order. */
  const Categories: seq<string> := ["Cell Phones", "Tablets", "Computers"]

  /** `scrape_with_retry`'s default arguments, which the loop relies on. */
  const MaxRetries: nat := 3
  const InitialDelay: nat := 5

  /** The pause after each saved artifact. */
  const ThrottleSeconds: nat := 5

  /** What the outside world does for one category: the engine's outcome for
      each attempt, whether writing the artifact succeeds, and the date stamp
      the clock gives when this iteration builds its filename. */
  datatype ItemEnv<+V, +E> = ItemEnv(engine: seq<Outcome<V, E>>, writeOk: bool, date: string)

  /** One environment per category, each of them ready. */
  predicate Covers<V, E>(categories: seq<string>, envs: seq<ItemEnv<V, E>>)
  {
    |envs| == |categories| && forall i :: 0 <= i < |envs| ==> Ready(envs[i])
  }

  /** The engine has an outcome for every attempt the default policy may make. */
  predicate Ready<V, E>(env: ItemEnv<V, E>)
  {
    MaxRetries <= |env.engine|
  }

  /** A category yields an artifact: some attempt within the budget succeeds
      and the write succeeds. */
  predicate Succeeds<V, E>(env: ItemEnv<V, E>)
    requires Ready(env)
  {
    FirstSuccess(env.engine, MaxRetries) < MaxRetries && env.writeOk
  }

  /** The events of one iteration of the batch loop. */
  function ItemTrace<V, E>(category: string, env: ItemEnv<V, E>): seq<Event<V>>
    requires Ready(env)
  {
    var run := RetryRun(category, env.engine, MaxRetries, InitialDelay);
    match run.0
    case Returned(v) =>
      if env.writeOk then run.1 + [Saved(Filename(category, env.date), v), Sleep(ThrottleSeconds)]
      else run.1
    case Raised(_) => run.1
    case ReturnedNone => assert false; run.1
  }

  /** The events of each iteration of the batch loop, in list order. */
  function ItemTraces<V, E>(categories: seq<string>, envs: seq<ItemEnv<V, E>>)
    : (r: seq<seq<Event<V>>>)
    requires Covers(categories, envs)
    ensures |r| == |categories|
  {
    seq(|categories|, i requires 0 <= i < |categories| => ItemTrace(categories[i], envs[i]))
  }

  /** The events of the whole batch: the iterations' events, one after the other. */
  function BatchTrace<V, E>(categories: seq<string>, envs: seq<ItemEnv<V, E>>): seq<Event<V>>
    requires Covers(categories, envs)
  {
    Flatten(ItemTraces(categories, envs))
  }

  /** The filenames of the categories that succeed, in list order. */
  function SucceededNames<V, E>(categories: seq<string>, envs: seq<ItemEnv<V, E>>): seq<string>
    requires Covers(categories, envs)
    decreases |categories|
  {
    if categories == [] then []
    else
      var n := |categories| - 1;
      SucceededNames(categories[..n], envs[..n])
        + (if Succeeds(envs[n]) then [Filename(categories[n], envs[n].date)] else [])
  }

  /** How many attempts the runner makes for a category under the default
      policy: up to and including the first success, or all of them. */
  function AttemptsMade<V, E>(env: ItemEnv<V, E>): (n: nat)
    requires Ready(env)
    ensures 1 <= n <= MaxRetries
    ensures n < MaxRetries ==> env.engine[n - 1].Success?
    ensures forall j :: 0 <= j < n - 1 ==> env.engine[j].Failure?
  {
    var k := FirstSuccess(env.engine, MaxRetries);
    if k < MaxRetries then k + 1 else MaxRetries
  }

  /** The payload a succeeding category saves: that of its first successful
      attempt. */
  function Payload<V, E>(env: ItemEnv<V, E>): V
    requires Ready(env) && Succeeds(env)
  {
    env.engine[AttemptsMade(env) - 1].value
  }

  /** One iteration of the batch loop: the runner, then, on a returned
      payload, the write and, once written, the throttle. */
  method RunItem<V, E>(category: string, env: ItemEnv<V, E>)
    returns (trace: seq<Event<V>>)
    requires Ready(env)
    ensures trace == ItemTrace(category, env)
  {
    var result;
    result, trace := ScrapeWithRetry(category, env.engine, MaxRetries, InitialDelay);
    match result {
      case Returned(v) =>
        if env.writeOk {
          trace := trace + [Saved(Filename(category, env.date), v)];
          trace := trace + [Sleep(ThrottleSeconds)];
        }
      case Raised(_) =>
      case ReturnedNone =>
        assert false;
    }
  }

  /** The batch loop: every category in list order, each through `RunItem`;
      an exception in one iteration never stops the loop. */
  method RunBatch<V, E>(categories: seq<string>, envs: seq<ItemEnv<V, E>>)
    returns (trace: seq<Event<V>>)
    requires Covers(categories, envs)
    ensures trace == BatchTrace(categories, envs)
  {
    trace := [];
    for i := 0 to |categories|
      invariant trace == BatchTrace(categories[..i], envs[..i])
    {
      var item := RunItem(categories[i], envs[i]);
      trace := trace + item;
      CoversPrefix(categories, envs, i + 1);
      BatchTraceSnoc(categories[..i + 1], envs[..i + 1]);
      assert categories[..i + 1][..i] == categories[..i];
      assert envs[..i + 1][..i] == envs[..i];
    }
    assert categories[..|categories|] == categories;
    assert envs[..|envs|] == envs;
  }

  /** The events an iteration adds after its attempts: the save of the
      returned payload and the throttle when the category succeeds, nothing
      otherwise. */
  function Tail<V, E>(category: string, env: ItemEnv<V, E>): seq<Event<V>>
    requires Ready(env)
  {
    if Succeeds(env) then [Saved(Filename(category, env.date), Payload(env)), Sleep(ThrottleSeconds)]
    else []
  }

  /** An iteration's events: the runner's attempts and waits, then its tail. */
  lemma ItemTraceForm<V, E>(category: string, env: ItemEnv<V, E>)
    requires Ready(env)
    ensures ItemTrace(category, env)
      == AttemptTrace(category, InitialDelay, AttemptsMade(env)) + Tail(category, env)
  {
    var k := FirstSuccess(env.engine, MaxRetries);
    var attempts := AttemptTrace<V>(category, InitialDelay, AttemptsMade(env));
    var none: seq<Event<V>> := [];
    if k < MaxRetries {
      assert RetryRun(category, env.engine, MaxRetries, InitialDelay) == (Returned(env.engine[k].value), attempts);
      if !env.writeOk {
        assert attempts + none == attempts;
      }
    } else {
      assert RetryRun(category, env.engine, MaxRetries, InitialDelay)
        == (Raised(env.engine[MaxRetries - 1].error), attempts);
      assert attempts + none == attempts;
    }
  }

  /** The projections of an iteration's tail. */
  lemma TailProjections<V, E>(category: string, env: ItemEnv<V, E>)
    requires Ready(env)
    ensures Started(Tail(category, env)) == []
    ensures Attempts(Tail(category, env)) == []
    ensures Sleeps(Tail(category, env)) == if Succeeds(env) then [ThrottleSeconds] else []
    ensures SavedNames(Tail(category, env)) == if Succeeds(env) then [Filename(category, env.date)] else []
  {
    var none: seq<Event<V>> := [];
    if Succeeds(env) {
      var saved: Event<V> := Saved(Filename(category, env.date), Payload(env));
      var wait: Event<V> := Sleep(ThrottleSeconds);
      ProjectionsAppend([saved], [wait]);
      ProjectionsOne(saved);
      ProjectionsOne(wait);
      assert [saved] + [wait] == Tail(category, env);
    } else {
      assert Tail(category, env) == none;
    }
  }

  /** The projections of an iteration are those of its attempts followed by
      those of its tail. */
  lemma ItemProjections<V, E>(category: string, env: ItemEnv<V, E>)
    requires Ready(env)
    ensures var attempts := AttemptTrace<V>(category, InitialDelay, AttemptsMade(env));
      && Started(ItemTrace(category, env)) == Started(attempts) + Started(Tail(category, env))
      && Attempts(ItemTrace(category, env)) == Attempts(attempts) + Attempts(Tail(category, env))
      && Sleeps(ItemTrace(category, env)) == Sleeps(attempts) + Sleeps(Tail(category, env))
      && SavedNames(ItemTrace(category, env)) == SavedNames(attempts) + SavedNames(Tail(category, env))
  {
    ItemTraceForm(category, env);
    ProjectionsAppend(AttemptTrace<V>(category, InitialDelay, AttemptsMade(env)), Tail(category, env));
  }

  /** Each iteration starts its own category, and only it. */
  lemma ItemStarted<V, E>(category: string, env: ItemEnv<V, E>)
    requires Ready(env)
    ensures Started(ItemTrace(category, env)) == [category]
  {
    ItemProjections(category, env);
    AttemptTraceMeasure<V>(category, InitialDelay, AttemptsMade(env));
    TailProjections(category, env);
  }

  /** An iteration makes between one and three attempts, numbered from 1:
      up to the first success, or all three. */
  lemma ItemAttempts<V, E>(category: string, env: ItemEnv<V, E>)
    requires Ready(env)
    ensures |Attempts(ItemTrace(category, env))| == AttemptsMade(env)
    ensures forall j :: 0 <= j < AttemptsMade(env) ==> Attempts(ItemTrace(category, env))[j] == j + 1
  {
    var attempts := AttemptTrace<V>(category, InitialDelay, AttemptsMade(env));
    assert Attempts(ItemTrace(category, env)) == Attempts(attempts) by {
      ItemProjections(category, env);
      TailProjections(category, env);
    }
    AttemptTraceMeasure<V>(category, InitialDelay, AttemptsMade(env));
  }

  /** An iteration waits between its failed attempts with the doubling
      backoff, and sleeps for the throttle once more only when it succeeds. */
  lemma ItemSleeps<V, E>(category: string, env: ItemEnv<V, E>)
    requires Ready(env)
    ensures |Sleeps(ItemTrace(category, env))| == AttemptsMade(env) - 1 + (if Succeeds(env) then 1 else 0)
    ensures forall j :: 0 <= j < AttemptsMade(env) - 1 ==> Sleeps(ItemTrace(category, env))[j] == InitialDelay * Pow2(j)
    ensures Succeeds(env) ==> Sleeps(ItemTrace(category, env))[AttemptsMade(env) - 1] == ThrottleSeconds
  {
    var attempts := AttemptTrace<V>(category, InitialDelay, AttemptsMade(env));
    assert Sleeps(ItemTrace(category, env))
      == Sleeps(attempts) + (if Succeeds(env) then [ThrottleSeconds] else []) by {
      ItemProjections(category, env);
      TailProjections(category, env);
    }
    AttemptTraceMeasure<V>(category, InitialDelay, AttemptsMade(env));
  }

  /** An iteration saves exactly the derived filename when the category
      succeeds and nothing otherwise. */
  lemma ItemSaved<V, E>(category: string, env: ItemEnv<V, E>)
    requires Ready(env)
    ensures SavedNames(ItemTrace(category, env)) == if Succeeds(env) then [Filename(category, env.date)] else []
  {
    ItemProjections(category, env);
    AttemptTraceMeasure<V>(category, InitialDelay, AttemptsMade(env));
    TailProjections(category, env);
  }

  /** A successful iteration ends with the save of the returned payload
      followed by the throttle sleep; a failed one ends with its last attempt,
      with no sleep after it. */
  lemma ItemEnds<V, E>(category: string, env: ItemEnv<V, E>)
    requires Ready(env)
    ensures var t := ItemTrace(category, env);
      if Succeeds(env) then
        && |t| >= 2
        && t[|t| - 2] == Saved(Filename(category, env.date), Payload(env))
        && t[|t| - 1] == Sleep(ThrottleSeconds)
      else t != [] && t[|t| - 1] == Call(category, AttemptsMade(env))
  {
    ItemTraceForm(category, env);
    AttemptTraceMeasure<V>(category, InitialDelay, AttemptsMade(env));
  }

  /** A prefix of a covered list is covered. */
  lemma CoversPrefix<V, E>(categories: seq<string>, envs: seq<ItemEnv<V, E>>, n: nat)
    requires Covers(categories, envs) && n <= |categories|
    ensures Covers(categories[..n], envs[..n])
  {
    forall i | 0 <= i < n ensures Ready(envs[..n][i]) {
      assert envs[..n][i] == envs[i];
    }
  }

  /** The batch's events are those of all iterations but the last, followed
      by the last iteration's. */
  lemma BatchTraceSnoc<V, E>(categories: seq<string>, envs: seq<ItemEnv<V, E>>)
    requires Covers(categories, envs) && categories != []
    ensures Covers(categories[..|categories| - 1], envs[..|envs| - 1])
    ensures BatchTrace(categories, envs)
      == BatchTrace(categories[..|categories| - 1], envs[..|envs| - 1])
         + ItemTrace(categories[|categories| - 1], envs[|envs| - 1])
  {
    var n := |categories| - 1;
    assert categories == categories[..n] + [categories[n]];
    assert envs == envs[..n] + [envs[n]];
    CoversPrefix(categories, envs, n);
    BatchTraceOne(categories[n], envs[n]);
    BatchTraceAppend(categories[..n], [categories[n]], envs[..n], [envs[n]]);
  }

  /** Every category is started exactly once, in list order, whatever the
      engine and the writes do: no failure aborts the batch. */
  lemma {:induction false} EveryCategoryStartedInOrder<V, E>(
    categories: seq<string>, envs: seq<ItemEnv<V, E>>)
    requires Covers(categories, envs)
    ensures Started(BatchTrace(categories, envs)) == categories
    decreases |categories|
  {
    if categories != [] {
      var n := |categories| - 1;
      assert categories[..n] + [categories[n]] == categories;
      BatchTraceSnoc(categories, envs);
      var before := BatchTrace(categories[..n], envs[..n]);
      var last := ItemTrace(categories[n], envs[n]);
      EveryCategoryStartedInOrder(categories[..n], envs[..n]);
      ProjectionsAppend(before, last);
      ItemStarted(categories[n], envs[n]);
    }
  }

  /** The artifacts written are exactly those of the succeeding categories,
      in list order: one per success, none for a failure. */
  lemma {:induction false} ArtifactsExactlyForSuccesses<V, E>(
    categories: seq<string>, envs: seq<ItemEnv<V, E>>)
    requires Covers(categories, envs)
    ensures SavedNames(BatchTrace(categories, envs)) == SucceededNames(categories, envs)
    ensures |SavedNames(BatchTrace(categories, envs))| <= |categories|
    decreases |categories|
  {
    if categories != [] {
      var n := |categories| - 1;
      BatchTraceSnoc(categories, envs);
      var before := BatchTrace(categories[..n], envs[..n]);
      var last := ItemTrace(categories[n], envs[n]);
      ArtifactsExactlyForSuccesses(categories[..n], envs[..n]);
      ProjectionsAppend(before, last);
      ItemSaved(categories[n], envs[n]);
    }
  }

  /** An iteration leaves the files as they were, except that a succeeding
      category's file now holds its payload. */
  lemma ItemWrites<V, E>(fs: map<string, V>, category: string, env: ItemEnv<V, E>)
    requires Ready(env)
    ensures ApplyWrites(fs, ItemTrace(category, env))
      == if Succeeds(env) then fs[Filename(category, env.date) := Payload(env)] else fs
  {
    var attempts := AttemptTrace<V>(category, InitialDelay, AttemptsMade(env));
    var tail := Tail(category, env);
    ItemTraceForm(category, env);
    AttemptTraceMeasure<V>(category, InitialDelay, AttemptsMade(env));
    ApplyWritesAppend(fs, attempts, tail);
    ApplyWritesNoSaves(fs, attempts);
    if Succeeds(env) {
      var saved: Event<V> := Saved(Filename(category, env.date), Payload(env));
      var none: seq<Event<V>> := [];
      assert tail == [saved, Sleep(ThrottleSeconds)];
      assert tail[..1] == [saved] && [saved][..0] == none;
      assert ApplyWrites(fs, [saved]) == fs[Filename(category, env.date) := Payload(env)];
      assert ApplyWrites(fs, tail) == ApplyWrites(fs, [saved]);
    }
  }

  /** Category `i` succeeds and no later succeeding category writes the same
      file: its payload is the one the file keeps. */
  predicate LastWriter<V, E>(categories: seq<string>, envs: seq<ItemEnv<V, E>>, i: nat)
    requires Covers(categories, envs) && i < |categories|
  {
    && Succeeds(envs[i])
    && forall j :: i < j < |categories| && Succeeds(envs[j])
         ==> Filename(categories[j], envs[j].date) != Filename(categories[i], envs[i].date)
  }

  /** The files a batch leaves behind, category by category: each succeeding
      category's file is set to its payload, in list order. */
  function BatchFiles<V, E>(fs: map<string, V>, categories: seq<string>, envs: seq<ItemEnv<V, E>>)
    : map<string, V>
    requires Covers(categories, envs)
    decreases |categories|
  {
    if categories == [] then fs
    else
      var n := |categories| - 1;
      var before := BatchFiles(fs, categories[..n], envs[..n]);
      if Succeeds(envs[n]) then before[Filename(categories[n], envs[n].date) := Payload(envs[n])] else before
  }

  /** Replaying the batch's events gives the files `BatchFiles` describes. */
  lemma {:induction false} BatchFilesReplay<V, E>(fs: map<string, V>, categories: seq<string>, envs: seq<ItemEnv<V, E>>)
    requires Covers(categories, envs)
    ensures ApplyWrites(fs, BatchTrace(categories, envs)) == BatchFiles(fs, categories, envs)
    decreases |categories|
  {
    if categories == [] {
      var none: seq<seq<Event<V>>> := [];
      assert ItemTraces(categories, envs) == none;
    } else {
      var n := |categories| - 1;
      BatchTraceSnoc(categories, envs);
      var front := BatchTrace(categories[..n], envs[..n]);
      ApplyWritesAppend(fs, front, ItemTrace(categories[n], envs[n]));
      BatchFilesReplay(fs, categories[..n], envs[..n]);
      ItemWrites(ApplyWrites(fs, front), categories[n], envs[n]);
    }
  }

  /** A category that writes its file last in a batch also does so in the
      batch without its final category. */
  lemma LastWriterPrefix<V, E>(categories: seq<string>, envs: seq<ItemEnv<V, E>>, i: nat)
    requires Covers(categories, envs) && i < |categories| - 1
    requires LastWriter(categories, envs, i)
    ensures Covers(categories[..|categories| - 1], envs[..|envs| - 1])
    ensures LastWriter(categories[..|categories| - 1], envs[..|envs| - 1], i)
  {
    var n := |categories| - 1;
    CoversPrefix(categories, envs, n);
    forall j | i < j < n
      ensures categories[..n][j] == categories[j] && envs[..n][j] == envs[j] {}
  }

  /** The file of a category that writes it last holds that category's payload
      after the batch. */
  lemma {:induction false} LastWriterContent<V, E>(
    fs: map<string, V>, categories: seq<string>, envs: seq<ItemEnv<V, E>>, i: nat)
    requires Covers(categories, envs) && i < |categories|
    requires LastWriter(categories, envs, i)
    ensures var files := BatchFiles(fs, categories, envs);
      Filename(categories[i], envs[i].date) in files
      && files[Filename(categories[i], envs[i].date)] == Payload(envs[i])
    decreases |categories|
  {
    var n := |categories| - 1;
    CoversPrefix(categories, envs, n);
    if i < n {
      LastWriterPrefix(categories, envs, i);
      LastWriterContent(fs, categories[..n], envs[..n], i);
      assert categories[..n][i] == categories[i] && envs[..n][i] == envs[i];
    }
  }

  /** The files after the batch: the batch's writes override the files present
      before, and name exactly the succeeding categories' files (categories
      whose names agree share one file); a file the batch never names keeps
      its contents; a file holds the payload of the last succeeding category
      that names it; running the batch's writes again changes nothing, since
      every write replaces the file of the same name. */
  lemma FilesAfterBatch<V, E>(fs: map<string, V>, categories: seq<string>, envs: seq<ItemEnv<V, E>>)
    requires Covers(categories, envs)
    ensures ApplyWrites(fs, BatchTrace(categories, envs)) == fs + ApplyWrites(map[], BatchTrace(categories, envs))
    ensures ApplyWrites(fs, BatchTrace(categories, envs)).Keys
      == fs.Keys + set n | n in SucceededNames(categories, envs)
    ensures forall n :: n in fs && n !in SucceededNames(categories, envs) ==>
              && n in ApplyWrites(fs, BatchTrace(categories, envs))
              && ApplyWrites(fs, BatchTrace(categories, envs))[n] == fs[n]
    ensures forall i :: 0 <= i < |categories| && LastWriter(categories, envs, i) ==>
              var name := Filename(categories[i], envs[i].date);
              && name in ApplyWrites(fs, BatchTrace(categories, envs))
              && ApplyWrites(fs, BatchTrace(categories, envs))[name] == Payload(envs[i])
    ensures var t := BatchTrace(categories, envs);
      ApplyWrites(ApplyWrites(fs, t), t) == ApplyWrites(fs, t)
  {
    var t := BatchTrace(categories, envs);
    ArtifactsExactlyForSuccesses(categories, envs);
    ApplyWritesOverrides(fs, t);
    ApplyWritesKeys(fs, t);
    ApplyWritesKeys(map[], t);
    ApplyWritesIdempotent(fs, t);
    BatchFilesReplay(fs, categories, envs);
    forall i | 0 <= i < |categories| && LastWriter(categories, envs, i)
      ensures var name := Filename(categories[i], envs[i].date);
        name in BatchFiles(fs, categories, envs) && BatchFiles(fs, categories, envs)[name] == Payload(envs[i])
    {
      LastWriterContent(fs, categories, envs, i);
    }
  }

  /** The batch over two lists run one after the other is the batch over the
      first followed by the batch over the second. */
  lemma BatchTraceAppend<V, E>(
    c1: seq<string>, c2: seq<string>, e1: seq<ItemEnv<V, E>>, e2: seq<ItemEnv<V, E>>)
    requires Covers(c1, e1) && Covers(c2, e2)
    ensures Covers(c1 + c2, e1 + e2)
    ensures BatchTrace(c1 + c2, e1 + e2) == BatchTrace(c1, e1) + BatchTrace(c2, e2)
  {
    var es := e1 + e2;
    assert Covers(c1 + c2, es) by {
      forall j | 0 <= j < |es| ensures Ready(es[j]) {
        if j < |e1| { assert es[j] == e1[j]; } else { assert es[j] == e2[j - |e1|]; }
      }
    }
    var xs := ItemTraces(c1, e1);
    var ys := ItemTraces(c2, e2);
    var all := ItemTraces(c1 + c2, es);
    forall j | 0 <= j < |all| ensures all[j] == (xs + ys)[j] {
      if j < |c1| {
        assert (c1 + c2)[j] == c1[j] && es[j] == e1[j];
      } else {
        assert (c1 + c2)[j] == c2[j - |c1|] && es[j] == e2[j - |c1|];
      }
    }
    assert all == xs + ys;
    FlattenAppend(xs, ys);
  }

  /** The batch over a single category is that category's iteration. */
  lemma BatchTraceOne<V, E>(category: string, env: ItemEnv<V, E>)
    requires Ready(env)
    ensures Covers([category], [env])
    ensures BatchTrace([category], [env]) == ItemTrace(category, env)
  {
    var xs := ItemTraces([category], [env]);
    var none: seq<seq<Event<V>>> := [];
    assert xs == [ItemTrace(category, env)];
    assert xs[..0] == none;
    assert Flatten(xs) == Flatten(none) + xs[0];
  }

  /** Failure isolation: whatever happens to category `i`, the other
      categories' events are the ones they would have had anyway. */
  lemma FailureIsolation<V, E>(
    categories: seq<string>, envs: seq<ItemEnv<V, E>>, i: nat, env: ItemEnv<V, E>)
    requires Covers(categories, envs)
    requires i < |categories|
    requires Ready(env)
    ensures Covers(categories, envs[i := env])
    ensures BatchTrace(categories, envs[i := env])
      == BatchTrace(categories[..i], envs[..i])
         + ItemTrace(categories[i], env)
         + BatchTrace(categories[i + 1..], envs[i + 1..])
  {
    var before, after := envs[..i], envs[i + 1..];
    CoversPrefix(categories, envs, i);
    assert Covers(categories[i + 1..], after) by {
      forall j | 0 <= j < |after| ensures Ready(after[j]) {
        assert after[j] == envs[i + 1 + j];
      }
    }
    assert categories == categories[..i] + [categories[i]] + categories[i + 1..];
    assert envs[i := env] == before + [env] + after;
    BatchTraceOne(categories[i], env);
    BatchTraceAppend(categories[..i], [categories[i]], before, [env]);
    BatchTraceAppend(categories[..i] + [categories[i]], categories[i + 1..], before + [env], after);
  }

  /** A category yields an artifact exactly when one of its attempts within
      the budget succeeds and the write succeeds. */
  lemma SucceedsIff<V, E>(env: ItemEnv<V, E>)
    requires Ready(env)
    ensures Succeeds(env) <==> env.writeOk && exists j :: 0 <= j < MaxRetries && env.engine[j].Success?
  {
    var k := FirstSuccess(env.engine, MaxRetries);
    if k == MaxRetries {
      assert forall j :: 0 <= j < MaxRetries ==> env.engine[j].Failure?;
    }
  }

  /** The artifact names in the "Tablets" scenario below. */
  lemma TabletsScenarioNames<V, E>(phones: string, tablets: string, computers: string, envs: seq<ItemEnv<V, E>>)
    requires '/' !in phones && '/' !in computers
    requires Covers([phones, tablets, computers], envs)
    requires Succeeds(envs[0]) && !Succeeds(envs[1]) && Succeeds(envs[2])
    ensures SucceededNames([phones, tablets, computers], envs)
      == ["mobilesentrix_" + phones + "_" + envs[0].date + ".json", "mobilesentrix_" + computers + "_" + envs[2].date + ".json"]
  {
    FilenameOfPlainCategory(phones, envs[0].date);
    FilenameOfPlainCategory(computers, envs[2].date);
    SucceededNamesOfThree([phones, tablets, computers], envs);
  }

  /** With three categories of which the first and the last succeed, the
      artifacts are theirs. */
  lemma SucceededNamesOfThree<V, E>(categories: seq<string>, envs: seq<ItemEnv<V, E>>)
    requires Covers(categories, envs) && |categories| == 3
    requires Succeeds(envs[0]) && !Succeeds(envs[1]) && Succeeds(envs[2])
    ensures SucceededNames(categories, envs)
      == [Filename(categories[0], envs[0].date), Filename(categories[2], envs[2].date)]
  {
    var one, two := categories[..1], categories[..2];
    CoversPrefix(categories, envs, 2);
    CoversPrefix(categories, envs, 1);
    assert two[..1] == one && envs[..2][..1] == envs[..1];
    assert one[..0] == [] && envs[..1][..0] == [];
    assert SucceededNames(one, envs[..1]) == [Filename(categories[0], envs[0].date)];
    assert SucceededNames(two, envs[..2]) == [Filename(categories[0], envs[0].date)];
  }

  /** The script's own list with "Tablets" exhausting its three attempts and
      the other two succeeding: all three are started in order and exactly two
      artifacts are written, for "Cell Phones" and "Computers". */
  lemma TabletsExhaustedScenario<V, E>(date: string, phones: V, computers: V, e: E)
    ensures var envs := [
        ItemEnv([Success(phones), Failure(e), Failure(e)], true, date),
        ItemEnv([Failure(e), Failure(e), Failure(e)], true, date),
        ItemEnv([Failure(e), Success(computers), Failure(e)], true, date)];
      && Started(BatchTrace(Categories, envs)) == Categories
      && SavedNames(BatchTrace(Categories, envs))
         == ["mobilesentrix_" + "Cell Phones" + "_" + date + ".json", "mobilesentrix_" + "Computers" + "_" + date + ".json"]
  {
    var envs := [
      ItemEnv([Success(phones), Failure(e), Failure(e)], true, date),
      ItemEnv([Failure(e), Failure(e), Failure(e)], true, date),
      ItemEnv([Failure(e), Success(computers), Failure(e)], true, date)];
    SucceedsIff(envs[0]);
    SucceedsIff(envs[1]);
    SucceedsIff(envs[2]);
    assert envs[0].engine[0].Success? && envs[2].engine[1].Success?;
    TabletsScenarioNames("Cell Phones", "Tablets", "Computers", envs);
    EveryCategoryStartedInOrder(Categories, envs);
    ArtifactsExactlyForSuccesses(Categories, envs);
  }
}
