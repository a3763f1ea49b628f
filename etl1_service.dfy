/**
 * `AnimalService` of `poc-ETL-1/animal_startup/service.py` (the copy under
 * `poc-ETL-1-initial-idea` is the same file): fetch the details of each
 * listed animal, transform them, and post them in batches of 100, pausing on
 * 500/502/503/504 and re-raising every other error status.
 *
 * The repository it talks to is given by its answers: `details(id)` for
 * `fetch_animal_details(id)` and `postAnswer(n)` for the `n`-th call of
 * `post_animals` made by this service.  `transform` stands for
 * `utils.transform_animal` and `retryLimit` for `RETRY_LIMIT`, neither of
 * which is part of this model.  `postCalls` counts the `post_animals` calls
 * made so far; the ghost field `pauses` records every `time.sleep` and the
 * ghost field `handed` every batch given to `_post_batch`, in order.
 */
module Etl1Service {
  import opened Wrappers
  import opened Wire
  import Batching

  const BatchSize: nat := 100

  /** A pause of `random.uniform(5, 15)` seconds. */
  predicate PauseInRange(p: real) {
    5.0 <= p <= 15.0
  }

  /** An exception that leaves `load_animals`. */
  datatype Failure = HttpStatusError(status: int) | NetworkError

  /** Where `load_animals` stands: the exception raised so far (if any), the
      batch being filled, the batches handed to `_post_batch`, and the number
      of `post_animals` calls made. */
  datatype LoadState<A> = LoadState(raised: Option<Failure>, batch: seq<A>, flushed: seq<seq<A>>, calls: nat)

  /** The exception that a failed request raises. */
  function FailureOf<T>(r: Reply<T>): (f: Failure)
    requires !r.Ok?
    ensures f.HttpStatusError? <==> r.StatusError?
    ensures f.HttpStatusError? ==> f.status == r.status
  {
    if r.StatusError? then HttpStatusError(r.status) else NetworkError
  }

  /** A detail answer that ends `load_animals`: a network error (not caught)
      or a status that `_handle_error` re-raises. */
  predicate Fatal<T>(r: Reply<T>) {
    r.RequestError? || (r.StatusError? && !IsTransientStatus(r.status))
  }

  /** The details of some listed animal end `load_animals`. */
  predicate AnyFatal<D>(details: int -> Reply<D>, animals: seq<Summary>) {
    exists j :: 0 <= j < |animals| && Fatal(details(animals[j].id))
  }

  /** Some listed animal fails fatally exactly when one before the last does
      or the last does. */
  lemma AnyFatalLast<D>(details: int -> Reply<D>, animals: seq<Summary>)
    requires animals != []
    ensures AnyFatal(details, animals) <==>
      AnyFatal(details, animals[..|animals| - 1]) || Fatal(details(animals[|animals| - 1].id))
  {
    var init := animals[..|animals| - 1];
    if AnyFatal(details, init) {
      var j :| 0 <= j < |init| && Fatal(details(init[j].id));
      assert animals[j] == init[j];
    }
    if AnyFatal(details, animals) && !Fatal(details(animals[|animals| - 1].id)) {
      var j :| 0 <= j < |animals| && Fatal(details(animals[j].id));
      assert init[j] == animals[j];
    }
  }

  /** A failure that `_handle_error` pauses on. */
  predicate TransientStatusAnswer<T>(r: Reply<T>) {
    r.StatusError? && IsTransientStatus(r.status)
  }

  /** The transformed records of the animals whose details were fetched, in
      order: those on a transient error are skipped. */
  function Kept<D, A>(details: int -> Reply<D>, transform: D -> A, animals: seq<Summary>): (r: seq<A>)
    ensures |r| <= |animals|
  {
    if animals == [] then []
    else
      var init := Kept(details, transform, animals[..|animals| - 1]);
      var last := details(animals[|animals| - 1].id);
      if last.Ok? then init + [transform(last.body)] else init
  }

  /** Keeping the records of a prefix gives a prefix. */
  lemma {:induction false} KeptPrefix<D, A>(details: int -> Reply<D>, transform: D -> A, animals: seq<Summary>, i: nat)
    requires i <= |animals|
    ensures Kept(details, transform, animals[..i]) <= Kept(details, transform, animals)
    decreases |animals| - i
  {
    if i < |animals| {
      KeptPrefix(details, transform, animals, i + 1);
      assert animals[..i + 1][..i] == animals[..i];
    } else {
      assert animals[..i] == animals;
    }
  }

  /** When all details come back, every record is kept, in order. */
  lemma {:induction false} KeptAll<D, A>(details: int -> Reply<D>, transform: D -> A, animals: seq<Summary>)
    requires forall j :: 0 <= j < |animals| ==> details(animals[j].id).Ok?
    ensures |Kept(details, transform, animals)| == |animals|
    ensures forall j :: 0 <= j < |animals| ==>
      Kept(details, transform, animals)[j] == transform(details(animals[j].id).body)
  {
    if animals != [] {
      var init := animals[..|animals| - 1];
      assert forall j :: 0 <= j < |init| ==> init[j] == animals[j];
      KeptAll(details, transform, init);
    }
  }

  class AnimalService<D, A> {
    const retryLimit: nat
    const details: int -> Reply<D>
    const transform: D -> A
    const postAnswer: nat -> Reply<()>
    var postCalls: nat
    ghost var pauses: seq<real>
    ghost var handed: seq<seq<A>>

    constructor(retryLimit: nat, details: int -> Reply<D>, transform: D -> A, postAnswer: nat -> Reply<()>)
      ensures this.retryLimit == retryLimit && this.details == details
      ensures this.transform == transform && this.postAnswer == postAnswer
      ensures postCalls == 0 && pauses == [] && handed == []
    {
      this.retryLimit := retryLimit;
      this.details := details;
      this.transform := transform;
      this.postAnswer := postAnswer;
      postCalls := 0;
      pauses := [];
      handed := [];
    }

    /** Every pause so far lasted between 5 and 15 seconds. */
    ghost predicate PausesInRange()
      reads this
    {
      forall k :: 0 <= k < |pauses| ==> PauseInRange(pauses[k])
    }

    /** The last `post_animals` call, made after the first `since` ones, failed
        in a way that `_post_batch` raises. */
    ghost predicate LastPostFatal(since: nat)
      reads this
    {
      postCalls > since && Fatal(postAnswer(postCalls - 1))
    }

    /** No `post_animals` call made after the first `since` ones failed in a
        way that `_post_batch` raises. */
    ghost predicate NoFatalPostSince(since: nat)
      reads this
    {
      forall n: nat :: since <= n < postCalls ==> !Fatal(postAnswer(n))
    }

    /** At least `batches` calls of `post_animals` were made after the first
        `since` ones, if `_post_batch` may make any. */
    ghost predicate CallsCover(since: nat, batches: nat)
      reads this
    {
      retryLimit > 0 ==> postCalls >= since + batches
    }

    /** The number of `post_animals` calls `_post_batch` makes from call
        `start` with `budget` retries left: one more after each transient
        status, none after any other answer. */
    ghost function PostCalls(start: nat, budget: nat): (r: nat)
      ensures r <= budget
      ensures budget > 0 ==> r >= 1
      decreases budget
    {
      if budget == 0 then 0
      else if TransientStatusAnswer(postAnswer(start)) then 1 + PostCalls(start + 1, budget - 1)
      else 1
    }

    /** The calls of one `_post_batch` whose first call is call `start`. */
    ghost function PostCallsFrom(start: nat): nat {
      PostCalls(start, retryLimit)
    }

    /** With `RETRY_LIMIT = 2`, a 503 and then a 404 make `_post_batch` call
        twice and raise the 404. */
    lemma PostCallsRetryThenRaise()
      requires retryLimit == 2 && postAnswer(0) == StatusError(503) && postAnswer(1) == StatusError(404)
      ensures PostCallsFrom(0) == 2 && FlushFails(0)
    {
    }

    /** With `RETRY_LIMIT = 1`, a first success makes `_post_batch` call once
        and return. */
    lemma PostCallsSuccessStops()
      requires retryLimit == 1 && postAnswer(0).Ok?
      ensures PostCallsFrom(0) == 1 && !FlushFails(0)
    {
    }

    /** The `_post_batch` whose first call is call `start` raises. */
    ghost predicate FlushFails(start: nat) {
      PostCallsFrom(start) > 0 && Fatal(postAnswer(start + PostCallsFrom(start) - 1))
    }

    /** `_post_batch` of a batch whose first call is call `start`: the calls
        made and the exception raised, appended to `s`. */
    ghost function Flush(s: LoadState<A>, full: seq<A>): LoadState<A> {
      var end := s.calls + PostCallsFrom(s.calls);
      if FlushFails(s.calls) then
        LoadState(Some(FailureOf(postAnswer(end - 1))), full, s.flushed + [full], end)
      else
        LoadState(None, [], s.flushed + [full], end)
    }

    /** One pass of the `for` loop of `load_animals` (lines 15-26), as a
        reference for `LoadOne`: nothing happens once an exception is raised. */
    ghost function LoadStep(s: LoadState<A>, animal: Summary): LoadState<A> {
      if s.raised.Some? then s
      else
        var answer := details(animal.id);
        if answer.Ok? then
          var grown := s.batch + [transform(answer.body)];
          if |grown| == BatchSize then Flush(s, grown)
          else LoadState(None, grown, s.flushed, s.calls)
        else if Fatal(answer) then LoadState(Some(FailureOf(answer)), s.batch, s.flushed, s.calls)
        else s
    }

    /** The `for` loop of `load_animals` over `animals`, from call `since` on. */
    ghost function Loaded(since: nat, animals: seq<Summary>): LoadState<A>
      decreases |animals|
    {
      if animals == [] then LoadState(None, [], [], since)
      else LoadStep(Loaded(since, animals[..|animals| - 1]), animals[|animals| - 1])
    }

    /** All of `load_animals`: the loop, then the flush of a non-empty
        remainder (lines 28-29). */
    ghost function LoadAll(since: nat, animals: seq<Summary>): LoadState<A> {
      var s := Loaded(since, animals);
      if s.raised.Some? || s.batch == [] then s else Flush(s, s.batch)
    }

    /** `_handle_error`: a transient status pauses once; any other is raised. */
    method HandleError(status: int) returns (raise: bool)
      modifies this
      requires PausesInRange()
      ensures raise <==> !IsTransientStatus(status)
      ensures old(pauses) <= pauses && |pauses| == |old(pauses)| + (if raise then 0 else 1)
      ensures postCalls == old(postCalls) && handed == old(handed) && PausesInRange()
    {
      if IsTransientStatus(status) {
        assert PauseInRange(5.0);
        ghost var pause: real :| PauseInRange(pause);
        pauses := pauses + [pause];
        return false;
      }
      return true;
    }

    /** `_post_batch`: at most `retryLimit` calls of `post_animals`, stopping at
        the first success, raising on a non-transient status or a network
        error, and returning normally (the batch dropped) once the limit is
        spent on transient failures, each followed by a pause. */
    method PostBatch(batch: seq<A>) returns (raised: Option<Failure>)
      modifies this
      requires PausesInRange()
      ensures handed == old(handed) + [batch]
      ensures old(postCalls) <= postCalls <= old(postCalls) + retryLimit
      ensures retryLimit > 0 ==> postCalls > old(postCalls)
      ensures forall n: nat :: old(postCalls) <= n < postCalls - 1 ==>
        postAnswer(n).StatusError? && IsTransientStatus(postAnswer(n).status)
      ensures raised.Some? <==> postCalls > old(postCalls) && Fatal(postAnswer(postCalls - 1))
      ensures raised.Some? ==> raised.value == FailureOf(postAnswer(postCalls - 1))
      ensures raised.None? ==> NoFatalPostSince(old(postCalls))
      ensures postCalls == old(postCalls) + PostCallsFrom(old(postCalls))
      ensures raised.Some? <==> FlushFails(old(postCalls))
      ensures raised.None? && postCalls < old(postCalls) + retryLimit ==>
        postCalls > old(postCalls) && postAnswer(postCalls - 1).Ok?
      ensures |pauses| - |old(pauses)| ==
        (postCalls - old(postCalls)) - (if postCalls > old(postCalls) && !TransientStatusAnswer(postAnswer(postCalls - 1)) then 1 else 0)
      ensures old(pauses) <= pauses && PausesInRange()
    {
      handed := handed + [batch];
      var retries: nat := 0;
      ghost var start := postCalls;
      ghost var before := pauses;
      while retries < retryLimit
        invariant handed == old(handed) + [batch]
        invariant postCalls == start + retries && retries <= retryLimit
        invariant PostCallsFrom(start) == retries + PostCalls(postCalls, retryLimit - retries)
        invariant forall n: nat :: start <= n < postCalls ==>
          postAnswer(n).StatusError? && IsTransientStatus(postAnswer(n).status)
        invariant before <= pauses && |pauses| == |before| + retries && PausesInRange()
      {
        var answer := postAnswer(postCalls);
        postCalls := postCalls + 1;
        if answer.Ok? {
          return None;
        }
        if answer.RequestError? {
          return Some(NetworkError);
        }
        retries := retries + 1;
        var raise := HandleError(answer.status);
        if raise {
          return Some(HttpStatusError(answer.status));
        }
      }
      return None;
    }

    /** The kept record of one animal: its transformed details, or nothing. */
    function KeptOne(animal: Summary): (r: seq<A>)
      ensures |r| <= 1
      ensures r == [] <==> !details(animal.id).Ok?
    {
      var answer := details(animal.id);
      if answer.Ok? then [transform(answer.body)] else []
    }

    /** The body of the `for` loop of `load_animals` (lines 15-26) for one
        animal: its record is appended to `batch`, and a batch that reaches 100
        is handed to `_post_batch` (`flushedNow`) and reset to empty.
        `newBatch` is the batch afterwards. */
    method LoadOne(animal: Summary, batch: seq<A>) returns (raised: Option<Failure>, newBatch: seq<A>, ghost flushedNow: seq<seq<A>>)
      modifies this
      requires PausesInRange() && |batch| < BatchSize
      ensures raised.None? ==> |newBatch| < BatchSize
      ensures flushedNow == [] || flushedNow == [batch + KeptOne(animal)]
      ensures flushedNow != [] ==> |batch + KeptOne(animal)| == BatchSize
      ensures raised.None? ==> Batching.Concat(flushedNow) + newBatch == batch + KeptOne(animal)
      ensures Fatal(details(animal.id)) ==> raised == Some(FailureOf(details(animal.id))) && flushedNow == []
      ensures TransientStatusAnswer(details(animal.id)) ==>
        raised.None? && newBatch == batch && flushedNow == [] && |pauses| == |old(pauses)| + 1
      ensures handed == old(handed) + flushedNow
      ensures old(postCalls) <= postCalls
      ensures flushedNow == [] ==> postCalls == old(postCalls)
      ensures CallsCover(old(postCalls), |flushedNow|)
      ensures raised.Some? && !Fatal(details(animal.id)) ==> LastPostFatal(old(postCalls))
      ensures raised.None? ==> NoFatalPostSince(old(postCalls))
      ensures LoadStep(LoadState(None, batch, [], old(postCalls)), animal) == LoadState(raised, newBatch, flushedNow, postCalls)
      ensures old(pauses) <= pauses && PausesInRange()
    {
      var answer := details(animal.id);
      flushedNow := [];
      newBatch := batch;
      if answer.Ok? {
        newBatch := batch + [transform(answer.body)];
        if |newBatch| == BatchSize {
          flushedNow := [newBatch];
          raised := PostBatch(newBatch);
          if raised.Some? {
            // caught at line 24, given to `_handle_error` again, and re-raised
            return;
          }
          Batching.ConcatOne(newBatch);
          newBatch := [];
        } else {
          raised := None;
        }
      } else if answer.RequestError? {
        raised := Some(NetworkError);
      } else {
        var raise := HandleError(answer.status);
        raised := if raise then Some(HttpStatusError(answer.status)) else None;
      }
    }

    /** The `for` loop of `load_animals` (lines 15-26): every animal in turn,
        until one raises.  `flushed` are the batches handed to `_post_batch`
        on the way, and `batch` is the one still being filled. */
    method LoadEach(animals: seq<Summary>) returns (raised: Option<Failure>, batch: seq<A>, ghost flushed: seq<seq<A>>)
      modifies this
      requires PausesInRange()
      ensures raised.None? ==> && Batching.Concat(flushed) + batch == Kept(details, transform, animals)
                               && |batch| < BatchSize
                               && (forall k :: 0 <= k < |flushed| ==> |flushed[k]| == BatchSize)
      ensures raised.Some? ==> Batching.WellCut(flushed, BatchSize)
      ensures raised.Some? ==> Batching.Concat(flushed) <= Kept(details, transform, animals)
      ensures AnyFatal(details, animals) ==> raised.Some?
      ensures raised.Some? ==>
        || AnyFatal(details, animals)
        || LastPostFatal(old(postCalls))
      ensures raised.None? ==> NoFatalPostSince(old(postCalls))
      ensures Loaded(old(postCalls), animals) == LoadState(raised, batch, flushed, postCalls)
      ensures handed == old(handed) + flushed
      ensures old(postCalls) <= postCalls
      ensures CallsCover(old(postCalls), |flushed|)
      ensures old(pauses) <= pauses && PausesInRange()
    {
      batch := [];
      flushed := [];
      var i := 0;
      while i < |animals|
        invariant 0 <= i <= |animals| && |batch| < BatchSize
        invariant Loaded(old(postCalls), animals[..i]) == LoadState(None, batch, flushed, postCalls)
        invariant handed == old(handed) + flushed
        invariant old(pauses) <= pauses && PausesInRange()
      {
        LoadedStep(old(postCalls), animals, i, LoadState(None, batch, flushed, postCalls));
        var failure, next, now := LoadOne(animals[i], batch);
        AppendAssoc(old(handed), flushed, now);
        if failure.Some? {
          LoadedAborted(old(postCalls), animals, i + 1);
          raised, batch, flushed := failure, next, flushed + now;
          LoadedFacts(old(postCalls), animals);
          return;
        }
        flushed := flushed + now;
        batch := next;
        i := i + 1;
      }
      assert animals[..i] == animals;
      raised := None;
      LoadedFacts(old(postCalls), animals);
    }

    /** `load_animals` over the listed summaries: the loop, then the last,
        shorter batch if there is one.  `flushed` are the batches handed to
        `_post_batch`, in order. */
    method LoadAnimals(animals: seq<Summary>) returns (raised: Option<Failure>, ghost flushed: seq<seq<A>>)
      modifies this
      requires PausesInRange()
      ensures Batching.WellCut(flushed, BatchSize)
      ensures Batching.Concat(flushed) <= Kept(details, transform, animals)
      ensures AnyFatal(details, animals) ==> raised.Some?
      ensures raised.None? ==> flushed == Batching.Chunks(Kept(details, transform, animals), BatchSize)
      ensures raised.Some? ==>
        || AnyFatal(details, animals)
        || LastPostFatal(old(postCalls))
      ensures raised.None? ==> NoFatalPostSince(old(postCalls))
      ensures var r := LoadAll(old(postCalls), animals);
        raised == r.raised && flushed == r.flushed && postCalls == r.calls
      ensures handed == old(handed) + flushed
      ensures old(postCalls) <= postCalls
      ensures CallsCover(old(postCalls), |flushed|)
      ensures old(pauses) <= pauses && PausesInRange()
    {
      var batch;
      raised, batch, flushed := LoadEach(animals);
      raised, flushed := FlushRest(old(postCalls), animals, old(handed), raised, batch, flushed);
      LoadAllMeans(old(postCalls), animals, raised, flushed, postCalls);
    }

    /** The end of `load_animals`: a partial last batch left after a run
        without an exception is posted too. */
    method FlushRest(ghost since: nat, ghost animals: seq<Summary>, ghost before: seq<seq<A>>,
                     raised0: Option<Failure>, batch: seq<A>, ghost flushed0: seq<seq<A>>)
      returns (raised: Option<Failure>, ghost flushed: seq<seq<A>>)
      modifies this
      requires PausesInRange()
      requires Loaded(since, animals) == LoadState(raised0, batch, flushed0, postCalls)
      requires handed == before + flushed0
      ensures var r := LoadAll(since, animals);
        raised == r.raised && flushed == r.flushed && postCalls == r.calls
      ensures handed == before + flushed
      ensures old(pauses) <= pauses && PausesInRange()
    {
      ghost var s := LoadState(raised0, batch, flushed0, postCalls);
      raised, flushed := raised0, flushed0;
      if raised.None? && batch != [] {
        flushed := flushed + [batch];
        raised := PostBatch(batch);
        FlushIs(s, raised, postCalls);
        LoadAllFlushes(since, animals, s);
      } else {
        LoadAllStops(since, animals, s);
      }
    }

    /** One animal processed without an exception keeps the loop invariant. */
    lemma LoopStep(animals: seq<Summary>, i: nat, flushed: seq<seq<A>>, batch: seq<A>, now: seq<seq<A>>, next: seq<A>)
      requires i < |animals|
      requires Batching.Concat(flushed) + batch == Kept(details, transform, animals[..i])
      requires forall k :: 0 <= k < |flushed| ==> |flushed[k]| == BatchSize
      requires now == [] || now == [batch + KeptOne(animals[i])]
      requires now != [] ==> |batch + KeptOne(animals[i])| == BatchSize
      requires Batching.Concat(now) + next == batch + KeptOne(animals[i])
      ensures Batching.Concat(flushed + now) + next == Kept(details, transform, animals[..i + 1])
      ensures forall k :: 0 <= k < |flushed + now| ==> |(flushed + now)[k]| == BatchSize
    {
      KeptStep(animals, i);
      AppendConcat(flushed, now, next, batch, KeptOne(animals[i]));
      AppendFull(flushed, now);
    }

    /** `Kept` grows by one animal's record at a time. */
    lemma KeptStep(animals: seq<Summary>, i: nat)
      requires i < |animals|
      ensures Kept(details, transform, animals[..i + 1]) == Kept(details, transform, animals[..i]) + KeptOne(animals[i])
    {
      assert animals[..i + 1][..i] == animals[..i];
    }

    /** A step from a state with batches already handed over hands over the
        same new ones after them. */
    lemma LoadStepAfter(s: LoadState<A>, animal: Summary)
      requires s.raised.None?
      ensures var t := LoadStep(LoadState(None, s.batch, [], s.calls), animal);
        LoadStep(LoadState(None, s.batch, s.flushed, s.calls), animal)
          == LoadState(t.raised, t.batch, s.flushed + t.flushed, t.calls)
    {
    }

    /** The loop over one more animal, from a state where nothing was raised. */
    lemma LoadedStep(since: nat, animals: seq<Summary>, i: nat, s: LoadState<A>)
      requires i < |animals| && Loaded(since, animals[..i]) == s && s.raised.None?
      ensures var t := LoadStep(LoadState(None, s.batch, [], s.calls), animals[i]);
        Loaded(since, animals[..i + 1]) == LoadState(t.raised, t.batch, s.flushed + t.flushed, t.calls)
    {
      assert animals[..i + 1][..i] == animals[..i];
      LoadStepAfter(s, animals[i]);
    }

    /** `LoadAll` after a loop that raised or left nothing to post. */
    lemma LoadAllStops(since: nat, animals: seq<Summary>, s: LoadState<A>)
      requires Loaded(since, animals) == s && (s.raised.Some? || s.batch == [])
      ensures LoadAll(since, animals) == s
    {
    }

    /** `LoadAll` after a loop that left a remainder to post. */
    lemma LoadAllFlushes(since: nat, animals: seq<Summary>, s: LoadState<A>)
      requires Loaded(since, animals) == s && s.raised.None? && s.batch != []
      ensures LoadAll(since, animals) == Flush(s, s.batch)
    {
    }

    /** Once the loop has raised, the animals after it change nothing. */
    lemma {:induction false} LoadedAborted(since: nat, animals: seq<Summary>, i: nat)
      requires i <= |animals| && Loaded(since, animals[..i]).raised.Some?
      ensures Loaded(since, animals) == Loaded(since, animals[..i])
      decreases |animals| - i
    {
      if i < |animals| {
        assert animals[..i + 1][..i] == animals[..i];
        LoadedAborted(since, animals, i + 1);
      } else {
        assert animals[..i] == animals;
      }
    }

    /** The shape of one step taken from a batch that is not yet full. */
    lemma StepShape(batch: seq<A>, calls: nat, animal: Summary)
      requires |batch| < BatchSize
      ensures var t := LoadStep(LoadState(None, batch, [], calls), animal);
        && (t.flushed == [] || t.flushed == [batch + KeptOne(animal)])
        && (t.flushed != [] ==> |batch + KeptOne(animal)| == BatchSize)
        && (t.raised.None? ==> Batching.Concat(t.flushed) + t.batch == batch + KeptOne(animal) && |t.batch| < BatchSize)
    {
      Batching.ConcatOne(batch + KeptOne(animal));
    }

    /** The calls of one `_post_batch` before its last got a transient status. */
    lemma {:induction false} PostCallsTransient(start: nat, budget: nat)
      ensures forall n: nat :: start <= n < start + PostCalls(start, budget) - 1 ==>
        TransientStatusAnswer(postAnswer(n))
      decreases budget
    {
      if budget > 0 && TransientStatusAnswer(postAnswer(start)) {
        PostCallsTransient(start + 1, budget - 1);
      }
    }

    /** The batches of the loop: without an exception, full batches and the
        batch being filled make up the kept records; with one, the batches
        handed over are a well-cut prefix of them. */
    lemma {:induction false} LoadedBatches(since: nat, animals: seq<Summary>)
      ensures var s := Loaded(since, animals);
        && (s.raised.None? ==> && Batching.Concat(s.flushed) + s.batch == Kept(details, transform, animals)
                               && |s.batch| < BatchSize
                               && (forall k :: 0 <= k < |s.flushed| ==> |s.flushed[k]| == BatchSize))
        && (s.raised.Some? ==> && Batching.WellCut(s.flushed, BatchSize)
                               && Batching.Concat(s.flushed) <= Kept(details, transform, animals))
      decreases |animals|
    {
      if animals != [] {
        var i := |animals| - 1;
        LoadedBatches(since, animals[..i]);
        KeptPrefix(details, transform, animals, i);
        var p := Loaded(since, animals[..i]);
        if p.raised.None? {
          var t := LoadStep(LoadState(None, p.batch, [], p.calls), animals[i]);
          LoadedStep(since, animals, i, p);
          StepShape(p.batch, p.calls, animals[i]);
          assert animals[..i + 1] == animals;
          if t.raised.None? {
            LoopStep(animals, i, p.flushed, p.batch, t.flushed, t.batch);
          } else {
            AbortPrefix(animals, i, p.flushed, p.batch, t.flushed);
          }
        }
      }
    }

    /** The `post_animals` calls of the loop: at least one per batch handed
        over, and none with a fatal answer unless the loop raised. */
    lemma {:induction false} LoadedCalls(since: nat, animals: seq<Summary>)
      ensures var s := Loaded(since, animals);
        && since <= s.calls
        && (retryLimit > 0 ==> s.calls >= since + |s.flushed|)
        && (s.raised.None? ==> forall n: nat :: since <= n < s.calls ==> !Fatal(postAnswer(n)))
      decreases |animals|
    {
      if animals != [] {
        var i := |animals| - 1;
        LoadedCalls(since, animals[..i]);
        var p := Loaded(since, animals[..i]);
        if p.raised.None? {
          LoadedStep(since, animals, i, p);
          PostCallsTransient(p.calls, retryLimit);
          assert animals[..i + 1] == animals;
        }
      }
    }

    /** The loop raises when some animal's details fail fatally, and only then
        or on a fatal answer to the last `post_animals` call. */
    lemma {:induction false} LoadedRaised(since: nat, animals: seq<Summary>)
      ensures var s := Loaded(since, animals);
        && (AnyFatal(details, animals) ==> s.raised.Some?)
        && (s.raised.Some? ==> AnyFatal(details, animals) || (s.calls > since && Fatal(postAnswer(s.calls - 1))))
      decreases |animals|
    {
      if animals != [] {
        var i := |animals| - 1;
        LoadedRaised(since, animals[..i]);
        LoadedCalls(since, animals[..i]);
        AnyFatalLast(details, animals);
        var p := Loaded(since, animals[..i]);
        if p.raised.None? {
          LoadedStep(since, animals, i, p);
          assert animals[..i + 1] == animals;
        }
      }
    }

    lemma LoadedFacts(since: nat, animals: seq<Summary>)
      ensures var s := Loaded(since, animals);
        && (s.raised.None? ==> && Batching.Concat(s.flushed) + s.batch == Kept(details, transform, animals)
                               && |s.batch| < BatchSize
                               && (forall k :: 0 <= k < |s.flushed| ==> |s.flushed[k]| == BatchSize))
        && (s.raised.Some? ==> && Batching.WellCut(s.flushed, BatchSize)
                               && Batching.Concat(s.flushed) <= Kept(details, transform, animals))
        && since <= s.calls
        && (retryLimit > 0 ==> s.calls >= since + |s.flushed|)
        && (s.raised.None? ==> forall n: nat :: since <= n < s.calls ==> !Fatal(postAnswer(n)))
        && (AnyFatal(details, animals) ==> s.raised.Some?)
        && (s.raised.Some? ==> AnyFatal(details, animals) || (s.calls > since && Fatal(postAnswer(s.calls - 1))))
    {
      LoadedBatches(since, animals);
      LoadedCalls(since, animals);
      LoadedRaised(since, animals);
    }

    /** The last `_post_batch` of a non-empty remainder: the batch is handed
        over after the others, and the calls are those of `_post_batch`. */
    lemma FlushFacts(s: LoadState<A>, full: seq<A>)
      ensures var r := Flush(s, full);
        && r.flushed == s.flushed + [full]
        && r.calls == s.calls + PostCallsFrom(s.calls)
        && (retryLimit > 0 ==> r.calls > s.calls)
        && (r.raised.Some? <==> FlushFails(s.calls))
        && (r.raised.Some? ==> r.raised.value == FailureOf(postAnswer(r.calls - 1)))
        && (r.raised.Some? ==> r.calls > s.calls && Fatal(postAnswer(r.calls - 1)))
        && (r.raised.None? ==> forall n: nat :: s.calls <= n < r.calls ==> !Fatal(postAnswer(n)))
    {
      PostCallsTransient(s.calls, retryLimit);
    }

    /** What `LoadAll` says about the outcome of `load_animals`. */
    lemma LoadAllMeans(since: nat, animals: seq<Summary>, raised: Option<Failure>, flushed: seq<seq<A>>, calls: nat)
      requires var r := LoadAll(since, animals); raised == r.raised && flushed == r.flushed && calls == r.calls
      ensures Batching.WellCut(flushed, BatchSize)
      ensures Batching.Concat(flushed) <= Kept(details, transform, animals)
      ensures AnyFatal(details, animals) ==> raised.Some?
      ensures raised.None? ==> flushed == Batching.Chunks(Kept(details, transform, animals), BatchSize)
      ensures raised.Some? ==> AnyFatal(details, animals) || (calls > since && Fatal(postAnswer(calls - 1)))
      ensures raised.None? ==> forall n: nat :: since <= n < calls ==> !Fatal(postAnswer(n))
      ensures since <= calls
      ensures retryLimit > 0 ==> calls >= since + |flushed|
    {
      var r := LoadAll(since, animals);
      assert raised == r.raised && flushed == r.flushed && calls == r.calls;
      LoadAllBatches(since, animals);
      LoadAllCalls(since, animals);
    }

    /** The last flush as `_post_batch` makes it: the calls it makes and the
        exception it raises are those of `Flush`. */
    lemma FlushIs(s: LoadState<A>, raised: Option<Failure>, calls: nat)
      requires calls == s.calls + PostCallsFrom(s.calls)
      requires raised.Some? <==> FlushFails(s.calls)
      requires raised.Some? ==> raised.value == FailureOf(postAnswer(calls - 1))
      ensures Flush(s, s.batch) == LoadState(raised, if raised.Some? then s.batch else [], s.flushed + [s.batch], calls)
    {
    }

    /** The batches of `load_animals`: well cut and, without an exception,
        exactly the slices of 100 of the kept records. */
    lemma LoadAllBatches(since: nat, animals: seq<Summary>)
      ensures var r := LoadAll(since, animals);
        && Batching.WellCut(r.flushed, BatchSize)
        && Batching.Concat(r.flushed) <= Kept(details, transform, animals)
        && (r.raised.None? ==> r.flushed == Batching.Chunks(Kept(details, transform, animals), BatchSize))
    {
      LoadedBatches(since, animals);
      var s := Loaded(since, animals);
      if s.raised.None? {
        FinalFlush(s.flushed, s.batch, Kept(details, transform, animals));
        if s.batch != [] {
          FlushFacts(s, s.batch);
        }
      }
    }

    /** The calls of `load_animals`: it raises when a detail fails fatally, and
        only then or on a fatal answer to the last `post_animals` call, which
        no earlier call got; without an exception no call got one. */
    lemma LoadAllCalls(since: nat, animals: seq<Summary>)
      ensures var r := LoadAll(since, animals);
        && since <= r.calls
        && (retryLimit > 0 ==> r.calls >= since + |r.flushed|)
        && (r.raised.None? ==> forall n: nat :: since <= n < r.calls ==> !Fatal(postAnswer(n)))
        && (AnyFatal(details, animals) ==> r.raised.Some?)
        && (r.raised.Some? ==> AnyFatal(details, animals) || (r.calls > since && Fatal(postAnswer(r.calls - 1))))
    {
      LoadedCalls(since, animals);
      LoadedRaised(since, animals);
      var s := Loaded(since, animals);
      if s.raised.None? && s.batch != [] {
        FlushFacts(s, s.batch);
      }
    }

    /** What has been handed to `_post_batch` when `load_animals` aborts at
        animal `i` is a well-cut prefix of the kept records. */
    lemma AbortPrefix(animals: seq<Summary>, i: nat, flushed: seq<seq<A>>, batch: seq<A>, now: seq<seq<A>>)
      requires i < |animals| && |batch| < BatchSize
      requires Batching.Concat(flushed) + batch == Kept(details, transform, animals[..i])
      requires forall k :: 0 <= k < |flushed| ==> |flushed[k]| == BatchSize
      requires now == [] || now == [batch + KeptOne(animals[i])]
      requires now != [] ==> |batch + KeptOne(animals[i])| == BatchSize
      ensures Batching.WellCut(flushed + now, BatchSize)
      ensures Batching.Concat(flushed + now) <= Kept(details, transform, animals)
    {
      KeptStep(animals, i);
      KeptPrefix(details, transform, animals, i + 1);
      AbortConcat(flushed, now, batch, KeptOne(animals[i]));
      AppendFull(flushed, now);
      FullBatchesWellCut(flushed + now);
    }
  }

  /** Full batches and a non-empty remainder handed over last are the
      slices of 100 of the kept records. */
  lemma FinalFlush<A>(full: seq<seq<A>>, batch: seq<A>, kept: seq<A>)
    requires forall k :: 0 <= k < |full| ==> |full[k]| == BatchSize
    requires |batch| < BatchSize && Batching.Concat(full) + batch == kept
    ensures var flushed := full + (if batch == [] then [] else [batch]);
      && flushed == Batching.Chunks(kept, BatchSize)
      && Batching.WellCut(flushed, BatchSize)
      && Batching.Concat(flushed) == kept
  {
    Batching.ChunksOfFullBatches(full, batch, BatchSize);
    Batching.ChunksWellCut(kept, BatchSize);
    Batching.ChunksConcat(kept, BatchSize);
  }

  lemma AppendConcat<A>(flushed: seq<seq<A>>, now: seq<seq<A>>, next: seq<A>, batch: seq<A>, one: seq<A>)
    requires Batching.Concat(now) + next == batch + one
    ensures Batching.Concat(flushed + now) + next == (Batching.Concat(flushed) + batch) + one
  {
    Batching.ConcatAppend(flushed, now);
    var c := Batching.Concat(flushed);
    assert (c + Batching.Concat(now)) + next == c + (Batching.Concat(now) + next);
    assert c + (batch + one) == (c + batch) + one;
  }

  /** The batches handed over before an abort put back together: the kept
      records before the current animal with or without its own. */
  lemma AbortConcat<A>(flushed: seq<seq<A>>, now: seq<seq<A>>, batch: seq<A>, one: seq<A>)
    requires now == [] || now == [batch + one]
    ensures Batching.Concat(flushed + now) <= Batching.Concat(flushed) + batch + one
  {
    Batching.ConcatAppend(flushed, now);
    var c := Batching.Concat(flushed);
    if now == [] {
      assert Batching.Concat(now) == [];
      assert (c + batch + one)[..|c|] == c;
    } else {
      Batching.ConcatOne(batch + one);
      assert c + (batch + one) == c + batch + one;
    }
  }

  lemma AppendAssoc<A>(a: seq<A>, b: seq<A>, c: seq<A>)
    ensures (a + b) + c == a + (b + c)
  {
  }

  lemma AppendFull<A>(flushed: seq<seq<A>>, now: seq<seq<A>>)
    requires forall k :: 0 <= k < |flushed| ==> |flushed[k]| == BatchSize
    requires forall k :: 0 <= k < |now| ==> |now[k]| == BatchSize
    ensures forall k :: 0 <= k < |flushed + now| ==> |(flushed + now)[k]| == BatchSize
  {
  }

  lemma FullBatchesWellCut<A>(full: seq<seq<A>>)
    requires forall k :: 0 <= k < |full| ==> |full[k]| == BatchSize
    ensures Batching.WellCut(full, BatchSize)
  {
  }
}
