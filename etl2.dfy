/**
 * The asynchronous ETL client of `poc-ETL-2/main.py`.  It walks the listing
 * pages, fetches each animal's details, transforms them (friends to a list,
 * `born_at` to an ISO 8601 UTC string), and posts the results to `/home` in
 * batches of at most 100, retrying a batch on 500/502/503/504.
 *
 * Each HTTP endpoint is a function from the request (page number, animal id,
 * attempt number) to its `Reply`.  Sleeps are ghost events whose durations
 * are bounded the way `random.randint` bounds them.
 */
module Etl2 {
  import opened Wrappers
  import opened Wire
  import Text
  import CivilTime
  import Batching

  const MaxBatchSize: nat := 100
  const RetryWaitMin: int := 3
  const RetryWaitMax: int := 30
  const MaxRetries: nat := 5

  /** `AnimalDetail`: what `GET /animals/{id}` is parsed into. */
  datatype AnimalDetail = AnimalDetail(id: int, name: string, bornAt: Option<int>, friends: Option<string>)

  /** `TransformedAnimal`: what is posted to `/home`. */
  datatype TransformedAnimal = TransformedAnimal(id: int, name: string, bornAt: Option<string>, friends: seq<string>)

  // ---------------------------------------------------------------------------
  // transform_animal
  // ---------------------------------------------------------------------------

  /** Python truthiness of an optional string: `None` and `""` are false. */
  predicate FriendsTruthy(friends: Option<string>) {
    friends.Some? && friends.value != ""
  }

  /** Python truthiness of an optional integer: `None` and `0` are false. */
  predicate BornAtTruthy(bornAt: Option<int>) {
    bornAt.Some? && bornAt.value != 0
  }

  /** The `born_at` values this model converts: falsy ones, and whole-second
      epoch milliseconds from 1970 to the end of year 9999. */
  predicate ConvertibleBornAt(bornAt: Option<int>) {
    BornAtTruthy(bornAt) ==> bornAt.value % 1000 == 0 && CivilTime.Renderable(bornAt.value / 1000)
  }

  predicate Convertible(d: AnimalDetail) {
    ConvertibleBornAt(d.bornAt)
  }

  /** The friends list: the comma-separated pieces of a truthy `friends`, `[]` for `None` or `""`. */
  function SplitFriends(friends: Option<string>): (r: seq<string>)
    ensures r == [] <==> !FriendsTruthy(friends)
    ensures FriendsTruthy(friends) ==>
      && |r| == Text.Count(friends.value, ',') + 1
      && Text.Join(r, ',') == friends.value
      && Text.SeparatorFree(r, ',')
  {
    if FriendsTruthy(friends) then
      Text.SplitLength(friends.value, ',');
      Text.JoinSplit(friends.value, ',');
      Text.SplitSeparatorFree(friends.value, ',');
      Text.Split(friends.value, ',')
    else []
  }

  /** A truthy `born_at` (milliseconds) as its UTC ISO 8601 string followed by `Z`; `None` otherwise. */
  function RenderBornAt(bornAt: Option<int>): (r: Option<string>)
    requires ConvertibleBornAt(bornAt)
    ensures r.Some? <==> BornAtTruthy(bornAt)
    ensures r.Some? ==>
      && |r.value| == 20
      && r.value[19] == 'Z'
      && CivilTime.IsoTimestamp(r.value[..19]) == Some(bornAt.value / 1000)
  {
    if BornAtTruthy(bornAt) then
      var secs := bornAt.value / 1000;
      var iso := CivilTime.UtcIsoFormat(secs);
      CivilTime.IsoTimestampOfUtcIsoFormat(secs);
      assert (iso + "Z")[..19] == iso;
      Some(iso + "Z")
    else None
  }

  /** `transform_animal`: friends split on commas unless falsy, a truthy
      `born_at` rendered as `utcfromtimestamp(born_at / 1000).isoformat() + "Z"`. */
  function TransformAnimal(d: AnimalDetail): (r: TransformedAnimal)
    requires Convertible(d)
    ensures r.id == d.id && r.name == d.name
    ensures r.friends == [] <==> !FriendsTruthy(d.friends)
    ensures FriendsTruthy(d.friends) ==>
      && |r.friends| == Text.Count(d.friends.value, ',') + 1
      && Text.Join(r.friends, ',') == d.friends.value
      && Text.SeparatorFree(r.friends, ',')
    ensures r.bornAt.Some? <==> BornAtTruthy(d.bornAt)
    ensures r.bornAt.Some? ==>
      && |r.bornAt.value| == 20
      && r.bornAt.value[19] == 'Z'
      && CivilTime.IsoTimestamp(r.bornAt.value[..19]) == Some(d.bornAt.value / 1000)
  {
    TransformedAnimal(d.id, d.name, RenderBornAt(d.bornAt), SplitFriends(d.friends))
  }

  /** The example of the client's tests: 1655323200000 ms is
      2022-06-15T20:00:00Z, and "Tiger,Elephant" is two friends. */
  lemma TransformAnimalExample()
    ensures TransformAnimal(AnimalDetail(1, "Lion", Some(1655323200000), Some("Tiger,Elephant")))
         == TransformedAnimal(1, "Lion", Some("2022-06-15T20:00:00Z"), ["Tiger", "Elephant"])
  {
    RenderBornAtExample();
    Text.SplitExample();
  }

  lemma RenderBornAtExample()
    ensures ConvertibleBornAt(Some(1655323200000))
    ensures RenderBornAt(Some(1655323200000)) == Some("2022-06-15T20:00:00Z")
  {
    assert 1655323200000 / 1000 == 1655323200;
    CivilTime.UtcIsoFormatExample();
    assert "2022-06-15T20:00:00" + "Z" == "2022-06-15T20:00:00Z";
  }

  // ---------------------------------------------------------------------------
  // fetch_animals
  // ---------------------------------------------------------------------------

  /** The loop goes on past `page`: the request succeeded and `page < total_pages`. */
  predicate Continues(listing: nat -> Reply<Listing>, page: nat) {
    listing(page).Ok? && page < listing(page).body.totalPages
  }

  /** Some page ends the loop (otherwise `fetch_animals` never returns). */
  ghost predicate Terminates(listing: nat -> Reply<Listing>) {
    exists page: nat :: page >= 1 && !Continues(listing, page)
  }

  /** Pages `1..k - 1` all go on. */
  ghost predicate ContinuesBefore(listing: nat -> Reply<Listing>, k: nat) {
    forall q: nat :: 1 <= q < k ==> listing(q).Ok? && q < listing(q).body.totalPages
  }

  lemma {:induction false} FirstStopExists(listing: nat -> Reply<Listing>, page: nat)
    requires page >= 1 && !Continues(listing, page)
    ensures exists k: nat :: 1 <= k <= page && !Continues(listing, k) && ContinuesBefore(listing, k)
    decreases page
  {
    if exists q: nat :: 1 <= q < page && !Continues(listing, q) {
      var q: nat :| 1 <= q < page && !Continues(listing, q);
      FirstStopExists(listing, q);
    } else {
      assert ContinuesBefore(listing, page) by {
        forall q: nat | 1 <= q < page
          ensures listing(q).Ok? && q < listing(q).body.totalPages
        {
          assert Continues(listing, q);
        }
      }
    }
  }

  /** The last page `fetch_animals` requests: the first one that does not go on. */
  ghost function FirstStop(listing: nat -> Reply<Listing>): (k: nat)
    requires Terminates(listing)
    ensures k >= 1 && !Continues(listing, k) && ContinuesBefore(listing, k)
  {
    var page: nat :| page >= 1 && !Continues(listing, page);
    FirstStopExists(listing, page);
    var k: nat :| 1 <= k <= page && !Continues(listing, k) && ContinuesBefore(listing, k);
    k
  }

  /** The items of pages `1..k`, in page order. */
  function Collected(listing: nat -> Reply<Listing>, k: nat): (r: seq<Summary>)
    requires forall q: nat :: 1 <= q <= k ==> listing(q).Ok?
    ensures forall q: nat, j :: 1 <= q <= k && 0 <= j < |listing(q).body.items| ==>
      listing(q).body.items[j] in r
  {
    if k == 0 then [] else Collected(listing, k - 1) + listing(k).body.items
  }

  /** What `fetch_animals` returns or raises. */
  ghost function Fetched(listing: nat -> Reply<Listing>): (r: Reply<seq<Summary>>)
    requires Terminates(listing)
    ensures r.Ok? <==> forall q: nat :: 1 <= q <= FirstStop(listing) ==> listing(q).Ok?
  {
    var k := FirstStop(listing);
    if listing(k).Ok? then Ok(Collected(listing, k)) else Reraise(listing(k))
  }

  /** `fetch_animals`: pages 1, 2, ... are requested until one has
      `page >= total_pages`; their items are concatenated in page order, and the
      first failed request propagates with no retry. */
  method FetchAnimals(listing: nat -> Reply<Listing>) returns (result: Reply<seq<Summary>>, requests: nat)
    requires Terminates(listing)
    ensures requests == FirstStop(listing)
    ensures result == Fetched(listing)
  {
    ghost var last := FirstStop(listing);
    var page: nat := 1;
    var animals: seq<Summary> := [];
    while true
      invariant 1 <= page <= last
      invariant ContinuesBefore(listing, page)
      invariant animals == Collected(listing, page - 1)
      decreases last - page
    {
      var response := listing(page);
      if !response.Ok? {
        return Reraise(response), page;
      }
      animals := animals + response.body.items;
      if page >= response.body.totalPages {
        return Ok(animals), page;
      }
      page := page + 1;
    }
  }

  /** With the same `total_pages` T on every page, pages `1..max(T, 1)` are
      requested: T requests when T >= 1. */
  lemma ConstantTotalPages(listing: nat -> Reply<Listing>, t: int)
    requires forall p: nat :: listing(p).Ok? && listing(p).body.totalPages == t
    ensures Terminates(listing)
    ensures FirstStop(listing) == if t >= 1 then t else 1
  {
    var last: nat := if t >= 1 then t else 1;
    assert !Continues(listing, last);
  }

  // ---------------------------------------------------------------------------
  // post_animals_batch
  // ---------------------------------------------------------------------------

  /** How a call of `post_animals_batch` ends. */
  datatype PostOutcome =
    | Posted              // a 2xx answer
    | Rejected(status: int) // a non-transient status: one error log, no retry
    | Exhausted           // MaxRetries transient failures in a row
    | Unbound             // a network error on the first attempt: `response`
                          // is read before assignment and `UnboundLocalError` escapes

  /** Attempt `j` is followed by another one (if the limit allows): a transient
      status, or a network error after an earlier transient status, which is
      the one that line 90 reads because `response` still holds it. */
  predicate Retried(post: nat -> Reply<()>, j: nat) {
    || (post(j).StatusError? && IsTransientStatus(post(j).status))
    || (j > 0 && post(j).RequestError?)
  }

  /** How many attempts `post_animals_batch` makes when attempt `j` is
      reached: it stops at the first attempt that is not retried, or at the
      limit. */
  function AttemptsFrom(post: nat -> Reply<()>, j: nat): (n: nat)
    requires j < MaxRetries
    ensures j < n <= MaxRetries
    decreases MaxRetries - j
  {
    if j == MaxRetries - 1 || !Retried(post, j) then j + 1 else AttemptsFrom(post, j + 1)
  }

  /** `AttemptsFrom` is the first attempt from `i` on that is not retried. */
  lemma {:induction false} AttemptsFromValue(post: nat -> Reply<()>, i: nat, n: nat)
    requires i < n <= MaxRetries
    requires forall j: nat :: i <= j < n - 1 ==> Retried(post, j)
    requires n < MaxRetries ==> !Retried(post, n - 1)
    ensures AttemptsFrom(post, i) == n
    decreases n - i
  {
    if i < n - 1 {
      AttemptsFromValue(post, i + 1, n);
    }
  }

  /** `post_animals_batch`: attempt `j` gets the answer `post(j)`. */
  method PostAnimalsBatch(batch: seq<TransformedAnimal>, post: nat -> Reply<()>)
    returns (outcome: PostOutcome, calls: nat, ghost waits: seq<int>)
    ensures 1 <= calls <= MaxRetries
    ensures calls == AttemptsFrom(post, 0)
    ensures forall j: nat :: j < calls - 1 ==> Retried(post, j)
    ensures outcome == Posted <==> post(calls - 1).Ok?
    ensures outcome.Rejected? <==>
      post(calls - 1).StatusError? && !IsTransientStatus(post(calls - 1).status)
    ensures outcome.Rejected? ==> outcome.status == post(calls - 1).status
    ensures outcome == Unbound <==> calls == 1 && post(0).RequestError?
    ensures outcome == Exhausted <==> calls == MaxRetries && Retried(post, calls - 1)
    ensures |waits| == if outcome == Exhausted then calls else calls - 1
    ensures forall k :: 0 <= k < |waits| ==> RetryWaitMin <= waits[k] <= RetryWaitMax
  {
    var retries: nat := 0;
    var lastStatus: Option<int> := None;
    calls := 0;
    waits := [];
    while retries < MaxRetries
      invariant calls == retries <= MaxRetries && |waits| == retries
      invariant forall j: nat :: j < calls ==> Retried(post, j)
      invariant lastStatus.None? <==> calls == 0
      invariant lastStatus.Some? ==> IsTransientStatus(lastStatus.value)
      invariant forall k :: 0 <= k < |waits| ==> RetryWaitMin <= waits[k] <= RetryWaitMax
    {
      var response := post(calls);
      calls := calls + 1;
      if response.Ok? {
        AttemptsFromValue(post, 0, calls);
        return Posted, calls, waits;
      }
      if response.StatusError? {
        lastStatus := Some(response.status);
      }
      if lastStatus.None? {
        AttemptsFromValue(post, 0, calls);
        return Unbound, calls, waits;
      }
      if IsTransientStatus(lastStatus.value) {
        retries := retries + 1;
        ghost var wait: int :| RetryWaitMin <= wait <= RetryWaitMax;
        waits := waits + [wait];
      } else {
        AttemptsFromValue(post, 0, calls);
        return Rejected(lastStatus.value), calls, waits;
      }
    }
    assert Retried(post, calls - 1);
    AttemptsFromValue(post, 0, calls);
    outcome := Exhausted;
  }

  // ---------------------------------------------------------------------------
  // main
  // ---------------------------------------------------------------------------

  /** Every listed animal's details were fetched successfully. */
  predicate DetailsAvailable(detail: int -> Reply<AnimalDetail>, items: seq<Summary>) {
    forall j :: 0 <= j < |items| ==> detail(items[j].id).Ok?
  }

  /** Every detail the server answers with is one this model converts. */
  ghost predicate AllConvertible(detail: int -> Reply<AnimalDetail>) {
    forall id :: detail(id).Ok? ==> Convertible(detail(id).body)
  }

  /** `all_transformed_animals` after the detail loop: one record per summary, in order. */
  function TransformedAll(detail: int -> Reply<AnimalDetail>, items: seq<Summary>): (r: seq<TransformedAnimal>)
    requires AllConvertible(detail) && DetailsAvailable(detail, items)
    ensures |r| == |items|
    ensures forall j :: 0 <= j < |items| ==> r[j] == TransformAnimal(detail(items[j].id).body)
  {
    if items == [] then []
    else
      var init := items[..|items| - 1];
      assert forall j :: 0 <= j < |init| ==> init[j] == items[j];
      TransformedAll(detail, init) + [TransformAnimal(detail(items[|items| - 1].id).body)]
  }

  lemma TransformedAllStep(detail: int -> Reply<AnimalDetail>, items: seq<Summary>, i: nat)
    requires AllConvertible(detail) && i < |items|
    requires DetailsAvailable(detail, items[..i]) && detail(items[i].id).Ok?
    ensures DetailsAvailable(detail, items[..i + 1])
    ensures TransformedAll(detail, items[..i + 1])
         == TransformedAll(detail, items[..i]) + [TransformAnimal(detail(items[i].id).body)]
  {
    assert items[..i + 1][..i] == items[..i];
  }

  /** The detail loop of `main`: details of every summary, in order, each
      transformed; the first failed request propagates. */
  method TransformDetails(detail: int -> Reply<AnimalDetail>, items: seq<Summary>)
    returns (result: Option<seq<TransformedAnimal>>)
    requires AllConvertible(detail)
    ensures result.Some? <==> DetailsAvailable(detail, items)
    ensures result.Some? ==> result.value == TransformedAll(detail, items)
  {
    var all: seq<TransformedAnimal> := [];
    var i := 0;
    while i < |items|
      invariant 0 <= i <= |items|
      invariant DetailsAvailable(detail, items[..i])
      invariant all == TransformedAll(detail, items[..i])
    {
      var d := detail(items[i].id);
      if !d.Ok? {
        return None;
      }
      TransformedAllStep(detail, items, i);
      all := all + [TransformAnimal(d.body)];
      i := i + 1;
    }
    assert items[..i] == items;
    return Some(all);
  }

  /** The answers of the whole posting loop seen from attempt `start` on. */
  function Shift(post: nat -> Reply<()>, start: nat): nat -> Reply<()> {
    (j: nat) => post(start + j)
  }

  /** The attempt at which the batch after the one begun at attempt `start` begins. */
  function NextStart(post: nat -> Reply<()>, start: nat): (next: nat)
    ensures start < next <= start + MaxRetries
  {
    start + AttemptsFrom(Shift(post, start), 0)
  }

  /** `starts[k]` is the attempt at which batch `k` begins: the first at 0,
      each next one right after the attempts of the one before. */
  predicate StartsChained(post: nat -> Reply<()>, starts: seq<nat>) {
    && (starts != [] ==> starts[0] == 0)
    && (forall k :: 0 < k < |starts| ==> starts[k] == NextStart(post, starts[k - 1]))
  }

  /** What the posting loop did with `all`, the batches it handed over being
      `posted` and batch `k` beginning at attempt `starts[k]`: it handed over
      the slices of 100 in order, and it stopped early exactly when the
      first attempt of the last handed-over batch met a network error. */
  predicate PostedAsWritten(all: seq<TransformedAnimal>, post: nat -> Reply<()>,
                            posted: seq<seq<TransformedAnimal>>, failed: bool, starts: seq<nat>) {
    && posted <= Batching.Chunks(all, MaxBatchSize)
    && |starts| == |posted|
    && StartsChained(post, starts)
    && (forall k :: 0 <= k < |posted| - 1 ==> !post(starts[k]).RequestError?)
    && (failed <==> posted != [] && post(starts[|posted| - 1]).RequestError?)
    && (!failed ==> posted == Batching.Chunks(all, MaxBatchSize))
  }

  /** Appending the start of the next batch keeps the chain. */
  lemma StartsChainedStep(post: nat -> Reply<()>, starts: seq<nat>, start: nat)
    requires StartsChained(post, starts)
    requires start == if starts == [] then 0 else NextStart(post, starts[|starts| - 1])
    ensures StartsChained(post, starts + [start])
  {
    var longer := starts + [start];
    forall k | 0 < k < |longer|
      ensures longer[k] == NextStart(post, longer[k - 1])
    {
      assert longer[k - 1] == starts[k - 1];
      if k < |starts| {
        assert longer[k] == starts[k];
      }
    }
  }

  /** A list of batches followed by more batches begins with the first list. */
  lemma PrefixOfSum<T>(whole: seq<T>, front: seq<T>, back: seq<T>)
    requires whole == front + back
    ensures front <= whole
  {
    assert whole[..|front|] == front;
  }

  /** Without network errors the loop hands over all `ceil(|all| / 100)` slices. */
  lemma PostedWithoutNetworkErrors(all: seq<TransformedAnimal>, post: nat -> Reply<()>,
                                   posted: seq<seq<TransformedAnimal>>, failed: bool, starts: seq<nat>)
    requires PostedAsWritten(all, post, posted, failed, starts)
    requires forall n: nat :: !post(n).RequestError?
    ensures !failed && posted == Batching.Chunks(all, MaxBatchSize)
    ensures |posted| == (|all| + MaxBatchSize - 1) / MaxBatchSize
  {
    Batching.ChunksCount(all, MaxBatchSize);
  }

  /** The posting loop of `main`: consecutive slices of 100, each handed to
      `post_animals_batch`, until the end or until an `UnboundLocalError`
      escapes (`failed`).  Attempt `j` of the whole loop gets the answer `post(j)`. */
  method PostInBatches(all: seq<TransformedAnimal>, post: nat -> Reply<()>)
    returns (posted: seq<seq<TransformedAnimal>>, failed: bool, ghost starts: seq<nat>)
    ensures posted <= Batching.Chunks(all, MaxBatchSize)
    ensures failed ==> posted != []
    ensures !failed ==> posted == Batching.Chunks(all, MaxBatchSize)
    ensures PostedAsWritten(all, post, posted, failed, starts)
  {
    posted := [];
    failed := false;
    starts := [];
    var offset: nat := 0;
    var i := 0;
    while i < |all|
      invariant Batching.Chunks(all, MaxBatchSize) == posted + Batching.Chunks(Batching.Drop(all, i), MaxBatchSize)
      invariant |starts| == |posted| && StartsChained(post, starts)
      invariant offset == if starts == [] then 0 else NextStart(post, starts[|starts| - 1])
      invariant forall k :: 0 <= k < |posted| ==> !post(starts[k]).RequestError?
      decreases |all| - i
    {
      var batch := all[i..if i + MaxBatchSize <= |all| then i + MaxBatchSize else |all|];
      ChunksAdvance(all, i, posted);
      var start := offset;
      var outcome, calls, _ := PostAnimalsBatch(batch, Shift(post, start));
      StartsChainedStep(post, starts, start);
      posted := posted + [batch];
      starts := starts + [start];
      offset := offset + calls;
      if outcome == Unbound {
        assert Shift(post, start)(0) == post(start);
        PostedStopped(all, post, posted, starts, Batching.Chunks(Batching.Drop(all, i + MaxBatchSize), MaxBatchSize));
        return posted, true, starts;
      }
      assert Shift(post, start)(0) == post(start);
      i := i + MaxBatchSize;
    }
    assert Batching.Drop(all, i) == [];
    PostedAll(all, post, posted, starts);
  }

  /** The loop went through every slice without a network error on a first attempt. */
  lemma PostedAll(all: seq<TransformedAnimal>, post: nat -> Reply<()>,
                  posted: seq<seq<TransformedAnimal>>, starts: seq<nat>)
    requires Batching.Chunks(all, MaxBatchSize) == posted + Batching.Chunks([], MaxBatchSize)
    requires |starts| == |posted| && StartsChained(post, starts)
    requires forall k :: 0 <= k < |posted| ==> !post(starts[k]).RequestError?
    ensures PostedAsWritten(all, post, posted, false, starts)
  {
    assert posted + [] == posted;
  }

  /** One more slice handed over: the slices still to come start `MaxBatchSize` further on. */
  lemma ChunksAdvance(all: seq<TransformedAnimal>, i: nat, posted: seq<seq<TransformedAnimal>>)
    requires i < |all|
    requires Batching.Chunks(all, MaxBatchSize) == posted + Batching.Chunks(Batching.Drop(all, i), MaxBatchSize)
    ensures var hi := if i + MaxBatchSize <= |all| then i + MaxBatchSize else |all|;
      Batching.Chunks(all, MaxBatchSize)
        == (posted + [all[i..hi]]) + Batching.Chunks(Batching.Drop(all, i + MaxBatchSize), MaxBatchSize)
  {
    Batching.ChunksStep(all, i, MaxBatchSize);
  }

  /** The loop stopped by a network error on the first attempt of its last batch. */
  lemma PostedStopped(all: seq<TransformedAnimal>, post: nat -> Reply<()>,
                      posted: seq<seq<TransformedAnimal>>, starts: seq<nat>, rest: seq<seq<TransformedAnimal>>)
    requires Batching.Chunks(all, MaxBatchSize) == posted + rest
    requires |starts| == |posted| && posted != [] && StartsChained(post, starts)
    requires forall k :: 0 <= k < |posted| - 1 ==> !post(starts[k]).RequestError?
    requires post(starts[|posted| - 1]).RequestError?
    ensures PostedAsWritten(all, post, posted, true, starts)
  {
    PrefixOfSum(Batching.Chunks(all, MaxBatchSize), posted, rest);
  }

  /** `main`: fetch, fetch details and transform, then post in slices of 100.
      Every exception ends the run and is logged (`failed`); nothing is posted
      unless every fetch succeeded.  `posted` are the batches handed to
      `post_animals_batch`, in order. */
  method Run(listing: nat -> Reply<Listing>, detail: int -> Reply<AnimalDetail>, post: nat -> Reply<()>)
    returns (posted: seq<seq<TransformedAnimal>>, failed: bool, ghost starts: seq<nat>)
    requires Terminates(listing) && AllConvertible(detail)
    ensures !Fetched(listing).Ok? ==> posted == [] && failed
    ensures Fetched(listing).Ok? && !DetailsAvailable(detail, Fetched(listing).body) ==> posted == [] && failed
    ensures Fetched(listing).Ok? && DetailsAvailable(detail, Fetched(listing).body) ==>
      PostedAsWritten(TransformedAll(detail, Fetched(listing).body), post, posted, failed, starts)
  {
    starts := [];
    var animals, _ := FetchAnimals(listing);
    if !animals.Ok? {
      return [], true, starts;
    }
    var all := TransformDetails(detail, animals.body);
    if all.None? {
      return [], true, starts;
    }
    posted, failed, starts := PostInBatches(all.value, post);
  }
}
