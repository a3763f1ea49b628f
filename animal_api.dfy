/**
 * The animals server of `app/animal_api.py` (`server-app/animal_api.py` is
 * the same file): the animal list it generates at start-up, the listing and
 * detail endpoints read from it, and `POST /home`, which accepts up to 100
 * animals and, with `VERIFY=1`, ticks each posted id off a set.
 *
 * The random draws of `generate_animals` are parameters (`Draw`), each in the
 * range its `random` call covers; `TOTAL_PAGES` and the clock are parameters
 * too.  An exception inside a handler answers 500.
 */
module AnimalApi {
  import opened Wrappers
  import opened Wire
  import Text

  const PageSize: nat := 10
  const MinTotalPages: nat := 500
  const MaxTotalPages: nat := 600
  const MaxIncoming: nat := 100
  /** `536461200 * 1000`: the earliest generated `born_at` (1987-01-01 01:00 UTC). */
  const EarliestBornAt: int := 536461200000

  /** `IncomingAnimal`: one element of a `POST /home` body. */
  datatype IncomingAnimal = IncomingAnimal(id: int, name: string, bornAt: Option<string>, friends: seq<string>)

  // ---------------------------------------------------------------------------
  // generate_animals
  // ---------------------------------------------------------------------------

  /** The random draws for one animal: `randint(0, 5)`, `randint(536461200 * 1000, now)`
      (used only when the first is 1), the index `choice` picks, and the
      indices `sample(animal_names, randint(0, 5))` picks. */
  datatype Draw = Draw(roll: int, bornAt: int, nameIndex: int, friendIndices: seq<int>)

  /** Each draw lies in the range of the `random` call that makes it. */
  predicate ValidDraw(d: Draw, names: seq<string>, now: int) {
    && 0 <= d.roll <= 5
    && (d.roll == 1 ==> EarliestBornAt <= d.bornAt <= now)
    && 0 <= d.nameIndex < |names|
    && |d.friendIndices| <= 5
    && IndicesIn(d.friendIndices, |names|)
    && (forall k, l :: 0 <= k < l < |d.friendIndices| ==> d.friendIndices[k] != d.friendIndices[l])
  }

  /** Every index is a position of a sequence of length `n`. */
  predicate IndicesIn(indices: seq<int>, n: nat) {
    forall k :: 0 <= k < |indices| ==> 0 <= indices[k] < n
  }

  /** The names at the given positions, in the order drawn. */
  function Picked(names: seq<string>, indices: seq<int>): (r: seq<string>)
    ensures |r| == |indices|
    ensures IndicesIn(indices, |names|) ==> forall k :: 0 <= k < |r| ==> r[k] == names[indices[k]]
  {
    seq(|indices|, k requires 0 <= k < |indices| => if 0 <= indices[k] < |names| then names[indices[k]] else "")
  }

  /** The animal at position `i` has id `i`. */
  predicate IdsAreIndices(animals: seq<Animal>) {
    forall i :: 0 <= i < |animals| ==> animals[i].id == i
  }

  /** `ANIMALS = list(generate_animals())`: `totalPages * PageSize` animals,
      numbered from 0, each born in `[536461200000, now]` or not at all, named
      from `names`, with the comma-join of at most five names drawn at
      distinct positions as friends. */
  method GenerateAnimals(totalPages: nat, now: int, names: seq<string>, draws: seq<Draw>) returns (animals: seq<Animal>)
    requires |draws| == totalPages * PageSize
    requires forall i :: 0 <= i < |draws| ==> ValidDraw(draws[i], names, now)
    ensures |animals| == totalPages * PageSize
    ensures IdsAreIndices(animals)
    ensures forall i :: 0 <= i < |animals| ==>
      && (animals[i].bornAt.Some? <==> draws[i].roll == 1)
      && (animals[i].bornAt.Some? ==> EarliestBornAt <= animals[i].bornAt.value <= now)
      && animals[i].name in names
      && animals[i].friends == Text.Join(Picked(names, draws[i].friendIndices), ',')
  {
    animals := [];
    for i := 0 to totalPages * PageSize
      invariant |animals| == i
      invariant IdsAreIndices(animals)
      invariant forall j :: 0 <= j < i ==>
        && (animals[j].bornAt.Some? <==> draws[j].roll == 1)
        && (animals[j].bornAt.Some? ==> EarliestBornAt <= animals[j].bornAt.value <= now)
        && animals[j].name in names
        && animals[j].friends == Text.Join(Picked(names, draws[j].friendIndices), ',')
    {
      var d := draws[i];
      var bornAt: Option<int> := None;
      if d.roll == 1 {
        bornAt := Some(d.bornAt);
      }
      var friends := Text.Join(Picked(names, d.friendIndices), ',');
      animals := animals + [Animal(i, names[d.nameIndex], bornAt, friends)];
    }
  }

  /** With distinct names in `animals.json`, an animal's friends are distinct
      names, at most five of them. */
  lemma PickedDistinct(names: seq<string>, d: Draw, now: int)
    requires ValidDraw(d, names, now)
    requires forall k, l :: 0 <= k < l < |names| ==> names[k] != names[l]
    ensures |Picked(names, d.friendIndices)| <= 5
    ensures forall k, l :: 0 <= k < l < |d.friendIndices| ==>
      Picked(names, d.friendIndices)[k] != Picked(names, d.friendIndices)[l]
  {
    var p := Picked(names, d.friendIndices);
    forall k, l | 0 <= k < l < |d.friendIndices|
      ensures p[k] != p[l]
    {
      var a, b := d.friendIndices[k], d.friendIndices[l];
      if a < b {
        assert names[a] != names[b];
      } else {
        assert names[b] != names[a];
      }
    }
  }

  // ---------------------------------------------------------------------------
  // get_animals and get_animal
  // ---------------------------------------------------------------------------

  /** A Python slice index normalised against length `n`: negative counts
      from the end, and the result is clamped to `[0, n]`. */
  function SliceIndex(i: int, n: nat): (r: nat)
    ensures r <= n
    ensures 0 <= i <= n ==> r == i
    ensures -(n as int) <= i < 0 ==> r as int == n as int + i
    ensures i > n ==> r == n
    ensures i < -(n as int) ==> r == 0
  {
    if i < 0 then (if i + n < 0 then 0 else i + n) else if i > n then n else i
  }

  /** `xs[start:end]` in Python. */
  function PySlice<T>(xs: seq<T>, start: int, end: int): (r: seq<T>)
    ensures |r| <= |xs|
  {
    var lo := SliceIndex(start, |xs|);
    var hi := SliceIndex(end, |xs|);
    if lo < hi then xs[lo..hi] else []
  }

  /** `a.dict(exclude={"friends"})`. */
  function Strip(a: Animal): (s: Summary)
    ensures s.id == a.id && s.name == a.name && s.bornAt == a.bornAt
  {
    Summary(a.id, a.name, a.bornAt)
  }

  /** `get_animals(page)`: the animals `ANIMALS[10 * (page - 1) : 10 * page]` without their friends.
      The endpoint's default `page = 1` is not modelled: `page` is always given. */
  function GetAnimals(animals: seq<Animal>, totalPages: int, page: int): (r: Listing)
    ensures r.page == page && r.totalPages == totalPages
    ensures |r.items| <= PageSize
  {
    var start := PageSize * (page - 1);
    var slice := PySlice(animals, start, start + PageSize);
    Listing(page, totalPages, seq(|slice|, k requires 0 <= k < |slice| => Strip(slice[k])))
  }

  /** A page inside the listing holds the ten consecutive animals that start
      at id `10 * (page - 1)`, without their friends, in order. */
  lemma GetAnimalsPage(animals: seq<Animal>, totalPages: nat, page: int)
    requires |animals| == totalPages * PageSize && IdsAreIndices(animals)
    requires 1 <= page <= totalPages
    ensures var items := GetAnimals(animals, totalPages, page).items;
      && |items| == PageSize
      && forall k :: 0 <= k < PageSize ==>
        items[k] == Strip(animals[PageSize * (page - 1) + k]) && items[k].id == PageSize * (page - 1) + k
  {
    var start := PageSize * (page - 1);
    assert start + PageSize <= |animals| by {
      assert PageSize * page <= PageSize * totalPages;
    }
  }

  /** A page past the last one, or page 0, is empty. */
  lemma GetAnimalsOutside(animals: seq<Animal>, totalPages: nat, page: int)
    requires |animals| == totalPages * PageSize
    requires page > totalPages || page == 0
    ensures GetAnimals(animals, totalPages, page).items == []
  {
    if page > totalPages {
      assert PageSize * (page - 1) >= PageSize * totalPages;
    }
  }

  /** A negative page counts from the end, as Python's negative slice
      indices do: page -1 is the ten animals before the last ten. */
  lemma GetAnimalsNegative(animals: seq<Animal>, totalPages: int, page: int)
    requires page < 0 && PageSize * (1 - page) <= |animals|
    ensures var items := GetAnimals(animals, totalPages, page).items;
      && |items| == PageSize
      && forall k :: 0 <= k < PageSize ==>
        items[k] == Strip(animals[|animals| + PageSize * (page - 1) + k])
  {
  }

  /** `get_animal(animal_id)`: `ANIMALS[animal_id]`, with Python's negative
      indices; an index out of range raises `IndexError`, answered with 500. */
  function GetAnimal(animals: seq<Animal>, animalId: int): (r: Reply<Animal>)
    ensures r.Ok? <==> -|animals| <= animalId < |animals|
    ensures r.Ok? && animalId >= 0 ==> r.body == animals[animalId]
    ensures r.Ok? && animalId < 0 ==> r.body == animals[|animals| + animalId]
    ensures !r.Ok? ==> r == StatusError(500)
  {
    if 0 <= animalId < |animals| then Ok(animals[animalId])
    else if -|animals| <= animalId < 0 then Ok(animals[|animals| + animalId])
    else StatusError(500)
  }

  /** The animal served for a valid id is the one with that id. */
  lemma GetAnimalById(animals: seq<Animal>, animalId: int)
    requires IdsAreIndices(animals) && 0 <= animalId < |animals|
    ensures GetAnimal(animals, animalId).Ok? && GetAnimal(animals, animalId).body.id == animalId
  {
  }

  // ---------------------------------------------------------------------------
  // receive_animals
  // ---------------------------------------------------------------------------

  /** The ids of a posted body, in order. */
  function Ids(incoming: seq<IncomingAnimal>): (ids: seq<int>)
    ensures |ids| == |incoming|
    ensures forall k :: 0 <= k < |ids| ==> ids[k] == incoming[k].id
  {
    seq(|incoming|, k requires 0 <= k < |incoming| => incoming[k].id)
  }

  /** The result of `set.remove` for each id in turn: whether all of them
      were present, and the set that is left (up to the first missing id). */
  datatype Removal = Removal(ok: bool, left: set<int>)

  function RemoveEach(s: set<int>, ids: seq<int>): (r: Removal)
    ensures r.left <= s
    decreases |ids|
  {
    if ids == [] then Removal(true, s)
    else if ids[0] in s then RemoveEach(s - {ids[0]}, ids[1..])
    else Removal(false, s)
  }

  /** The ids at positions `0..j - 1`. */
  function Before(ids: seq<int>, j: int): set<int> {
    set k | 0 <= k < j && k < |ids| :: ids[k]
  }

  /** No id occurs twice. */
  predicate Distinct(ids: seq<int>) {
    forall k, l :: 0 <= k < l < |ids| ==> ids[k] != ids[l]
  }

  /** The first `j + 1` ids are the first id and the first `j` of the rest. */
  lemma BeforeCons(ids: seq<int>, j: int)
    requires 0 <= j < |ids|
    ensures Before(ids, j + 1) == {ids[0]} + Before(ids[1..], j)
  {
    var rest := ids[1..];
    forall y | y in Before(ids, j + 1) ensures y in {ids[0]} + Before(rest, j) {
      var k :| 0 <= k < j + 1 && k < |ids| && ids[k] == y;
      if k > 0 { assert rest[k - 1] == y; }
    }
    forall y | y in Before(rest, j) ensures y in Before(ids, j + 1) {
      var k :| 0 <= k < j && k < |rest| && rest[k] == y;
      assert ids[k + 1] == y;
    }
  }

  /** Ids are distinct when the first one does not recur and the rest are distinct. */
  lemma DistinctCons(ids: seq<int>)
    requires ids != []
    ensures Distinct(ids) <==> ids[0] !in ids[1..] && Distinct(ids[1..])
  {
    var rest := ids[1..];
    if Distinct(ids) {
      forall k, l | 0 <= k < l < |rest| ensures rest[k] != rest[l] {
        assert ids[k + 1] != ids[l + 1];
      }
    }
    if ids[0] !in rest && Distinct(rest) {
      forall k, l | 0 <= k < l < |ids| ensures ids[k] != ids[l] {
        assert ids[l] == rest[l - 1];
        if k > 0 { assert ids[k] == rest[k - 1]; }
      }
    }
  }

  /** Whether every id is in `s`. */
  predicate AllIn(ids: seq<int>, s: set<int>) {
    forall k :: 0 <= k < |ids| ==> ids[k] in s
  }

  /** When the first id does not recur, the ids are all in `s` exactly when
      the first is and the rest are in `s` without it. */
  lemma AllInCons(ids: seq<int>, s: set<int>)
    requires ids != [] && ids[0] !in ids[1..]
    ensures AllIn(ids, s) <==> ids[0] in s && AllIn(ids[1..], s - {ids[0]})
  {
    var rest := ids[1..];
    if AllIn(ids, s) {
      forall k | 0 <= k < |rest| ensures rest[k] in s - {ids[0]} {
        assert rest[k] == ids[k + 1];
      }
    }
    if ids[0] in s && AllIn(rest, s - {ids[0]}) {
      forall k | 0 <= k < |ids| ensures ids[k] in s {
        if k > 0 { assert ids[k] == rest[k - 1]; }
      }
    }
  }

  /** All removals succeed exactly when the ids are distinct and all in the
      set; then the set loses exactly those ids. */
  lemma {:induction false} RemoveEachOk(s: set<int>, ids: seq<int>)
    ensures RemoveEach(s, ids).ok <==> Distinct(ids) && AllIn(ids, s)
    ensures RemoveEach(s, ids).ok ==>
      && RemoveEach(s, ids).left == s - Before(ids, |ids|)
      && |RemoveEach(s, ids).left| == |s| - |ids|
    decreases |ids|
  {
    if ids != [] {
      var x, rest := ids[0], ids[1..];
      RemoveEachOk(s - {x}, rest);
      BeforeCons(ids, |rest|);
      DistinctCons(ids);
      if x in rest {
        var l :| 0 <= l < |rest| && rest[l] == x;
        assert !AllIn(rest, s - {x});
      } else {
        AllInCons(ids, s);
      }
      if x in s {
        assert |s - {x}| == |s| - 1;
      }
    }
  }

  /** A failed removal keeps the removals made before it: the set left is the
      set without the ids before the first missing one, which is absent from it. */
  lemma {:induction false} RemoveEachFails(s: set<int>, ids: seq<int>)
    requires !RemoveEach(s, ids).ok
    ensures exists j :: 0 <= j < |ids| && RemoveEach(s, ids).left == s - Before(ids, j) && ids[j] !in RemoveEach(s, ids).left
    decreases |ids|
  {
    var x := ids[0];
    if x in s {
      var rest := ids[1..];
      RemoveEachFails(s - {x}, rest);
      var j :| 0 <= j < |rest| && RemoveEach(s - {x}, rest).left == (s - {x}) - Before(rest, j)
        && rest[j] !in RemoveEach(s - {x}, rest).left;
      BeforeCons(ids, j);
      assert ids[j + 1] == rest[j];
    } else {
      assert Before(ids, 0) == {};
    }
  }

  /** The server's state: the generated animals and, with `VERIFY=1`, the ids
      not yet posted. */
  class Api {
    const animals: seq<Animal>
    const totalPages: nat
    const verify: bool
    var idsToVerify: set<int>

    /** `ANIMALS_IDS_TO_VERIFY = {a.id for a in ANIMALS}` when `VERIFY` is on;
        `TOTAL_PAGES` is drawn from `[500, 600]`. */
    constructor(animals: seq<Animal>, totalPages: nat, verify: bool)
      requires MinTotalPages <= totalPages <= MaxTotalPages
      ensures this.animals == animals && this.totalPages == totalPages && this.verify == verify
      ensures idsToVerify == if verify then set a | a in animals :: a.id else {}
    {
      this.animals := animals;
      this.totalPages := totalPages;
      this.verify := verify;
      idsToVerify := if verify then set a | a in animals :: a.id else {};
    }

    /** `receive_animals`: 400 for more than 100 animals; otherwise, with
        `VERIFY` on, each id is removed from the set in turn, and a missing
        one raises `KeyError` (500) with the earlier removals kept. */
    method ReceiveAnimals(incoming: seq<IncomingAnimal>) returns (r: Reply<nat>)
      modifies this
      ensures |incoming| > MaxIncoming ==> r == StatusError(400) && idsToVerify == old(idsToVerify)
      ensures |incoming| <= MaxIncoming && !verify ==> r == Ok(|incoming|) && idsToVerify == old(idsToVerify)
      ensures |incoming| <= MaxIncoming && verify ==>
        && idsToVerify == RemoveEach(old(idsToVerify), Ids(incoming)).left
        && r == if RemoveEach(old(idsToVerify), Ids(incoming)).ok then Ok(|incoming|) else StatusError(500)
    {
      if |incoming| > MaxIncoming {
        return StatusError(400);
      }
      if verify {
        var ids := Ids(incoming);
        for i := 0 to |incoming|
          invariant RemoveEach(old(idsToVerify), ids) == RemoveEach(idsToVerify, ids[i..])
        {
          assert ids[i..][1..] == ids[i + 1..];
          if incoming[i].id !in idsToVerify {
            return StatusError(500);
          }
          idsToVerify := idsToVerify - {incoming[i].id};
        }
        assert ids[|incoming|..] == [];
      }
      return Ok(|incoming|);
    }
  }
}
