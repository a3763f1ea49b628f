/**
 * The clients run against the server model: pagination over `get_animals`
 * collects every animal once, in id order, in `TOTAL_PAGES` requests; the
 * details of every listed animal are served; the batches are never too large
 * for `receive_animals`; and the comma-joined friends the server generates
 * come back as the list they were joined from.
 */
module EndToEnd {
  import opened Wrappers
  import opened Wire
  import Text
  import Batching
  import AnimalApi
  import Etl2
  import Etl1Models

  /** `GET /animals/v1/animals?page=p` answered by the server, without chaos. */
  function ServerListing(animals: seq<Animal>, totalPages: nat): nat -> Reply<Listing> {
    (page: nat) => Ok(AnimalApi.GetAnimals(animals, totalPages, page))
  }

  /** `GET /animals/v1/animals/{id}` answered by the server and parsed into
      the ETL-2 client's `AnimalDetail`. */
  function ServerDetail(animals: seq<Animal>): int -> Reply<Etl2.AnimalDetail> {
    (id: int) =>
      var r := AnimalApi.GetAnimal(animals, id);
      if r.Ok? then Ok(Etl2.AnimalDetail(r.body.id, r.body.name, r.body.bornAt, Some(r.body.friends)))
      else StatusError(500)
  }

  /** Pages `1..p` hold the first `10 * p` animals, in order. */
  lemma {:induction false} CollectedFromServer(animals: seq<Animal>, totalPages: nat, p: nat)
    requires |animals| == totalPages * 10 && AnimalApi.IdsAreIndices(animals)
    requires p <= totalPages
    ensures var listing := ServerListing(animals, totalPages);
      && |Etl2.Collected(listing, p)| == 10 * p
      && forall k :: 0 <= k < 10 * p ==> Etl2.Collected(listing, p)[k] == AnimalApi.Strip(animals[k])
  {
    var listing := ServerListing(animals, totalPages);
    if p > 0 {
      CollectedFromServer(animals, totalPages, p - 1);
      AnimalApi.GetAnimalsPage(animals, totalPages, p);
      var before := Etl2.Collected(listing, p - 1);
      var page := listing(p).body.items;
      assert Etl2.Collected(listing, p) == before + page;
      forall k | 10 * (p - 1) <= k < 10 * p
        ensures (before + page)[k] == AnimalApi.Strip(animals[k])
      {
        assert (before + page)[k] == page[k - 10 * (p - 1)];
      }
    }
  }

  /** `fetch_animals` against the server makes `TOTAL_PAGES` requests and
      returns every animal exactly once, in ascending id order. */
  lemma FetchFromServer(animals: seq<Animal>, totalPages: nat)
    requires totalPages >= 1
    requires |animals| == totalPages * 10 && AnimalApi.IdsAreIndices(animals)
    ensures var listing := ServerListing(animals, totalPages);
      && Etl2.Terminates(listing)
      && Etl2.FirstStop(listing) == totalPages
      && Etl2.Fetched(listing).Ok?
      && |Etl2.Fetched(listing).body| == |animals|
      && forall k :: 0 <= k < |animals| ==>
        Etl2.Fetched(listing).body[k] == AnimalApi.Strip(animals[k]) && Etl2.Fetched(listing).body[k].id == k
  {
    var listing := ServerListing(animals, totalPages);
    Etl2.ConstantTotalPages(listing, totalPages);
    CollectedFromServer(animals, totalPages, totalPages);
  }

  /** Every listed animal's details are available from the server. */
  lemma DetailsFromServer(animals: seq<Animal>, items: seq<Summary>)
    requires AnimalApi.IdsAreIndices(animals)
    requires forall j :: 0 <= j < |items| ==> 0 <= items[j].id < |animals|
    ensures Etl2.DetailsAvailable(ServerDetail(animals), items)
    ensures forall j :: 0 <= j < |items| ==> ServerDetail(animals)(items[j].id).body.id == items[j].id
  {
  }

  /** No batch cut by either client is refused with 400. */
  lemma BatchesAdmitted<T>(xs: seq<T>)
    ensures forall k :: 0 <= k < |Batching.Chunks(xs, 100)| ==>
      |Batching.Chunks(xs, 100)[k]| <= AnimalApi.MaxIncoming
  {
    Batching.ChunksWellCut(xs, 100);
  }

  /** ETL-2 recovers a joined friends list.  The one list it cannot recover
      is `[""]`, which joins to `""` like the empty list. */
  lemma FriendsRoundTrip(fs: seq<string>, id: int, name: string)
    requires Text.SeparatorFree(fs, ',') && fs != [""]
    ensures Etl2.TransformAnimal(Etl2.AnimalDetail(id, name, None, Some(Text.Join(fs, ',')))).friends == fs
  {
    var joined := Text.Join(fs, ',');
    if fs != [] {
      if |fs| >= 2 {
        assert joined == fs[0] + [','] + Text.Join(fs[1..], ',');
        assert joined[|fs[0]|] == ',';
      }
      assert joined != "";
      Text.SplitJoin(fs, ',');
    }
  }

  /** `[""]` comes back as `[]`. */
  lemma FriendsRoundTripLoses(id: int, name: string)
    ensures Text.Join([""], ',') == ""
    ensures Etl2.TransformAnimal(Etl2.AnimalDetail(id, name, None, Some(Text.Join([""], ',')))).friends == []
  {
  }

  /** The friends the server generates from comma-free, non-empty names come
      back through ETL-2 as the names drawn, in the order drawn. */
  lemma GeneratedFriendsRoundTrip(names: seq<string>, d: AnimalApi.Draw, now: int, a: Animal)
    requires AnimalApi.ValidDraw(d, names, now)
    requires forall k :: 0 <= k < |names| ==> ',' !in names[k] && names[k] != ""
    requires a.friends == Text.Join(AnimalApi.Picked(names, d.friendIndices), ',')
    ensures Etl2.TransformAnimal(Etl2.AnimalDetail(a.id, a.name, None, Some(a.friends))).friends
         == AnimalApi.Picked(names, d.friendIndices)
  {
    var fs := AnimalApi.Picked(names, d.friendIndices);
    assert Text.SeparatorFree(fs, ',');
    FriendsRoundTrip(fs, a.id, a.name);
  }

  /** An animal without friends: ETL-2 posts `[]`, while the ETL-1 model's
      `friends.split(',')` gives `[""]`, one friend with an empty name. */
  lemma EmptyFriendsContrast(id: int, name: string, species: string, utcIso: int -> string)
    ensures Etl2.TransformAnimal(Etl2.AnimalDetail(id, name, None, Some(""))).friends == []
    ensures Etl1Models.TransformStep(Etl1Models.Record(id, name, species, Etl1Models.NoBornAt, Etl1Models.Joined("")), utcIso).after.friends
         == Etl1Models.Listed([""])
  {
  }

  /** ETL-1 recovers a joined friends list exactly when it is not empty. */
  lemma Etl1FriendsRoundTrip(fs: seq<string>, rec: Etl1Models.Record, utcIso: int -> string)
    requires Text.SeparatorFree(fs, ',')
    requires Etl1Models.Fresh(rec) && rec.friends == Etl1Models.Joined(Text.Join(fs, ','))
    ensures Etl1Models.TransformStep(rec, utcIso).after.friends == Etl1Models.Listed(fs) <==> fs != []
  {
    if fs != [] {
      Text.SplitJoin(fs, ',');
    }
  }
}
