/**
 * `AnimalDetail` of `poc-ETL-1-initial-idea/animal_startup/models.py`: a
 * record whose `transform` overwrites its own `born_at` and `friends` fields
 * and returns the updated record as a dict.
 *
 * Python does not re-check the field types on assignment, so after a
 * `transform` the fields hold values of other types than declared (`born_at`
 * a string, `friends` a list).  `BornAtValue` and `FriendsValue` say which
 * kind of value a field holds.  A call that meets a value without the method
 * it needs (`str.astimezone`, `list.split`) raises `AttributeError`; changes
 * made before that point stay.
 *
 * `astimezone(pytz.UTC).isoformat()` is a parameter `utcIso` from the
 * instant to its string: the local time zone a naive `datetime` is read in is
 * not part of this model.
 */
module Etl1Models {
  import opened Wrappers
  import Text

  /** What the `born_at` field holds. */
  datatype BornAtValue =
    | NoBornAt              // `None`
    | Moment(instant: int)  // a `datetime` (always truthy); `instant` identifies it
    | IsoText(text: string) // the string written by an earlier `transform`

  /** What the `friends` field holds. */
  datatype FriendsValue =
    | Joined(text: string)        // the comma-joined `str` the server sends
    | Listed(names: seq<string>)  // the list written by an earlier `transform`

  /** The record's fields, as `self.dict()` returns them. */
  datatype Record = Record(id: int, name: string, species: string, bornAt: BornAtValue, friends: FriendsValue)

  /** The outcome of one `transform`: the returned dict or `AttributeError`,
      and the fields afterwards. */
  datatype Step = Step(result: Option<Record>, after: Record)

  /** Python truthiness of the `born_at` field. */
  predicate BornAtTruthy(b: BornAtValue) {
    b.Moment? || (b.IsoText? && b.text != "")
  }

  /** `transform` on a record with fields `rec`. */
  function TransformStep(rec: Record, utcIso: int -> string): (s: Step)
    ensures s.after.id == rec.id && s.after.name == rec.name && s.after.species == rec.species
    ensures s.result.Some? ==> s.result.value == s.after
  {
    if BornAtTruthy(rec.bornAt) && rec.bornAt.IsoText? then
      Step(None, rec)
    else
      var bornAt := if rec.bornAt.Moment? then IsoText(utcIso(rec.bornAt.instant)) else rec.bornAt;
      match rec.friends
      case Listed(_) => Step(None, rec.(bornAt := bornAt))
      case Joined(text) =>
        var after := rec.(bornAt := bornAt, friends := Listed(Text.Split(text, ',')));
        Step(Some(after), after)
  }

  /** A fresh record (`born_at` a `datetime` or `None`, `friends` a string)
      transforms without error. */
  predicate Fresh(rec: Record) {
    !rec.bornAt.IsoText? && rec.friends.Joined?
  }

  /** On a fresh record: `friends` becomes `friends.split(',')` (order kept, no
      trimming, one piece more than there are commas), a `datetime` becomes its
      UTC string, `None` stays. */
  lemma TransformFresh(rec: Record, utcIso: int -> string)
    requires Fresh(rec)
    ensures var s := TransformStep(rec, utcIso);
      && s.result.Some?
      && s.after.friends.Listed?
      && Text.Join(s.after.friends.names, ',') == rec.friends.text
      && |s.after.friends.names| == Text.Count(rec.friends.text, ',') + 1
      && (rec.bornAt.NoBornAt? ==> s.after.bornAt == NoBornAt)
      && (rec.bornAt.Moment? ==> s.after.bornAt == IsoText(utcIso(rec.bornAt.instant)))
  {
    Text.JoinSplit(rec.friends.text, ',');
    Text.SplitLength(rec.friends.text, ',');
  }

  /** `"".split(',')` is `[""]`: an animal without friends gets one friend
      with an empty name. */
  lemma TransformEmptyFriends(rec: Record, utcIso: int -> string)
    requires Fresh(rec) && rec.friends == Joined("")
    ensures TransformStep(rec, utcIso).after.friends == Listed([""])
  {
  }

  /** `transform` is not idempotent: after a successful call, a second call
      raises `AttributeError`. */
  lemma TransformTwiceFails(rec: Record, utcIso: int -> string)
    requires TransformStep(rec, utcIso).result.Some?
    ensures TransformStep(TransformStep(rec, utcIso).after, utcIso).result.None?
  {
  }

  /** The model object, with fields that `transform` overwrites in place. */
  class AnimalDetail {
    var id: int
    var name: string
    var species: string
    var bornAt: BornAtValue
    var friends: FriendsValue

    /** `AnimalDetail(**response.json())`: a `datetime` or `None`, and a string. */
    constructor(id: int, name: string, species: string, bornAt: Option<int>, friends: string)
      ensures Fields() == Record(id, name, species, if bornAt.Some? then Moment(bornAt.value) else NoBornAt, Joined(friends))
      ensures Fresh(Fields())
    {
      this.id := id;
      this.name := name;
      this.species := species;
      this.bornAt := if bornAt.Some? then Moment(bornAt.value) else NoBornAt;
      this.friends := Joined(friends);
    }

    /** `self.dict()`. */
    function Fields(): Record
      reads this
    {
      Record(id, name, species, bornAt, friends)
    }

    /** `transform`: overwrites `born_at` (if truthy) and `friends` on this
        object and returns the dict, or raises `AttributeError` part-way. */
    method Transform(utcIso: int -> string) returns (result: Option<Record>)
      modifies this
      ensures result == TransformStep(old(Fields()), utcIso).result
      ensures Fields() == TransformStep(old(Fields()), utcIso).after
    {
      if BornAtTruthy(bornAt) {
        if bornAt.IsoText? {
          return None;
        }
        bornAt := IsoText(utcIso(bornAt.instant));
      }
      if friends.Listed? {
        return None;
      }
      friends := Listed(Text.Split(friends.text, ','));
      return Some(Fields());
    }
  }
}
