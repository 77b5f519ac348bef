/** The bonus service over a store of bonuses and of the validations given to them.
    `knownUsers` stands for the user repository that `getUserById` reads. */
module BonusService {
  import opened Wrappers
  import opened Entities

  /** A validation of bonus `bonusId` by the user `authorId`. */
  datatype ValidationBonus = ValidationBonus(bonusId: int, authorId: int)

  /** The fields of an update request that `updateBonus` reads. */
  datatype BonusUpdate = BonusUpdate(value: real, limited: Option<bool>, authorId: Option<int>, comment: Option<string>)

  function Abs(x: real): real {
    if x < 0.0 then -x else x
  }

  /** The request is refused when it says "limited" and its value is beyond 4 in absolute
      value; the bound itself is allowed. */
  predicate Refused(u: BonusUpdate) {
    u.limited == Some(true) && Abs(u.value) > 4.0
  }

  /** The stored bonus after the update: the value always, the author and the comment only
      when the request carries one. */
  function Updated(b: Bonus, u: BonusUpdate): (r: Bonus)
    ensures r.value == u.value
    ensures r.author == (if u.authorId.Some? then u.authorId else b.author)
    ensures r.comment == (if u.comment.Some? then u.comment else b.comment)
    ensures r.limited == b.limited && r.confirmed == b.confirmed
    ensures r.sprint == b.sprint && r.student == b.student
  {
    var b1 := b.(value := u.value);
    var b2 := if u.authorId.Some? then b1.(author := u.authorId) else b1;
    if u.comment.Some? then b2.(comment := u.comment) else b2
  }

  /** Applying the same update twice is applying it once. */
  lemma UpdatedIdempotent(b: Bonus, u: BonusUpdate)
    ensures Updated(Updated(b, u), u) == Updated(b, u)
  {
  }

  /** An update that carries neither author nor comment only changes the value. */
  lemma UpdateValueOnly(b: Bonus, u: BonusUpdate)
    requires u.authorId.None? && u.comment.None?
    ensures Updated(b, u) == b.(value := u.value)
  {
  }

  /** Limited values of exactly 4 and -4 pass; 4.5 does not; an unlimited 10 passes. */
  lemma LimitBoundary(author: Option<int>, comment: Option<string>)
    ensures !Refused(BonusUpdate(4.0, Some(true), author, comment))
    ensures !Refused(BonusUpdate(-4.0, Some(true), author, comment))
    ensures Refused(BonusUpdate(4.5, Some(true), author, comment))
    ensures !Refused(BonusUpdate(10.0, Some(false), author, comment))
    ensures !Refused(BonusUpdate(10.0, None, author, comment))
  {
  }

  /** The validations left after `deleteAllValidationBonuses(id)`. */
  function WithoutValidationsOf(vs: set<ValidationBonus>, id: int): (r: set<ValidationBonus>)
    ensures forall v :: v in r <==> v in vs && v.bonusId != id
  {
    set v | v in vs && v.bonusId != id
  }

  class BonusStore {
    var bonuses: map<int, Bonus>
    var validations: set<ValidationBonus>

    constructor (bonuses: map<int, Bonus>, validations: set<ValidationBonus>)
      ensures this.bonuses == bonuses && this.validations == validations
    {
      this.bonuses := bonuses;
      this.validations := validations;
    }

    /** `getBonusById`: an unknown id is a NotFound error. */
    function GetBonusById(id: int): (r: Result<Bonus>)
      reads this
      ensures r.Ok? <==> id in bonuses
      ensures r.Ok? ==> r.value == bonuses[id]
      ensures r.Err? ==> r.error == NotFound
    {
      if id in bonuses then Ok(bonuses[id]) else Err(NotFound)
    }

    /** `updateBonus`.  The limit is checked on the request's flag, before any lookup; the
        validations are cleared according to the stored bonus's flag, after the save. */
    method UpdateBonus(id: int, u: BonusUpdate, knownUsers: set<int>) returns (err: Option<Error>)
      modifies this
      ensures Refused(u) ==> err == Some(IllegalArgument)
      ensures !Refused(u) && id !in old(bonuses) ==> err == Some(NotFound)
      ensures !Refused(u) && id in old(bonuses) && u.authorId.Some? && u.authorId.value !in knownUsers ==>
        err == Some(NotFound)
      ensures err.Some? && err != Some(NullPointer) ==>
        bonuses == old(bonuses) && validations == old(validations)
      ensures !Refused(u) && id in old(bonuses) && (u.authorId.None? || u.authorId.value in knownUsers) ==>
        && bonuses == old(bonuses)[id := Updated(old(bonuses)[id], u)]
        && (old(bonuses)[id].limited.None? ==> err == Some(NullPointer) && validations == old(validations))
        && (old(bonuses)[id].limited == Some(true) ==>
              err == None && validations == WithoutValidationsOf(old(validations), id))
        && (old(bonuses)[id].limited == Some(false) ==> err == None && validations == old(validations))
    {
      if u.limited == Some(true) && Abs(u.value) > 4.0 {
        return Some(IllegalArgument);
      }
      var found := GetBonusById(id);
      if found.Err? {
        return Some(found.error);
      }
      var bonus := found.value;
      bonus := bonus.(value := u.value);
      if u.authorId.Some? {
        if u.authorId.value !in knownUsers {
          return Some(NotFound);
        }
        bonus := bonus.(author := u.authorId);
      }
      if u.comment.Some? {
        bonus := bonus.(comment := u.comment);
      }
      bonuses := bonuses[id := bonus];
      match bonus.limited
      case None =>
        return Some(NullPointer);
      case Some(limited) =>
        if limited {
          validations := WithoutValidationsOf(validations, id);
        }
        return None;
    }

    /** `deleteBonus`: an unknown id is a NotFound error and deletes nothing.  The bonus's
        validations are left in the store. */
    method DeleteBonus(id: int) returns (err: Option<Error>)
      modifies this`bonuses
      ensures id !in old(bonuses) ==> err == Some(NotFound) && bonuses == old(bonuses)
      ensures id in old(bonuses) ==> err == None && bonuses == old(bonuses) - {id}
    {
      var found := GetBonusById(id);
      if found.Err? {
        return Some(found.error);
      }
      bonuses := bonuses - {id};
      return None;
    }
  }

  /** The two flags disagree: an unlimited request of 10 on a stored limited bonus passes
      the check and still clears the bonus's validations. */
  lemma FlagsDisagree(b: Bonus, author: Option<int>, comment: Option<string>)
    requires b.limited == Some(true)
    ensures !Refused(BonusUpdate(10.0, Some(false), author, comment))
    ensures Updated(b, BonusUpdate(10.0, Some(false), author, comment)).limited == Some(true)
  {
  }
}
