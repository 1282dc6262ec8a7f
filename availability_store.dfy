/**
 * The server's in-memory availability store: a module-level list of
 * `{ user, availability }` records. `POST /availability` rejects a body
 * whose `user` or `availability` is falsy, otherwise drops every record
 * whose user is strictly equal (`===`) to the posted one and appends the
 * new record; `GET /availability` returns the list.
 */
module AvailabilityStore {

  /** A value parsed from a JSON request body; `Undefined` is a missing field. */
  datatype Value =
    | Undefined
    | Null
    | Bool(b: bool)
    | Num(n: int)
    | Str(s: string)
    | Arr(items: seq<Value>)
    | Obj(fields: map<string, Value>)

  /** JavaScript truthiness: `!v` is false exactly for these values. */
  predicate Truthy(v: Value)
  {
    match v
    case Undefined => false
    case Null => false
    case Bool(b) => b
    case Num(n) => n != 0
    case Str(s) => s != ""
    case Arr(_) => true
    case Obj(_) => true
  }

  predicate Primitive(v: Value)
  {
    !v.Arr? && !v.Obj?
  }

  /**
   * `a === b` for a stored user `a` and a freshly posted user `b`. Arrays and
   * objects compare by reference, and two request bodies never share one, so
   * such users are never equal; primitives compare by value.
   */
  predicate StrictEq(a: Value, b: Value)
  {
    Primitive(a) && a == b
  }

  datatype Record = Record(user: Value, availability: Value)

  datatype Reply =
    | Rejected(status: int, error: string)
    | Saved(message: string, all: seq<Record>)

  const RequiredError := "User and availability required"
  const SavedMessage := "Availability saved"

  /** The guard `!user || !availability` fails, so the body is accepted. */
  predicate Accepts(user: Value, availability: Value)
  {
    Truthy(user) && Truthy(availability)
  }

  /** `records.filter((a) => a.user !== user)`. */
  function WithoutUser(records: seq<Record>, user: Value): seq<Record>
  {
    if |records| == 0 then []
    else if StrictEq(records[0].user, user) then WithoutUser(records[1..], user)
    else [records[0]] + WithoutUser(records[1..], user)
  }

  /** `records.filter((a) => a.user === user)`: the records the store holds for `user`. */
  function RecordsOf(records: seq<Record>, user: Value): seq<Record>
  {
    if |records| == 0 then []
    else if StrictEq(records[0].user, user) then [records[0]] + RecordsOf(records[1..], user)
    else RecordsOf(records[1..], user)
  }

  /** The store after an accepted POST: the filter, then the push. */
  function Replaced(records: seq<Record>, user: Value, availability: Value): seq<Record>
  {
    WithoutUser(records, user) + [Record(user, availability)]
  }

  /** No two records have strictly equal users. */
  predicate UniqueUsers(records: seq<Record>)
  {
    forall i, j :: 0 <= i < j < |records| ==> !StrictEq(records[i].user, records[j].user)
  }

  /** The filter keeps exactly the records of other users, and only records it was given. */
  lemma {:induction false} WithoutUserMembers(records: seq<Record>, user: Value)
    ensures forall r :: r in WithoutUser(records, user) <==> r in records && !StrictEq(r.user, user)
    ensures |WithoutUser(records, user)| <= |records|
  {
    if |records| > 0 {
      WithoutUserMembers(records[1..], user);
      assert records == [records[0]] + records[1..];
    }
  }

  /** The filter distributes over concatenation, so it keeps the relative order of what it keeps. */
  lemma {:induction false} WithoutUserAppend(a: seq<Record>, b: seq<Record>, user: Value)
    ensures WithoutUser(a + b, user) == WithoutUser(a, user) + WithoutUser(b, user)
  {
    if |a| > 0 {
      WithoutUserAppend(a[1..], b, user);
      assert (a + b)[0] == a[0] && (a + b)[1..] == a[1..] + b;
    } else {
      assert a + b == b;
    }
  }

  lemma {:induction false} RecordsOfAppend(a: seq<Record>, b: seq<Record>, user: Value)
    ensures RecordsOf(a + b, user) == RecordsOf(a, user) + RecordsOf(b, user)
  {
    if |a| > 0 {
      RecordsOfAppend(a[1..], b, user);
      assert (a + b)[0] == a[0] && (a + b)[1..] == a[1..] + b;
    } else {
      assert a + b == b;
    }
  }

  /** Filtering one user out twice is filtering once. */
  lemma {:induction false} WithoutUserTwice(records: seq<Record>, user: Value)
    ensures WithoutUser(WithoutUser(records, user), user) == WithoutUser(records, user)
  {
    if |records| > 0 {
      WithoutUserTwice(records[1..], user);
    }
  }

  /** After the filter the store holds no record of `user`. */
  lemma {:induction false} NoneLeftOf(records: seq<Record>, user: Value)
    ensures RecordsOf(WithoutUser(records, user), user) == []
  {
    if |records| > 0 {
      NoneLeftOf(records[1..], user);
    }
  }

  /** Filtering out `user` leaves the records of every other user as they were. */
  lemma {:induction false} WithoutUserKeepsOthers(records: seq<Record>, user: Value, other: Value)
    requires !StrictEq(other, user)
    ensures RecordsOf(WithoutUser(records, user), other) == RecordsOf(records, other)
  {
    if |records| > 0 {
      WithoutUserKeepsOthers(records[1..], user, other);
    }
  }

  lemma {:induction false} WithoutUserUnique(records: seq<Record>, user: Value)
    requires UniqueUsers(records)
    ensures UniqueUsers(WithoutUser(records, user))
  {
    if |records| > 0 {
      var rest := records[1..];
      assert UniqueUsers(rest) by {
        forall i, j | 0 <= i < j < |rest|
          ensures !StrictEq(rest[i].user, rest[j].user)
        {
          assert rest[i] == records[i + 1] && rest[j] == records[j + 1];
        }
      }
      WithoutUserUnique(rest, user);
      WithoutUserMembers(rest, user);
      if !StrictEq(records[0].user, user) {
        var w := WithoutUser(rest, user);
        var t := [records[0]] + w;
        forall i, j | 0 <= i < j < |t|
          ensures !StrictEq(t[i].user, t[j].user)
        {
          if i == 0 {
            assert t[j] in rest;
            var k :| 0 <= k < |rest| && rest[k] == t[j];
            assert records[k + 1] == t[j];
          } else {
            assert t[i] == w[i - 1] && t[j] == w[j - 1];
          }
        }
      }
    }
  }

  /**
   * After an accepted POST by a primitive user, the store holds exactly one
   * record for that user, the new one, and it is the last element.
   */
  lemma ReplacedHoldsOneRecord(records: seq<Record>, user: Value, availability: Value)
    requires Primitive(user)
    ensures RecordsOf(Replaced(records, user, availability), user) == [Record(user, availability)]
    ensures Replaced(records, user, availability)[|Replaced(records, user, availability)| - 1]
         == Record(user, availability)
  {
    var w := WithoutUser(records, user);
    RecordsOfAppend(w, [Record(user, availability)], user);
    NoneLeftOf(records, user);
  }

  /** Every other user's records survive an accepted POST unchanged and in order. */
  lemma ReplacedKeepsOthers(records: seq<Record>, user: Value, availability: Value, other: Value)
    requires !StrictEq(other, user)
    ensures RecordsOf(Replaced(records, user, availability), other) == RecordsOf(records, other)
  {
    var w := WithoutUser(records, user);
    RecordsOfAppend(w, [Record(user, availability)], other);
    WithoutUserKeepsOthers(records, user, other);
  }

  /** Apart from the poster's records, the store is the same sequence as before. */
  lemma ReplacedRestUnchanged(records: seq<Record>, user: Value, availability: Value)
    requires Primitive(user)
    ensures WithoutUser(Replaced(records, user, availability), user) == WithoutUser(records, user)
  {
    WithoutUserAppend(WithoutUser(records, user), [Record(user, availability)], user);
    WithoutUserTwice(records, user);
  }

  /** A second POST by the same user fully overwrites the first: no union. */
  lemma ReplaceOverwrites(records: seq<Record>, user: Value, first: Value, second: Value)
    requires Primitive(user)
    ensures Replaced(Replaced(records, user, first), user, second) == Replaced(records, user, second)
  {
    ReplacedRestUnchanged(records, user, first);
  }

  /** Posting the same body twice leaves the store as posting it once. */
  lemma ReplaceIdempotent(records: seq<Record>, user: Value, availability: Value)
    requires Primitive(user)
    ensures Replaced(Replaced(records, user, availability), user, availability)
         == Replaced(records, user, availability)
  {
    ReplaceOverwrites(records, user, availability, availability);
  }

  /** A POST keeps "at most one record per user". */
  lemma ReplacedUnique(records: seq<Record>, user: Value, availability: Value)
    requires UniqueUsers(records)
    ensures UniqueUsers(Replaced(records, user, availability))
  {
    var w := WithoutUser(records, user);
    WithoutUserUnique(records, user);
    WithoutUserMembers(records, user);
    var t := Replaced(records, user, availability);
    forall i, j | 0 <= i < j < |t|
      ensures !StrictEq(t[i].user, t[j].user)
    {
      if j == |t| - 1 {
        assert t[i] == w[i];
        assert t[i] in w;
      } else {
        assert t[i] == w[i] && t[j] == w[j];
      }
    }
  }

  /** A falsy field rejects the body, whatever the other field holds. */
  lemma FalsyRejected(user: Value, availability: Value)
    ensures user.Undefined? || user.Null? || user == Str("") || user == Num(0) || user == Bool(false)
        ==> !Accepts(user, availability)
    ensures availability.Undefined? || availability.Null? ==> !Accepts(user, availability)
  {
  }

  /** An empty availability array is truthy: it is stored like any other. */
  lemma EmptyAvailabilityAccepted(user: Value)
    requires Truthy(user)
    ensures Accepts(user, Arr([]))
  {
  }

  class Store {
    /** `allAvailabilities`. */
    var records: seq<Record>

    constructor ()
      ensures records == []
    {
      records := [];
    }

    /** The `POST /availability` handler. */
    method Post(user: Value, availability: Value) returns (reply: Reply)
      modifies this
      ensures !Accepts(user, availability) ==>
        reply == Rejected(400, RequiredError) && records == old(records)
      ensures Accepts(user, availability) ==>
        records == Replaced(old(records), user, availability) && reply == Saved(SavedMessage, records)
      ensures old(UniqueUsers(records)) ==> UniqueUsers(records)
    {
      if !Truthy(user) || !Truthy(availability) {
        return Rejected(400, RequiredError);
      }
      ghost var before := records;
      records := WithoutUser(records, user);
      records := records + [Record(user, availability)];
      if UniqueUsers(before) {
        ReplacedUnique(before, user, availability);
      }
      reply := Saved(SavedMessage, records);
    }

    /** The `GET /availability` handler: the whole store, as it is. */
    method Get() returns (all: seq<Record>)
      ensures all == records
    {
      all := records;
    }
  }
}
