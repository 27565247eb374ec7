/**
 * The `/passwords` router: every handler runs behind the authentication
 * middleware and is scoped to the caller's user id. The document collection
 * is an in-memory table held by `PasswordStore`; a database error is the
 * `fault` parameter, and any thrown error becomes a 500 carrying its message.
 */
module Routes {
  import opened Common
  import opened Vault

  /** A JSON response body. */
  datatype Body = EntryList(entries: seq<Entry>) | EntryBody(entry: Entry) | MessageBody(message: string)

  datatype Response = Response(status: int, body: Body)

  /** `req.params.id`: either a well-formed ObjectId or text Mongoose cannot cast. */
  datatype IdParam = ObjectId(id: Id) | Malformed(raw: string)

  const NOT_FOUND := "Password not found"
  const DELETED := "Password deleted successfully"

  /** The message of the CastError a malformed id raises when the query is cast. */
  function CastErrorMessage(raw: string): string
  {
    "Cast to ObjectId failed for value \"" + raw + "\" (type string) at path \"_id\" for model \"Password\""
  }

  function PathName(path: Path): string
  {
    match path
    case UserIdPath => "userId"
    case WebsitePath => "website"
    case UsernamePath => "username"
    case PasswordPath => "password"
  }

  /** `path: message` for each failing path, separated by `, `. */
  function PathErrors(missing: seq<Path>): string
  {
    if missing == [] then ""
    else
      var first := PathName(missing[0]) + ": " + RequiredMessage(missing[0]);
      if |missing| == 1 then first else first + ", " + PathErrors(missing[1..])
  }

  /** The message of the ValidationError a failed save throws. */
  function ValidationMessage(missing: seq<Path>): string
  {
    "Password validation failed: " + PathErrors(missing)
  }

  /** The caller's entries, in table order. */
  function Owned(es: seq<Entry>, caller: UserId): (r: seq<Entry>)
    ensures forall e :: multiset(r)[e] == if e.userId == caller then multiset(es)[e] else 0
  {
    if es == [] then []
    else
      assert es == [es[0]] + es[1..];
      (if es[0].userId == caller then [es[0]] else []) + Owned(es[1..], caller)
  }

  /** Descending `createdAt`, the order of `.sort({ createdAt: -1 })`. */
  ghost predicate NewestFirst(s: seq<Entry>)
  {
    forall i, j :: 0 <= i < j < |s| ==> s[i].createdAt >= s[j].createdAt
  }

  /** An entry no older than the head of an ordered list may go in front of it. */
  lemma NewestFirstCons(x: Entry, s: seq<Entry>)
    requires NewestFirst(s) && (s == [] || x.createdAt >= s[0].createdAt)
    ensures NewestFirst([x] + s)
  {
    var r := [x] + s;
    forall i, j | 0 <= i < j < |r|
      ensures r[i].createdAt >= r[j].createdAt
    {
      assert r[j] == s[j - 1];
      if i > 0 {
        assert r[i] == s[i - 1];
      }
    }
  }

  /** One step of the sort: `e` goes in front of the first entry older than it. */
  function InsertNewestFirst(e: Entry, s: seq<Entry>): (r: seq<Entry>)
    ensures |r| == |s| + 1
  {
    if s == [] || e.createdAt >= s[0].createdAt then [e] + s
    else [s[0]] + InsertNewestFirst(e, s[1..])
  }

  /** Inserting into a newest-first list keeps it newest first; the head is `e` or the old head. */
  lemma {:induction false} InsertNewestFirstOrder(e: Entry, s: seq<Entry>)
    requires NewestFirst(s)
    ensures NewestFirst(InsertNewestFirst(e, s))
    ensures InsertNewestFirst(e, s)[0] == e || (s != [] && InsertNewestFirst(e, s)[0] == s[0])
  {
    if s == [] || e.createdAt >= s[0].createdAt {
      NewestFirstCons(e, s);
    } else {
      var tail := s[1..];
      assert NewestFirst(tail) by {
        forall i, j | 0 <= i < j < |tail|
          ensures tail[i].createdAt >= tail[j].createdAt
        {
          assert tail[i] == s[i + 1] && tail[j] == s[j + 1];
        }
      }
      var rest := InsertNewestFirst(e, tail);
      InsertNewestFirstOrder(e, tail);
      assert rest[0].createdAt <= s[0].createdAt by {
        if rest[0] != e {
          assert rest[0] == s[1];
        }
      }
      NewestFirstCons(s[0], rest);
    }
  }

  /** Inserting adds exactly `e` and loses nothing. */
  lemma {:induction false} InsertNewestFirstAdds(e: Entry, s: seq<Entry>)
    ensures multiset(InsertNewestFirst(e, s)) == multiset(s) + multiset{e}
  {
    if s != [] && e.createdAt < s[0].createdAt {
      InsertNewestFirstAdds(e, s[1..]);
      assert s == [s[0]] + s[1..];
    }
  }

  /** The entries reordered newest first, by insertion. */
  function SortNewestFirst(s: seq<Entry>): (r: seq<Entry>)
    ensures |r| == |s|
  {
    if s == [] then []
    else InsertNewestFirst(s[0], SortNewestFirst(s[1..]))
  }

  /** `sort({ createdAt: -1 })` yields a newest-first permutation of its input. */
  lemma {:induction false} SortNewestFirstSpec(s: seq<Entry>)
    ensures NewestFirst(SortNewestFirst(s))
    ensures multiset(SortNewestFirst(s)) == multiset(s)
  {
    if s != [] {
      var sorted := SortNewestFirst(s[1..]);
      SortNewestFirstSpec(s[1..]);
      InsertNewestFirstOrder(s[0], sorted);
      InsertNewestFirstAdds(s[0], sorted);
      assert s == [s[0]] + s[1..];
    }
  }

  /** The index of the entry with this id that the caller owns, if there is one. */
  function FindOwned(es: seq<Entry>, id: Id, caller: UserId): (r: Option<nat>)
    ensures r.Some? ==> r.value < |es| && es[r.value].id == id && es[r.value].userId == caller
    ensures r.None? ==> forall i :: 0 <= i < |es| ==> !(es[i].id == id && es[i].userId == caller)
  {
    if es == [] then None
    else if es[0].id == id && es[0].userId == caller then Some(0)
    else
      match FindOwned(es[1..], id, caller)
      case None => None
      case Some(k) => Some(k + 1)
  }

  /** Every id is below `bound`, and no two entries share an id. */
  ghost predicate IdsBelow(es: seq<Entry>, bound: Id)
  {
    && (forall i, j :: 0 <= i < j < |es| ==> es[i].id != es[j].id)
    && (forall i :: 0 <= i < |es| ==> es[i].id < bound)
  }

  /** Appending an entry with the next fresh id keeps ids unique. */
  lemma IdsBelowAppend(es: seq<Entry>, bound: Id, e: Entry)
    requires IdsBelow(es, bound) && e.id == bound
    ensures IdsBelow(es + [e], bound + 1)
  {
    var r := es + [e];
    assert forall i :: 0 <= i < |es| ==> r[i] == es[i];
  }

  /** Replacing an entry by one with the same id keeps ids unique. */
  lemma IdsBelowUpdate(es: seq<Entry>, bound: Id, i: nat, e: Entry)
    requires IdsBelow(es, bound) && i < |es| && e.id == es[i].id
    ensures IdsBelow(es[i := e], bound)
  {
  }

  /** Removing an entry keeps ids unique. */
  lemma IdsBelowRemove(es: seq<Entry>, bound: Id, i: nat)
    requires IdsBelow(es, bound) && i < |es|
    ensures IdsBelow(es[..i] + es[i + 1..], bound)
  {
    var r := es[..i] + es[i + 1..];
    assert forall k :: 0 <= k < |r| ==> r[k] == if k < i then es[k] else es[k + 1];
  }

  class PasswordStore {
    /** The collection, in insertion order. */
    var entries: seq<Entry>
    /** The next ObjectId the store hands out. */
    var nextId: Id

    /** Ids are unique and all below `nextId`. */
    ghost predicate Valid()
      reads this
    {
      IdsBelow(entries, nextId)
    }

    constructor ()
      ensures Valid() && entries == [] && nextId == 0
    {
      entries := [];
      nextId := 0;
    }

    /** GET `/`: exactly the caller's entries, newest first. */
    method List(caller: UserId, fault: Option<string>) returns (resp: Response)
      ensures fault.Some? ==> resp == Response(500, MessageBody(fault.value))
      ensures fault.None? ==> && resp.status == 200 && resp.body.EntryList?
                              && NewestFirst(resp.body.entries)
                              && forall e :: multiset(resp.body.entries)[e]
                                           == if e.userId == caller then multiset(entries)[e] else 0
    {
      if fault.Some? {
        return Response(500, MessageBody(fault.value));
      }
      var passwords := SortNewestFirst(Owned(entries, caller));
      SortNewestFirstSpec(Owned(entries, caller));
      resp := Response(200, EntryList(passwords));
    }

    /**
     * POST `/`: the owner is the caller, never a body field; validation runs
     * on save, then the hook, then the insert. `now` is the clock when the
     * document is constructed (the schema defaults), `saved` the clock when
     * the save hook runs.
     */
    method Create(caller: UserId, d: Draft, now: Time, saved: Time, fault: Option<string>) returns (resp: Response)
      requires Valid()
      modifies this
      ensures Valid()
      ensures Build(old(nextId), Some(caller), d, now).Err? ==>
        && resp == Response(500, MessageBody(ValidationMessage(Build(old(nextId), Some(caller), d, now).error)))
        && entries == old(entries) && nextId == old(nextId)
      ensures Build(old(nextId), Some(caller), d, now).Ok? && fault.Some? ==>
        && resp == Response(500, MessageBody(fault.value))
        && entries == old(entries) && nextId == old(nextId)
      ensures Build(old(nextId), Some(caller), d, now).Ok? && fault.None? ==>
        && resp == Response(201, EntryBody(PreSave(Build(old(nextId), Some(caller), d, now).value, saved)))
        && entries == old(entries) + [resp.body.entry] && nextId == old(nextId) + 1
      ensures resp.status == 201 ==> resp.body.entry.userId == caller && WellFormed(resp.body.entry)
      ensures resp.status == 201 ==> resp.body.entry.createdAt == now && resp.body.entry.updatedAt == saved
    {
      var built := Build(nextId, Some(caller), d, now);
      if built.Err? {
        return Response(500, MessageBody(ValidationMessage(built.error)));
      }
      if fault.Some? {
        return Response(500, MessageBody(fault.value));
      }
      var entry := PreSave(built.value, saved);
      BuiltEntryWellFormed(nextId, Some(caller), d, now, saved);
      Insert(entry);
      resp := Response(201, EntryBody(entry));
    }

    /** The insert itself: the entry, carrying the next id, goes at the end of the collection. */
    method Insert(e: Entry)
      requires Valid() && e.id == nextId
      modifies this
      ensures Valid()
      ensures entries == old(entries) + [e] && nextId == old(nextId) + 1
    {
      IdsBelowAppend(entries, nextId, e);
      entries := entries + [e];
      nextId := nextId + 1;
    }

    /**
     * PUT `/:id`: only the entry with this id owned by the caller changes;
     * an absent id and someone else's id give the same 404.
     */
    method Update(caller: UserId, param: IdParam, d: Draft, now: Time, fault: Option<string>) returns (resp: Response)
      requires Valid()
      modifies this
      ensures Valid() && nextId == old(nextId)
      ensures param.Malformed? ==> resp == Response(500, MessageBody(CastErrorMessage(param.raw))) && entries == old(entries)
      ensures param.ObjectId? && fault.Some? ==> resp == Response(500, MessageBody(fault.value)) && entries == old(entries)
      ensures param.ObjectId? && fault.None? ==>
        match FindOwned(old(entries), param.id, caller)
        case None => resp == Response(404, MessageBody(NOT_FOUND)) && entries == old(entries)
        case Some(i) => entries == old(entries)[i := Revise(old(entries)[i], d, now)]
                        && resp == Response(200, EntryBody(entries[i]))
    {
      if param.Malformed? {
        return Response(500, MessageBody(CastErrorMessage(param.raw)));
      }
      if fault.Some? {
        return Response(500, MessageBody(fault.value));
      }
      var found := FindOwned(entries, param.id, caller);
      if found.None? {
        return Response(404, MessageBody(NOT_FOUND));
      }
      var i := found.value;
      var updated := Revise(entries[i], d, now);
      IdsBelowUpdate(entries, nextId, i, updated);
      entries := entries[i := updated];
      resp := Response(200, EntryBody(updated));
    }

    /** DELETE `/:id`: removes only the caller's entry with this id; every other entry stays, in order. */
    method Delete(caller: UserId, param: IdParam, fault: Option<string>) returns (resp: Response)
      requires Valid()
      modifies this
      ensures Valid() && nextId == old(nextId)
      ensures param.Malformed? ==> resp == Response(500, MessageBody(CastErrorMessage(param.raw))) && entries == old(entries)
      ensures param.ObjectId? && fault.Some? ==> resp == Response(500, MessageBody(fault.value)) && entries == old(entries)
      ensures param.ObjectId? && fault.None? ==>
        match FindOwned(old(entries), param.id, caller)
        case None => resp == Response(404, MessageBody(NOT_FOUND)) && entries == old(entries)
        case Some(i) => entries == old(entries)[..i] + old(entries)[i + 1..]
                        && resp == Response(200, MessageBody(DELETED))
    {
      if param.Malformed? {
        return Response(500, MessageBody(CastErrorMessage(param.raw)));
      }
      if fault.Some? {
        return Response(500, MessageBody(fault.value));
      }
      var found := FindOwned(entries, param.id, caller);
      if found.None? {
        return Response(404, MessageBody(NOT_FOUND));
      }
      var i := found.value;
      IdsBelowRemove(entries, nextId, i);
      entries := entries[..i] + entries[i + 1..];
      resp := Response(200, MessageBody(DELETED));
    }
  }
}
