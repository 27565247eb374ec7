/**
 * The stored password entry and the schema rules of its model: which paths
 * are required, which are trimmed, the timestamp defaults and the
 * `pre('save')` hook that refreshes `updatedAt`. The schema has no
 * encryption hook: the password is stored exactly as given.
 */
module Vault {
  import opened Common
  import opened Text

  /** Document ids (`_id`) and user ids are opaque; naturals stand for ObjectIds. */
  type Id = nat
  type UserId = nat

  /** Milliseconds since the epoch, as `Date.now()` returns them. */
  type Time = int

  datatype Entry = Entry(
    id: Id,
    userId: UserId,
    website: string,
    username: string,
    password: string,
    createdAt: Time,
    updatedAt: Time)

  /** The three body fields a request supplies; `None` is a field the body left out. */
  datatype Draft = Draft(website: Option<string>, username: Option<string>, password: Option<string>)

  /** The schema paths that carry a `required` rule, in schema order. */
  datatype Path = UserIdPath | WebsitePath | UsernamePath | PasswordPath

  /** The message the `required` validator reports for each path. */
  function RequiredMessage(path: Path): string
  {
    match path
    case UserIdPath => "Path `userId` is required."
    case WebsitePath => "Website is required"
    case UsernamePath => "Username is required"
    case PasswordPath => "Password is required"
  }

  /** A string path after its setters: `website` and `username` are trimmed, `password` is not. */
  function Cast(path: Path, value: string): string
  {
    if path == WebsitePath || path == UsernamePath then Trim(value) else value
  }

  /** Mongoose's `required` check on a string path: present and non-empty. */
  predicate Filled(value: Option<string>)
  {
    value.Some? && value.value != ""
  }

  /** The value a string path holds once its setter has run. */
  function CastOption(path: Path, value: Option<string>): Option<string>
  {
    match value
    case None => None
    case Some(s) => Some(Cast(path, s))
  }

  /** The required paths in schema order, keeping those whose flag says they are missing. */
  function MissingAmong(userId: bool, website: bool, username: bool, password: bool): (missing: seq<Path>)
    ensures UserIdPath in missing <==> userId
    ensures WebsitePath in missing <==> website
    ensures UsernamePath in missing <==> username
    ensures PasswordPath in missing <==> password
  {
    (if userId then [UserIdPath] else [])
    + (if website then [WebsitePath] else [])
    + (if username then [UsernamePath] else [])
    + (if password then [PasswordPath] else [])
  }

  /** The paths that fail `required`, in schema order. */
  function MissingPaths(userId: Option<UserId>, d: Draft): (missing: seq<Path>)
    ensures UserIdPath in missing <==> userId.None?
    ensures WebsitePath in missing <==> !Filled(CastOption(WebsitePath, d.website))
    ensures UsernamePath in missing <==> !Filled(CastOption(UsernamePath, d.username))
    ensures PasswordPath in missing <==> !Filled(d.password)
  {
    MissingAmong(
      userId.None?,
      !Filled(CastOption(WebsitePath, d.website)),
      !Filled(CastOption(UsernamePath, d.username)),
      !Filled(d.password))
  }

  /**
   * `new Password({...})` followed by validation: the defaults give both
   * timestamps the creation time, the setters trim, and the document is
   * valid exactly when no required path is missing.
   */
  function Build(id: Id, userId: Option<UserId>, d: Draft, now: Time): (r: Result<Entry, seq<Path>>)
    ensures r.Ok? <==> userId.Some? && Filled(CastOption(WebsitePath, d.website))
                       && Filled(CastOption(UsernamePath, d.username)) && Filled(d.password)
    ensures r.Ok? ==> && r.value.id == id && r.value.userId == userId.value
                      && r.value.website == Trim(d.website.value) && r.value.website != ""
                      && r.value.username == Trim(d.username.value) && r.value.username != ""
                      && r.value.password == d.password.value && r.value.password != ""
                      && r.value.createdAt == now && r.value.updatedAt == now
    ensures r.Err? ==> r.error == MissingPaths(userId, d) && r.error != []
  {
    var missing := MissingPaths(userId, d);
    if missing != [] then Err(missing)
    else Ok(Entry(id, userId.value, Trim(d.website.value), Trim(d.username.value), d.password.value, now, now))
  }

  /** The `pre('save')` hook: `updatedAt` becomes the time of the save and no other field changes. */
  function PreSave(e: Entry, now: Time): (r: Entry)
    ensures r.updatedAt == now
    ensures r.(updatedAt := e.updatedAt) == e
  {
    e.(updatedAt := now)
  }

  /**
   * A stored entry obeys the schema: both text paths trimmed and non-empty,
   * and a non-empty password.
   */
  predicate WellFormed(e: Entry)
  {
    e.website != "" && Trim(e.website) == e.website
    && e.username != "" && Trim(e.username) == e.username
    && e.password != ""
  }

  /** Every entry that passes validation and the save hook obeys the schema. */
  lemma BuiltEntryWellFormed(id: Id, userId: Option<UserId>, d: Draft, now: Time, saved: Time)
    requires Build(id, userId, d, now).Ok?
    ensures WellFormed(PreSave(Build(id, userId, d, now).value, saved))
  {
    TrimIdempotent(d.website.value);
    TrimIdempotent(d.username.value);
  }

  /**
   * The update `findOneAndUpdate` applies: the setters trim `website` and
   * `username`, `password` is stored as given, `updatedAt` is the time of the
   * request, and a field the body left out keeps its value. No validator
   * runs, so an empty value is stored as it is.
   */
  function Revise(e: Entry, d: Draft, now: Time): (r: Entry)
    ensures r.id == e.id && r.userId == e.userId && r.createdAt == e.createdAt
    ensures r.updatedAt == now
    ensures r.website == (if d.website.Some? then Trim(d.website.value) else e.website)
    ensures r.username == (if d.username.Some? then Trim(d.username.value) else e.username)
    ensures r.password == (if d.password.Some? then d.password.value else e.password)
  {
    e.(website := if d.website.Some? then Cast(WebsitePath, d.website.value) else e.website,
       username := if d.username.Some? then Cast(UsernamePath, d.username.value) else e.username,
       password := if d.password.Some? then d.password.value else e.password,
       updatedAt := now)
  }

  /**
   * An update keeps an entry well-formed when every field it supplies is
   * non-empty after the setters run; nothing else guards it.
   */
  lemma ReviseKeepsWellFormed(e: Entry, d: Draft, now: Time)
    requires WellFormed(e)
    requires d.website.Some? ==> Trim(d.website.value) != ""
    requires d.username.Some? ==> Trim(d.username.value) != ""
    requires d.password.Some? ==> d.password.value != ""
    ensures WellFormed(Revise(e, d, now))
  {
    if d.website.Some? {
      TrimIdempotent(d.website.value);
    }
    if d.username.Some? {
      TrimIdempotent(d.username.value);
    }
  }

  /** Without validators an update can store what a save would refuse, such as an empty password. */
  lemma ReviseCanBreakWellFormed(e: Entry, now: Time)
    ensures Revise(e, Draft(None, None, Some("")), now).password == ""
    ensures !WellFormed(Revise(e, Draft(None, None, Some("")), now))
  {
  }
}
