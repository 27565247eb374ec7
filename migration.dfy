/**
 * The one-shot migration script: every stored password that does not pass
 * `isEncrypted` is replaced by its envelope, the others are skipped, and
 * three counters record the outcomes. The database is the `PasswordStore`
 * table; the random salt and IV of each `encrypt` call, the success of each
 * `updateOne` and whether the database could be reached are parameters.
 */
module Migration {
  import opened Common
  import opened Hex
  import opened Encryption
  import opened Vault
  import opened Routes

  /** What `crypto.randomBytes` hands one `encrypt` call. */
  datatype Nonce = Nonce(salt: seq<Byte>, iv: seq<Byte>)

  predicate WellSized(n: Nonce)
  {
    |n.salt| == SALT_LENGTH && |n.iv| == IV_LENGTH
  }

  /** How one document fared: which counter it increments. */
  datatype Outcome = AlreadyEncrypted | NewlyEncrypted | Failed

  /** The counters and the total the summary reports. */
  datatype Summary = Summary(total: nat, newlyEncrypted: nat, alreadyEncrypted: nat, errors: nat)

  /**
   * How a run ends. `summary` is absent when connecting or the initial `find`
   * failed; `clean` is whether the success message is printed. The connection
   * is closed and the process exits with `exitCode` on every path.
   */
  datatype Report = Report(summary: Option<Summary>, clean: bool, connectionClosed: bool, exitCode: int)

  /** The body of the loop for one document: the new document and the counter it increments. */
  function Step(doc: Entry, env: Env, p: Primitives, nonce: Nonce, written: bool, now: Time): (Entry, Outcome)
  {
    if IsEncrypted(Str(doc.password)) then (doc, AlreadyEncrypted)
    else
      match EncryptResult(doc.password, env, p, nonce.salt, nonce.iv)
      case Err(_) => (doc, Failed)
      case Ok(envelope) =>
        if written then (doc.(password := envelope, updatedAt := now), NewlyEncrypted) else (doc, Failed)
  }

  /** The documents after the loop. */
  function Migrated(docs: seq<Entry>, env: Env, p: Primitives, nonces: seq<Nonce>, written: seq<bool>, nows: seq<Time>): (r: seq<Entry>)
    requires |nonces| == |docs| && |written| == |docs| && |nows| == |docs|
    ensures |r| == |docs|
  {
    seq(|docs|, j requires 0 <= j < |docs| => Step(docs[j], env, p, nonces[j], written[j], nows[j]).0)
  }

  /** The outcome of each document, in order. */
  function Outcomes(docs: seq<Entry>, env: Env, p: Primitives, nonces: seq<Nonce>, written: seq<bool>, nows: seq<Time>): (r: seq<Outcome>)
    requires |nonces| == |docs| && |written| == |docs| && |nows| == |docs|
    ensures |r| == |docs|
  {
    seq(|docs|, j requires 0 <= j < |docs| => Step(docs[j], env, p, nonces[j], written[j], nows[j]).1)
  }

  /** How many outcomes are `k`. */
  function Count(os: seq<Outcome>, k: Outcome): (n: nat)
    ensures n <= |os|
  {
    if os == [] then 0
    else Count(os[..|os| - 1], k) + (if os[|os| - 1] == k then 1 else 0)
  }

  /** Each document increments exactly one counter, so the counters sum to the number of documents. */
  lemma {:induction false} CountsPartition(os: seq<Outcome>)
    ensures Count(os, AlreadyEncrypted) + Count(os, NewlyEncrypted) + Count(os, Failed) == |os|
  {
    if os != [] {
      CountsPartition(os[..|os| - 1]);
    }
  }

  /** A kind that never occurs is counted zero times. */
  lemma {:induction false} CountAbsent(os: seq<Outcome>, k: Outcome)
    requires forall j :: 0 <= j < |os| ==> os[j] != k
    ensures Count(os, k) == 0
  {
    if os != [] {
      CountAbsent(os[..|os| - 1], k);
    }
  }

  /** A kind that is the only one counted is counted once per element. */
  lemma {:induction false} CountAll(os: seq<Outcome>, k: Outcome)
    requires forall j :: 0 <= j < |os| ==> os[j] == k
    ensures Count(os, k) == |os|
  {
    if os != [] {
      CountAll(os[..|os| - 1], k);
    }
  }

  /** The script's three counters. */
  datatype Counters = Counters(newly: nat, already: nat, errors: nat)

  /** The counter an outcome increments goes up by one. */
  function Tally(c: Counters, o: Outcome): Counters
  {
    match o
    case NewlyEncrypted => c.(newly := c.newly + 1)
    case AlreadyEncrypted => c.(already := c.already + 1)
    case Failed => c.(errors := c.errors + 1)
  }

  /** The counters after the first `n` documents. */
  function CountsUpTo(os: seq<Outcome>, n: nat): Counters
    requires n <= |os|
  {
    if n == 0 then Counters(0, 0, 0) else Tally(CountsUpTo(os, n - 1), os[n - 1])
  }

  /** The counters after `n` documents hold the counts of each kind among the first `n` outcomes. */
  lemma {:induction false} CountsUpToPrefix(os: seq<Outcome>, n: nat)
    requires n <= |os|
    ensures CountsUpTo(os, n) == Counters(Count(os[..n], NewlyEncrypted), Count(os[..n], AlreadyEncrypted), Count(os[..n], Failed))
  {
    if n > 0 {
      CountsUpToPrefix(os, n - 1);
      assert os[..n][..n - 1] == os[..n - 1];
    }
  }

  /** One more document: tallying its outcome gives the counters after it. */
  lemma CountsUpToNext(os: seq<Outcome>, i: nat)
    requires i < |os|
    ensures Tally(CountsUpTo(os, i), os[i]) == CountsUpTo(os, i + 1)
  {
  }

  /**
   * The `try` block for one document and its `catch`: skip it if it already
   * passes the gate, otherwise encrypt its password and write it back by id
   * with a fresh `updatedAt`. Exactly one counter goes up; a thrown error
   * leaves the document as it was.
   */
  method MigrateOne(store: PasswordStore, i: nat, env: Env, p: Primitives, nonce: Nonce, written: bool, now: Time,
                    newly: nat, already: nat, errors: nat, ghost doc: Entry, ghost outcome: Outcome)
    returns (newly': nat, already': nat, errors': nat)
    requires i < |store.entries| && WellSized(nonce)
    requires (doc, outcome) == Step(store.entries[i], env, p, nonce, written, now)
    modifies store
    ensures store.entries == old(store.entries)[i := doc]
    ensures Counters(newly', already', errors') == Tally(Counters(newly, already, errors), outcome)
    ensures store.nextId == old(store.nextId)
  {
    newly', already', errors' := newly, already, errors;
    var passwordDoc := store.entries[i];
    if IsEncrypted(Str(passwordDoc.password)) {
      already' := already + 1;
      return;
    }
    var plainPassword := passwordDoc.password;
    var encryptedPassword := Encrypt(plainPassword, env, p, nonce.salt, nonce.iv);
    if encryptedPassword.Err? || !written {
      errors' := errors + 1;
      return;
    }
    store.entries := store.entries[i := passwordDoc.(password := encryptedPassword.value, updatedAt := now)];
    newly' := newly + 1;
  }

  /**
   * The `for ... of` loop over the loaded documents: each one goes through
   * the `try` block in order, and the three counters tally the outcomes.
   */
  method MigrateAll(store: PasswordStore, env: Env, p: Primitives, nonces: seq<Nonce>, written: seq<bool>, nows: seq<Time>)
    returns (encryptedCount: nat, alreadyEncryptedCount: nat, errorCount: nat)
    requires |nonces| == |store.entries| && |written| == |store.entries| && |nows| == |store.entries|
    requires forall j :: 0 <= j < |nonces| ==> WellSized(nonces[j])
    modifies store
    ensures var os := Outcomes(old(store.entries), env, p, nonces, written, nows);
      && store.entries == Migrated(old(store.entries), env, p, nonces, written, nows)
      && Counters(encryptedCount, alreadyEncryptedCount, errorCount) == CountsUpTo(os, |os|)
    ensures store.nextId == old(store.nextId)
    ensures old(store.Valid()) ==> store.Valid()
  {
    var passwords := store.entries;
    ghost var os := Outcomes(passwords, env, p, nonces, written, nows);
    ghost var ms := Migrated(passwords, env, p, nonces, written, nows);
    encryptedCount, alreadyEncryptedCount, errorCount := 0, 0, 0;
    var i := 0;
    while i < |passwords|
      invariant 0 <= i <= |passwords| && store.nextId == old(store.nextId)
      invariant |store.entries| == |passwords|
      invariant forall j :: 0 <= j < i ==> store.entries[j] == ms[j]
      invariant forall j :: i <= j < |passwords| ==> store.entries[j] == passwords[j]
      invariant Counters(encryptedCount, alreadyEncryptedCount, errorCount) == CountsUpTo(os, i)
    {
      CountsUpToNext(os, i);
      encryptedCount, alreadyEncryptedCount, errorCount :=
        MigrateOne(store, i, env, p, nonces[i], written[i], nows[i], encryptedCount, alreadyEncryptedCount, errorCount, ms[i], os[i]);
      i := i + 1;
    }
    assert store.entries == ms;
    if old(store.Valid()) {
      MigratedKeepsIds(passwords, store.nextId, env, p, nonces, written, nows);
    }
  }

  /** Migration rewrites passwords and timestamps only, so the ids stay unique and below the counter. */
  lemma MigratedKeepsIds(docs: seq<Entry>, bound: Id, env: Env, p: Primitives, nonces: seq<Nonce>, written: seq<bool>, nows: seq<Time>)
    requires |nonces| == |docs| && |written| == |docs| && |nows| == |docs|
    requires IdsBelow(docs, bound)
    ensures IdsBelow(Migrated(docs, env, p, nonces, written, nows), bound)
  {
    var ms := Migrated(docs, env, p, nonces, written, nows);
    forall j | 0 <= j < |docs| ensures ms[j].id == docs[j].id {
      StepKeepsId(docs[j], env, p, nonces[j], written[j], nows[j]);
    }
  }

  /** One step never changes a document's id or owner. */
  lemma StepKeepsId(doc: Entry, env: Env, p: Primitives, nonce: Nonce, written: bool, now: Time)
    ensures Step(doc, env, p, nonce, written, now).0.id == doc.id
    ensures Step(doc, env, p, nonce, written, now).0.userId == doc.userId
  {
  }

  /**
   * The script: connect, load every document, run the loop over them, then
   * report the counters. An error on one
   * document is counted and the loop moves on.
   */
  method MigratePasswords(store: PasswordStore, reachable: bool, env: Env, p: Primitives,
                          nonces: seq<Nonce>, written: seq<bool>, nows: seq<Time>) returns (report: Report)
    requires |nonces| == |store.entries| && |written| == |store.entries| && |nows| == |store.entries|
    requires forall j :: 0 <= j < |nonces| ==> WellSized(nonces[j])
    requires store.Valid()
    modifies store
    ensures report.connectionClosed && report.exitCode == 0
    ensures !reachable ==> report.summary.None? && store.entries == old(store.entries)
    ensures reachable ==>
      var docs := old(store.entries);
      var os := Outcomes(docs, env, p, nonces, written, nows);
      && store.entries == Migrated(docs, env, p, nonces, written, nows)
      && report.summary == Some(Summary(|docs|, Count(os, NewlyEncrypted), Count(os, AlreadyEncrypted), Count(os, Failed)))
      && report.clean == (Count(os, Failed) == 0)
    ensures report.summary.Some? ==>
      var s := report.summary.value;
      s.newlyEncrypted + s.alreadyEncrypted + s.errors == s.total
    ensures store.nextId == old(store.nextId) && store.Valid()
  {
    if !reachable {
      return Report(None, false, true, 0);
    }
    var passwords := store.entries;
    var encryptedCount, alreadyEncryptedCount, errorCount := MigrateAll(store, env, p, nonces, written, nows);
    ghost var os := Outcomes(passwords, env, p, nonces, written, nows);
    assert os[..|os|] == os;
    CountsUpToPrefix(os, |os|);
    CountsPartition(os);
    report := Report(Some(Summary(|passwords|, encryptedCount, alreadyEncryptedCount, errorCount)), errorCount == 0, true, 0);
  }

  /**
   * After a run without errors over non-empty passwords, a second run skips
   * every document: nothing is encrypted again and nothing changes.
   */
  lemma SecondRunSkipsAll(docs: seq<Entry>, env: Env, p: Primitives, nonces: seq<Nonce>, written: seq<bool>,
                          nows: seq<Time>, nonces2: seq<Nonce>, written2: seq<bool>, laters: seq<Time>)
    requires Sound(p)
    requires |nonces| == |docs| && |written| == |docs| && |nows| == |docs|
    requires |nonces2| == |docs| && |written2| == |docs| && |laters| == |docs|
    requires forall j :: 0 <= j < |nonces| ==> WellSized(nonces[j])
    requires forall j :: 0 <= j < |docs| ==> docs[j].password != ""
    requires Count(Outcomes(docs, env, p, nonces, written, nows), Failed) == 0
    ensures var once := Migrated(docs, env, p, nonces, written, nows);
      && Migrated(once, env, p, nonces2, written2, laters) == once
      && Count(Outcomes(once, env, p, nonces2, written2, laters), NewlyEncrypted) == 0
      && Count(Outcomes(once, env, p, nonces2, written2, laters), AlreadyEncrypted) == |docs|
  {
    var os := Outcomes(docs, env, p, nonces, written, nows);
    var once := Migrated(docs, env, p, nonces, written, nows);
    NoFailureMeansNone(os);
    forall j | 0 <= j < |docs| ensures IsEncrypted(Str(once[j].password)) {
      if !IsEncrypted(Str(docs[j].password)) {
        assert os[j] != Failed;
        EncryptedTextRecognised(docs[j].password, env, p, nonces[j].salt, nonces[j].iv);
      }
    }
    var os2 := Outcomes(once, env, p, nonces2, written2, laters);
    assert forall j :: 0 <= j < |os2| ==> os2[j] == AlreadyEncrypted;
    CountAbsent(os2, NewlyEncrypted);
    CountAll(os2, AlreadyEncrypted);
  }

  /** A zero failure count means no document failed. */
  lemma {:induction false} NoFailureMeansNone(os: seq<Outcome>)
    requires Count(os, Failed) == 0
    ensures forall j :: 0 <= j < |os| ==> os[j] != Failed
  {
    if os != [] {
      NoFailureMeansNone(os[..|os| - 1]);
      assert forall j :: 0 <= j < |os| - 1 ==> os[..|os| - 1][j] == os[j];
    }
  }

  /**
   * An empty stored password is never settled: the first run turns it into
   * an envelope with an empty ciphertext field, which the gate refuses, so
   * the next run encrypts that envelope text again.
   */
  lemma EmptyPasswordEncryptedTwice(doc: Entry, env: Env, p: Primitives, n1: Nonce, n2: Nonce, now: Time, later: Time)
    requires Sound(p) && KeyConfigured(env) && WellSized(n1) && WellSized(n2)
    requires doc.password == ""
    ensures var (once, o1) := Step(doc, env, p, n1, true, now);
      && o1 == NewlyEncrypted
      && Step(once, env, p, n2, true, later).1 == NewlyEncrypted
      && Step(once, env, p, n2, true, later).0.password == EncryptResult(once.password, env, p, n2.salt, n2.iv).value
  {
    EncryptedTextRecognised("", env, p, n1.salt, n1.iv);
    var once := Step(doc, env, p, n1, true, now).0;
    assert once.password == EncryptResult("", env, p, n1.salt, n1.iv).value;
    assert !IsEncrypted(Str(once.password));
  }

  /**
   * With the corrected gate `IsEnvelope`, one clean run settles every
   * document, the empty password included: each stored password afterwards
   * is an envelope the gate accepts, so a second run would skip them all.
   */
  lemma EveryMigratedPasswordIsAnEnvelope(docs: seq<Entry>, env: Env, p: Primitives, nonces: seq<Nonce>,
                                          written: seq<bool>, nows: seq<Time>)
    requires Sound(p)
    requires |nonces| == |docs| && |written| == |docs| && |nows| == |docs|
    requires forall j :: 0 <= j < |nonces| ==> WellSized(nonces[j])
    requires Count(Outcomes(docs, env, p, nonces, written, nows), Failed) == 0
    ensures forall j :: 0 <= j < |docs| ==> IsEnvelope(Str(Migrated(docs, env, p, nonces, written, nows)[j].password))
  {
    var os := Outcomes(docs, env, p, nonces, written, nows);
    var once := Migrated(docs, env, p, nonces, written, nows);
    NoFailureMeansNone(os);
    forall j | 0 <= j < |docs| ensures IsEnvelope(Str(once[j].password)) {
      if IsEncrypted(Str(docs[j].password)) {
        EnvelopeGateWidensOnlyEmpty(Str(docs[j].password));
      } else {
        assert os[j] != Failed;
        EnvelopeGateAcceptsEncryption(docs[j].password, env, p, nonces[j].salt, nonces[j].iv);
      }
    }
  }
}
