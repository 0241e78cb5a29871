/**
 The two tables `add_user` writes, as immutable sequences of rows in
 insertion order, and one registration step.

 `accounts` rows are (id, username, password digest); `text_speech` rows
 are (id, user_id, transcribed text). sqlite assigns both ids (`lastrowid`
 for the account); the model takes the id choice as a parameter, and the
 invariants below hold whenever that choice returns an id not already in
 the table.
 */
module Store {
  import opened Utf8
  import Credential
  import Username

  datatype Account = Account(id: int, username: string, password: Credential.Digest)

  datatype Transcript = Transcript(id: int, userId: int, text: string)

  datatype Store = Store(accounts: seq<Account>, transcripts: seq<Transcript>)

  const Empty: Store := Store([], [])

  /** One round of operator input: the three prompts, then the continuation answer. */
  datatype Entry = Entry(username: string, password: string, text: string, answer: string)

  /**
   What the store's environment supplies: the hash function, and the ids
   sqlite assigns to a new `accounts` row and a new `text_speech` row given
   the rows already in that table.
   */
  datatype Env = Env(
    sha256: seq<byte> -> Credential.Digest,
    accountId: seq<Account> -> int,
    transcriptId: seq<Transcript> -> int)

  function AccountIds(accounts: seq<Account>): set<int> {
    set a | a in accounts :: a.id
  }

  function TranscriptIds(transcripts: seq<Transcript>): set<int> {
    set t | t in transcripts :: t.id
  }

  /** The environment never hands out an id that is already taken. */
  ghost predicate FreshIds(env: Env) {
    && (forall accounts: seq<Account> :: env.accountId(accounts) !in AccountIds(accounts))
    && (forall transcripts: seq<Transcript> :: env.transcriptId(transcripts) !in TranscriptIds(transcripts))
  }

  predicate UniqueAccountIds(accounts: seq<Account>) {
    forall i, j :: 0 <= i < j < |accounts| ==> accounts[i].id != accounts[j].id
  }

  predicate UniqueTranscriptIds(transcripts: seq<Transcript>) {
    forall i, j :: 0 <= i < j < |transcripts| ==> transcripts[i].id != transcripts[j].id
  }

  /** The declared foreign key: every transcript names an existing account. */
  predicate Linked(st: Store) {
    forall t :: t in st.transcripts ==> t.userId in AccountIds(st.accounts)
  }

  /** Primary keys are unique and the foreign key holds. */
  predicate WellFormed(st: Store) {
    && UniqueAccountIds(st.accounts)
    && UniqueTranscriptIds(st.transcripts)
    && Linked(st)
  }

  /** Rows come in registration pairs: the i-th transcript belongs to the i-th account. */
  predicate Paired(st: Store) {
    && |st.accounts| == |st.transcripts|
    && forall i :: 0 <= i < |st.transcripts| ==> st.transcripts[i].userId == st.accounts[i].id
  }

  /** `before` is an unchanged prefix of `after`, table by table. */
  predicate Extends(after: Store, before: Store) {
    && |before.accounts| <= |after.accounts|
    && |before.transcripts| <= |after.transcripts|
    && after.accounts[..|before.accounts|] == before.accounts
    && after.transcripts[..|before.transcripts|] == before.transcripts
  }

  lemma ExtendsTransitive(a: Store, b: Store, c: Store)
    requires Extends(b, a) && Extends(c, b)
    ensures Extends(c, a)
  {
  }

  /**
   One pass of the `add_user` loop body after the three prompts: a
   rejected username changes nothing; an accepted one inserts the account
   row (username and salted digest), then a transcript row pointing at the
   id just assigned to that account.
   */
  function Register(st: Store, e: Entry, salt: Credential.Salt, env: Env): (r: Store)
    ensures !Username.Accepted(e.username) ==> r == st
    ensures Username.Accepted(e.username) ==>
      && Extends(r, st)
      && |r.accounts| == |st.accounts| + 1
      && |r.transcripts| == |st.transcripts| + 1
      && r.accounts[|st.accounts|].username == e.username
      && r.accounts[|st.accounts|].password == Credential.StoredDigest(env.sha256, salt, e.password)
      && r.transcripts[|st.transcripts|].userId == r.accounts[|st.accounts|].id
      && r.transcripts[|st.transcripts|].text == e.text
  {
    if !Username.Accepted(e.username) then st
    else
      var digest := Credential.StoredDigest(env.sha256, salt, e.password);
      var account := Account(env.accountId(st.accounts), e.username, digest);
      var transcript := Transcript(env.transcriptId(st.transcripts), account.id, e.text);
      Store(st.accounts + [account], st.transcripts + [transcript])
  }

  /** The store changes exactly when the username is accepted. */
  lemma RegisterChangesIff(st: Store, e: Entry, salt: Credential.Salt, env: Env)
    ensures Register(st, e, salt, env) != st <==> Username.Accepted(e.username)
  {
  }

  /** With fresh ids, a registration keeps the keys unique and the foreign key intact. */
  lemma RegisterPreservesWellFormed(st: Store, e: Entry, salt: Credential.Salt, env: Env)
    requires FreshIds(env)
    requires WellFormed(st)
    ensures WellFormed(Register(st, e, salt, env))
  {
  }

  /** A registration keeps rows paired: the new transcript sits beside its own account. */
  lemma RegisterPreservesPaired(st: Store, e: Entry, salt: Credential.Salt, env: Env)
    requires Paired(st)
    ensures Paired(Register(st, e, salt, env))
  {
  }

  /** Paired rows satisfy the foreign key. */
  lemma PairedIsLinked(st: Store)
    requires Paired(st)
    ensures Linked(st)
  {
  }

  /**
   The salt is not stored: two salts that give the same digest give the
   same store, so nothing but the digest depends on the salt.
   */
  lemma SaltNotStored(st: Store, e: Entry, salt1: Credential.Salt, salt2: Credential.Salt, env: Env)
    requires Credential.StoredDigest(env.sha256, salt1, e.password)
          == Credential.StoredDigest(env.sha256, salt2, e.password)
    ensures Register(st, e, salt1, env) == Register(st, e, salt2, env)
  {
  }
}
