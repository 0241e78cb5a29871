/**
 Concrete sessions, each stated for every hash function, id choice and
 salt: the rejected usernames `ab`, `1abcde` and `abc def`; `validuser1`
 registered and answered `N`; `bad` then `validuser2`.
 */
module Scenarios {
  import opened Store
  import opened Session
  import Credential
  import Username

  /** Too short, digit first, and an inner space are rejected; "validuser1" is accepted. */
  lemma UsernameExamples()
    ensures !Username.Accepted("ab")
    ensures !Username.Accepted("1abcde")
    ensures !Username.Accepted("abc def")
    ensures Username.Accepted("validuser1")
  {
    Username.AcceptedIffPlainFormat("ab");
    Username.AcceptedIffPlainFormat("1abcde");
    Username.AcceptedIffPlainFormat("abc def");
    assert !Username.IsNameChar("abc def"[3]);
    Username.AcceptedIffPlainFormat("validuser1");
  }

  /** One valid registration answered with "N": one account, one linked transcript, then the loop ends. */
  lemma SingleRegistration(env: Env, salt: Credential.Salt)
    ensures var r := Run(Empty, [Entry("validuser1", "Secret123", "hello world", "N")], [salt], env);
      && r.ending == Quit
      && r.consumed == 1
      && |r.store.accounts| == 1
      && |r.store.transcripts| == 1
      && r.store.accounts[0].username == "validuser1"
      && r.store.accounts[0].password == Credential.StoredDigest(env.sha256, salt, "Secret123")
      && |r.store.accounts[0].password| == 32
      && r.store.transcripts[0].userId == r.store.accounts[0].id
      && r.store.transcripts[0].text == "hello world"
  {
    UsernameExamples();
    QuitIff("N");
  }

  /** "bad" is rejected and "validuser2" registered: exactly one account in all. */
  lemma RejectedThenRegistered(env: Env, salt1: Credential.Salt, salt2: Credential.Salt)
    ensures var inputs := [Entry("bad", "Secret123", "first", "Y"), Entry("validuser2", "Secret123", "second", "n")];
      var r := Run(Empty, inputs, [salt1, salt2], env);
      && r.ending == Quit
      && r.consumed == 2
      && |r.store.accounts| == 1
      && |r.store.transcripts| == 1
      && r.store.accounts[0].username == "validuser2"
      && r.store.transcripts[0].userId == r.store.accounts[0].id
      && r.store.transcripts[0].text == "second"
  {
    Username.AcceptedIffPlainFormat("bad");
    Username.AcceptedIffPlainFormat("validuser2");
    QuitIff("n");
    var inputs := [Entry("bad", "Secret123", "first", "Y"), Entry("validuser2", "Secret123", "second", "n")];
    assert inputs[1..] == [Entry("validuser2", "Secret123", "second", "n")];
    assert [salt1, salt2][1..] == [salt2];
  }
}
