/**
 The registration loop of `UserDatabase.add_user` and the `initialize`
 sequence around it. Console input becomes a finite sequence of entries;
 the salt drawn for the i-th entry is `salts[i]`.

 Each round reads a username, a password and a text. A rejected username
 restarts the round at once. An accepted one is registered and the
 continuation answer is read; the loop ends when that answer lowercases to
 "n". When the entries run out first, `input()` would raise `EOFError`:
 the model reports `OutOfInput` with the rows committed so far.
 */
module Session {
  import opened Store
  import Credential
  import Username
  import Schema
  import Ascii

  /** The test `another_user.lower() == 'n'`, with `str.lower()` applied to ASCII letters. */
  predicate IsQuit(answer: string) {
    Ascii.Lower(answer) == "n"
  }

  /** Only "n" and "N" end the loop; every other answer, the empty one included, continues it. */
  lemma QuitIff(answer: string)
    ensures IsQuit(answer) <==> answer == "n" || answer == "N"
  {
  }

  /** The round that ends the loop: an accepted username answered with "n". */
  predicate Stops(e: Entry) {
    Username.Accepted(e.username) && IsQuit(e.answer)
  }

  datatype Ending = Quit | OutOfInput

  /** The store after the loop, how many entries it read, and why it stopped. */
  datatype Outcome = Outcome(store: Store, consumed: nat, ending: Ending)

  /** The same outcome, counted from `n` entries earlier. */
  function Shift(o: Outcome, n: nat): Outcome {
    Outcome(o.store, o.consumed + n, o.ending)
  }

  /**
   The loop as a fold over the entries. It only ever appends, and it stops
   at the first accepted entry whose answer is "n", or after the last entry.
   */
  function Run(st: Store, inputs: seq<Entry>, salts: seq<Credential.Salt>, env: Env): (r: Outcome)
    requires |salts| == |inputs|
    ensures r.consumed <= |inputs|
    ensures Extends(r.store, st)
    ensures r.ending == Quit <==> exists i :: 0 <= i < |inputs| && Stops(inputs[i])
    ensures r.ending == Quit ==>
      && 0 < r.consumed
      && Stops(inputs[r.consumed - 1])
      && forall i :: 0 <= i < r.consumed - 1 ==> !Stops(inputs[i])
    ensures r.ending == OutOfInput ==> r.consumed == |inputs|
    decreases |inputs|
  {
    if inputs == [] then Outcome(st, 0, OutOfInput)
    else
      var e := inputs[0];
      if !Username.Accepted(e.username) then
        Shift(Run(st, inputs[1..], salts[1..], env), 1)
      else
        var next := Register(st, e, salts[0], env);
        if IsQuit(e.answer) then Outcome(next, 1, Quit)
        else
          var rest := Run(next, inputs[1..], salts[1..], env);
          ExtendsTransitive(st, next, rest.store);
          Shift(rest, 1)
  }

  /** The entries whose username is accepted, in input order. */
  function AcceptedEntries(inputs: seq<Entry>): (r: seq<Entry>)
    ensures |r| <= |inputs|
  {
    if inputs == [] then []
    else if Username.Accepted(inputs[0].username) then [inputs[0]] + AcceptedEntries(inputs[1..])
    else AcceptedEntries(inputs[1..])
  }

  /**
   `after` holds `before`'s rows followed by one account and one
   transcript per entry of `acc`, in order, carrying that entry's username
   and text.
   */
  predicate Records(before: Store, after: Store, acc: seq<Entry>) {
    && |after.accounts| == |before.accounts| + |acc|
    && |after.transcripts| == |before.transcripts| + |acc|
    && (forall k :: 0 <= k < |acc| ==> after.accounts[|before.accounts| + k].username == acc[k].username)
    && (forall k :: 0 <= k < |acc| ==> after.transcripts[|before.transcripts| + k].text == acc[k].text)
  }

  lemma RecordsCons(st: Store, next: Store, after: Store, e: Entry, tail: seq<Entry>)
    requires Extends(after, next)
    requires |next.accounts| == |st.accounts| + 1 && |next.transcripts| == |st.transcripts| + 1
    requires next.accounts[|st.accounts|].username == e.username
    requires next.transcripts[|st.transcripts|].text == e.text
    requires Records(next, after, tail)
    ensures Records(st, after, [e] + tail)
  {
  }

  /** The loop adds one account and one transcript per accepted entry it read, in input order. */
  lemma {:induction false} RunRecordsAccepted(st: Store, inputs: seq<Entry>, salts: seq<Credential.Salt>, env: Env)
    requires |salts| == |inputs|
    ensures var r := Run(st, inputs, salts, env);
      Records(st, r.store, AcceptedEntries(inputs[..r.consumed]))
    decreases |inputs|
  {
    var r := Run(st, inputs, salts, env);
    if inputs == [] {
      assert inputs[..r.consumed] == [];
    } else {
      var e := inputs[0];
      var pre := inputs[..r.consumed];
      if !Username.Accepted(e.username) {
        var rest := Run(st, inputs[1..], salts[1..], env);
        RunRecordsAccepted(st, inputs[1..], salts[1..], env);
        assert pre[1..] == inputs[1..][..rest.consumed];
        assert pre[0] == e;
      } else {
        var next := Register(st, e, salts[0], env);
        if IsQuit(e.answer) {
          assert pre == [e];
          assert AcceptedEntries(pre) == [e] + AcceptedEntries([]);
        } else {
          var rest := Run(next, inputs[1..], salts[1..], env);
          RunRecordsAccepted(next, inputs[1..], salts[1..], env);
          assert pre[1..] == inputs[1..][..rest.consumed];
          assert pre[0] == e;
          RecordsCons(st, next, rest.store, e, AcceptedEntries(inputs[1..][..rest.consumed]));
        }
      }
    }
  }

  /** When every username is rejected, neither table changes. */
  lemma AllRejectedChangesNothing(st: Store, inputs: seq<Entry>, salts: seq<Credential.Salt>, env: Env)
    requires |salts| == |inputs|
    requires forall i :: 0 <= i < |inputs| ==> !Username.Accepted(inputs[i].username)
    ensures Run(st, inputs, salts, env).store == st
    ensures Run(st, inputs, salts, env).ending == OutOfInput
  {
  }

  /**
   A rejected username restarts the round: the store is untouched, the
   entry's answer is never consulted, and the loop carries on with the
   next entry.
   */
  lemma RejectedRestarts(st: Store, e: Entry, rest: seq<Entry>, salt: Credential.Salt, salts: seq<Credential.Salt>, env: Env)
    requires |salts| == |rest|
    requires !Username.Accepted(e.username)
    ensures Run(st, [e] + rest, [salt] + salts, env) == Shift(Run(st, rest, salts, env), 1)
  {
  }

  /** After an accepted username, the loop ends on that round exactly when the answer is "n" or "N". */
  lemma AcceptedStopsIff(st: Store, e: Entry, rest: seq<Entry>, salt: Credential.Salt, salts: seq<Credential.Salt>, env: Env)
    requires |salts| == |rest|
    requires Username.Accepted(e.username)
    ensures var r := Run(st, [e] + rest, [salt] + salts, env);
      (r.ending == Quit && r.consumed == 1) <==> e.answer == "n" || e.answer == "N"
  {
  }

  /** With fresh ids, the loop keeps keys unique and the foreign key intact. */
  lemma {:induction false} RunPreservesWellFormed(st: Store, inputs: seq<Entry>, salts: seq<Credential.Salt>, env: Env)
    requires |salts| == |inputs|
    requires FreshIds(env)
    requires WellFormed(st)
    ensures WellFormed(Run(st, inputs, salts, env).store)
    decreases |inputs|
  {
    if inputs != [] {
      var e := inputs[0];
      if !Username.Accepted(e.username) {
        RunPreservesWellFormed(st, inputs[1..], salts[1..], env);
      } else {
        var next := Register(st, e, salts[0], env);
        RegisterPreservesWellFormed(st, e, salts[0], env);
        if !IsQuit(e.answer) {
          RunPreservesWellFormed(next, inputs[1..], salts[1..], env);
        }
      }
    }
  }

  /** The loop keeps every transcript beside the account registered with it. */
  lemma {:induction false} RunPreservesPaired(st: Store, inputs: seq<Entry>, salts: seq<Credential.Salt>, env: Env)
    requires |salts| == |inputs|
    requires Paired(st)
    ensures Paired(Run(st, inputs, salts, env).store)
    decreases |inputs|
  {
    if inputs != [] {
      var e := inputs[0];
      if !Username.Accepted(e.username) {
        RunPreservesPaired(st, inputs[1..], salts[1..], env);
      } else {
        var next := Register(st, e, salts[0], env);
        RegisterPreservesPaired(st, e, salts[0], env);
        if !IsQuit(e.answer) {
          RunPreservesPaired(next, inputs[1..], salts[1..], env);
        }
      }
    }
  }

  /** Started on an empty store with fresh ids, the loop leaves unique keys and every transcript beside its account. */
  lemma RunFromEmpty(inputs: seq<Entry>, salts: seq<Credential.Salt>, env: Env)
    requires |salts| == |inputs|
    requires FreshIds(env)
    ensures var st := Run(Empty, inputs, salts, env).store;
      WellFormed(st) && Paired(st)
  {
    RunPreservesWellFormed(Empty, inputs, salts, env);
    RunPreservesPaired(Empty, inputs, salts, env);
  }

  /**
   The `while True` loop as written: a rejected username `continue`s, an
   answer of "n" `break`s, and running out of entries (where `input()`
   would raise) also leaves the loop. It computes exactly what the fold does.
   */
  method AddUser(st: Store, inputs: seq<Entry>, salts: seq<Credential.Salt>, env: Env) returns (r: Outcome)
    requires |salts| == |inputs|
    ensures r == Run(st, inputs, salts, env)
  {
    var current := st;
    var i := 0;
    var ending := OutOfInput;
    while true
      invariant 0 <= i <= |inputs|
      invariant ending == OutOfInput
      invariant Run(st, inputs, salts, env) == Shift(Run(current, inputs[i..], salts[i..], env), i)
      decreases |inputs| - i
    {
      if i == |inputs| {
        assert inputs[i..] == [];
        break;
      }
      var e := inputs[i];
      assert inputs[i..][1..] == inputs[i + 1..];
      assert salts[i..][1..] == salts[i + 1..];
      if !Username.Accepted(e.username) {
        i := i + 1;
        continue;
      }
      current := Register(current, e, salts[i], env);
      i := i + 1;
      if IsQuit(e.answer) {
        ending := Quit;
        break;
      }
    }
    r := Outcome(current, i, ending);
  }

  /** The schema and the rows together. */
  datatype Database = Database(catalog: Schema.Catalog, store: Store)

  /**
   `initialize`: create both tables if absent, then run the registration
   loop. Tables that already exist and rows already stored are kept.
   */
  function Initialize(db: Database, inputs: seq<Entry>, salts: seq<Credential.Salt>, env: Env): (r: Database)
    requires |salts| == |inputs|
    ensures Schema.TableExists(r.catalog, Schema.AccountsName) && Schema.TableExists(r.catalog, Schema.TextSpeechName)
    ensures forall n :: n in db.catalog ==> n in r.catalog && r.catalog[n] == db.catalog[n]
    ensures r.catalog.Keys == db.catalog.Keys
      + (if Schema.TableExists(db.catalog, Schema.AccountsName) then {} else {Schema.AccountsName})
      + (if Schema.TableExists(db.catalog, Schema.TextSpeechName) then {} else {Schema.TextSpeechName})
    ensures Extends(r.store, db.store)
    ensures Records(db.store, r.store, AcceptedEntries(inputs[..Run(db.store, inputs, salts, env).consumed]))
  {
    RunRecordsAccepted(db.store, inputs, salts, env);
    Database(Schema.Setup(db.catalog), Run(db.store, inputs, salts, env).store)
  }

  /** A second session leaves the schema as the first one left it and keeps all its rows. */
  lemma SecondSessionKeepsSchemaAndRows(
    db: Database,
    inputs1: seq<Entry>, salts1: seq<Credential.Salt>,
    inputs2: seq<Entry>, salts2: seq<Credential.Salt>,
    env: Env)
    requires |salts1| == |inputs1| && |salts2| == |inputs2|
    ensures var first := Initialize(db, inputs1, salts1, env);
      var second := Initialize(first, inputs2, salts2, env);
      second.catalog == first.catalog && Extends(second.store, first.store)
  {
  }
}
