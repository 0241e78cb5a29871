/**
 The schema `create_accounts_table` and `create_text_speech_table` set up,
 and the meaning of `CREATE TABLE IF NOT EXISTS`: when a table of that
 name already exists (names compared without regard to letter case) it is
 left exactly as it is, whatever definition was asked for.
 */
module Schema {
  import Ascii

  datatype SqlType = Integer | Text

  datatype Column = Column(name: string, sqlType: SqlType, primaryKey: bool)

  /** `FOREIGN KEY(column) REFERENCES table(refColumn)` */
  datatype ForeignKey = ForeignKey(column: string, table: string, refColumn: string)

  datatype Table = Table(columns: seq<Column>, foreignKeys: seq<ForeignKey>)

  /** The database's tables by name. */
  type Catalog = map<string, Table>

  const AccountsName: string := "accounts"
  const TextSpeechName: string := "text_speech"

  /** `accounts (id INTEGER PRIMARY KEY, username TEXT, password TEXT)` */
  const AccountsTable: Table := Table(
    [Column("id", Integer, true), Column("username", Text, false), Column("password", Text, false)],
    [])

  /**
   `text_speech (id INTEGER PRIMARY KEY, user_id INTEGER, transcribed_text TEXT,
   FOREIGN KEY(user_id) REFERENCES accounts(id))`
   */
  const TextSpeechTable: Table := Table(
    [Column("id", Integer, true), Column("user_id", Integer, false), Column("transcribed_text", Text, false)],
    [ForeignKey("user_id", AccountsName, "id")])

  /**
   A table called `name` exists: sqlite compares table names without
   regard to the case of ASCII letters, so `Accounts` counts as `accounts`.
   */
  predicate TableExists(cat: Catalog, name: string) {
    exists n :: n in cat && Ascii.SameIgnoringCase(n, name)
  }

  /** `CREATE TABLE IF NOT EXISTS name (...)` */
  function CreateTableIfNotExists(cat: Catalog, name: string, def: Table): (r: Catalog)
    ensures TableExists(r, name)
    ensures TableExists(cat, name) ==> r == cat
    ensures !TableExists(cat, name) ==> r.Keys == cat.Keys + {name} && r[name] == def
    ensures forall n :: n in cat ==> n in r && r[n] == cat[n]
  {
    if TableExists(cat, name) then cat
    else
      var r := cat[name := def];
      assert name in r && Ascii.SameIgnoringCase(name, name);
      r
  }

  function CreateAccountsTable(cat: Catalog): Catalog {
    CreateTableIfNotExists(cat, AccountsName, AccountsTable)
  }

  function CreateTextSpeechTable(cat: Catalog): Catalog {
    CreateTableIfNotExists(cat, TextSpeechName, TextSpeechTable)
  }

  /** The two creations `initialize` performs before the registration loop. */
  function Setup(cat: Catalog): (r: Catalog)
    ensures TableExists(r, AccountsName) && TableExists(r, TextSpeechName)
    ensures r.Keys == cat.Keys
      + (if TableExists(cat, AccountsName) then {} else {AccountsName})
      + (if TableExists(cat, TextSpeechName) then {} else {TextSpeechName})
    ensures forall n :: n in cat ==> n in r && r[n] == cat[n]
    ensures !TableExists(cat, AccountsName) ==> AccountsName in r && r[AccountsName] == AccountsTable
    ensures !TableExists(cat, TextSpeechName) ==> TextSpeechName in r && r[TextSpeechName] == TextSpeechTable
    ensures TableExists(cat, AccountsName) && TableExists(cat, TextSpeechName) ==> r == cat
  {
    SecondCreationKeepsFirst(cat);
    SetupAddsOnlyAbsent(cat);
    CreateTextSpeechTable(CreateAccountsTable(cat))
  }

  /** `accounts` and `text_speech` are different names in any letter case. */
  lemma TableNamesDiffer()
    ensures !Ascii.SameIgnoringCase(AccountsName, TextSpeechName)
  {
    assert |Ascii.Lower(AccountsName)| != |Ascii.Lower(TextSpeechName)|;
  }

  /** Creating `name` changes whether `other` exists only when the two names agree up to case. */
  lemma CreateKeepsOtherExistence(cat: Catalog, name: string, def: Table, other: string)
    requires !Ascii.SameIgnoringCase(name, other)
    ensures TableExists(CreateTableIfNotExists(cat, name, def), other) <==> TableExists(cat, other)
  {
    var r := CreateTableIfNotExists(cat, name, def);
    if TableExists(cat, other) {
      var m :| m in cat && Ascii.SameIgnoringCase(m, other);
      assert m in r;
    }
    if TableExists(r, other) {
      var m :| m in r && Ascii.SameIgnoringCase(m, other);
      assert m != name;
      assert m in cat;
    }
  }

  /** Creating `text_speech` neither removes `accounts` nor is blocked by it. */
  lemma SecondCreationKeepsFirst(cat: Catalog)
    ensures var once := CreateAccountsTable(cat);
      var r := CreateTextSpeechTable(once);
      && TableExists(r, AccountsName)
      && (!TableExists(cat, AccountsName) ==> AccountsName in r && r[AccountsName] == AccountsTable)
      && (TableExists(once, TextSpeechName) <==> TableExists(cat, TextSpeechName))
  {
    var once := CreateAccountsTable(cat);
    var r := CreateTextSpeechTable(once);
    var n :| n in once && Ascii.SameIgnoringCase(n, AccountsName);
    assert n in r;
    TableNamesDiffer();
    CreateKeepsOtherExistence(cat, AccountsName, AccountsTable, TextSpeechName);
  }

  /** The two creations add exactly the names of the tables that were absent. */
  lemma SetupAddsOnlyAbsent(cat: Catalog)
    ensures var r := CreateTextSpeechTable(CreateAccountsTable(cat));
      r.Keys == cat.Keys
        + (if TableExists(cat, AccountsName) then {} else {AccountsName})
        + (if TableExists(cat, TextSpeechName) then {} else {TextSpeechName})
  {
    TableNamesDiffer();
    CreateKeepsOtherExistence(cat, AccountsName, AccountsTable, TextSpeechName);
  }

  /** Creating a table whose name is taken, in any letter case, leaves the schema unchanged. */
  lemma CreateExistingIsNoOp(cat: Catalog, name: string, def: Table)
    requires TableExists(cat, name)
    ensures CreateTableIfNotExists(cat, name, def) == cat
  {
  }

  /** A table that already exists as `Accounts` blocks the creation of `accounts`. */
  lemma OtherCaseBlocksCreation(def: Table)
    ensures var cat := map["Accounts" := def];
      CreateAccountsTable(cat) == cat
  {
    var cat := map["Accounts" := def];
    assert Ascii.Lower("Accounts") == "accounts";
    assert Ascii.SameIgnoringCase("Accounts", AccountsName);
  }

  /** Issuing the same creation twice is the same as issuing it once. */
  lemma CreateIdempotent(cat: Catalog, name: string, def: Table)
    ensures var once := CreateTableIfNotExists(cat, name, def);
      CreateTableIfNotExists(once, name, def) == once
  {
  }

  /** Once both tables exist, setting up again changes nothing. */
  lemma SetupIdempotent(cat: Catalog)
    ensures Setup(Setup(cat)) == Setup(cat)
  {
  }
}
