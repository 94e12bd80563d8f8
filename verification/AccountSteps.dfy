/** What the account commands make of a database, and that the result is valid again. */
module AccountSteps {
  import opened Wrappers
  import opened AccountFile

  function RemoveAt(accounts: seq<Account>, t: nat): (r: seq<Account>)
    requires t < |accounts|
    ensures |r| == |accounts| - 1
  {
    accounts[..t] + accounts[t + 1..]
  }

  /** Deleting account t; an automatic login into it goes to root. */
  function Removed(db: Database, t: nat): Database
    requires t < |db.accounts|
  {
    Database(db.login, if db.automatic == db.accounts[t].name then "root" else db.automatic, RemoveAt(db.accounts, t))
  }

  /** Renaming account t; an automatic login into it follows. */
  function Renamed(db: Database, t: nat, name: string): Database
    requires t < |db.accounts|
  {
    Database(db.login, if db.automatic == db.accounts[t].name then name else db.automatic,
             db.accounts[t := db.accounts[t].(name := name)])
  }

  function Added(db: Database, name: string, salt: Salt, digest: Digest): Database {
    db.(accounts := db.accounts + [Account(name, salt, digest, false)])
  }

  function Rekeyed(db: Database, t: nat, salt: Salt, digest: Digest): Database
    requires t < |db.accounts|
  {
    db.(accounts := db.accounts[t := db.accounts[t].(salt := salt, digest := digest)])
  }

  predicate IsRoot(a: Account) {
    a.administrator && a.name == "root"
  }

  /** Where account i is after account t has been deleted. */
  function Shifted(i: int, t: nat): int {
    if t < i then i - 1 else i
  }

  lemma RemovedAt(accounts: seq<Account>, t: nat, i: nat)
    requires t < |accounts| && i < |accounts| && i != t
    ensures 0 <= Shifted(i, t) < |accounts| - 1 && RemoveAt(accounts, t)[Shifted(i, t)] == accounts[i]
  {
  }

  lemma RemovedKeeps(accounts: seq<Account>, t: nat)
    requires t < |accounts| && ValidNames(accounts) && Distinct(accounts)
    ensures ValidNames(RemoveAt(accounts, t)) && Distinct(RemoveAt(accounts, t))
  {
    hide ValidName;
    var r := RemoveAt(accounts, t);
    assert forall i | 0 <= i < |r| :: r[i] == accounts[if i < t then i else i + 1];
  }

  lemma RemovedValid(db: Database, t: nat, c: nat)
    requires ValidDatabase(db) && t < |db.accounts| && c < |db.accounts| && c != t && IsRoot(db.accounts[c])
    ensures ValidDatabase(Removed(db, t))
  {
    hide ValidNames, Distinct;
    var r := RemoveAt(db.accounts, t);
    RemovedKeeps(db.accounts, t);
    RemovedAt(db.accounts, t, c);
    assert r[Shifted(c, t)].administrator && r[Shifted(c, t)].name == "root";
    assert ValidName("root") by { RootValid(); }
    if db.automatic != db.accounts[t].name {
      var i :| 0 <= i < |db.accounts| && db.accounts[i].name == db.automatic;
      RemovedAt(db.accounts, t, i);
      assert r[Shifted(i, t)].name == db.automatic;
    }
  }

  lemma RootValid()
    ensures ValidName("root")
  {
  }

  lemma RenamedValid(db: Database, t: nat, name: string)
    requires ValidDatabase(db) && t < |db.accounts| && ValidName(name) && !Named(db.accounts, name)
    ensures ValidDatabase(Renamed(db, t, name))
  {
    hide ValidName;
    var r := Renamed(db, t, name).accounts;
    assert r[t].name == name;
    var a :| 0 <= a < |db.accounts| && db.accounts[a].administrator;
    assert r[a].administrator;
    var i :| 0 <= i < |db.accounts| && db.accounts[i].name == db.automatic;
    if i != t { assert r[i].name == db.automatic; }
  }

  predicate HasRoot(accounts: seq<Account>) {
    exists i | 0 <= i < |accounts| :: IsRoot(accounts[i])
  }

  /** The administrator flag survives every rename, but the right to administer needs the name as well: an account
      holds it afterwards exactly when root itself was not renamed or a flagged account became root. */
  lemma RenameKeepsRoot(db: Database, t: nat, name: string)
    requires ValidDatabase(db) && t < |db.accounts| && !Named(db.accounts, name)
    ensures HasRoot(Renamed(db, t, name).accounts) <==>
            (name == "root" && db.accounts[t].administrator) || (HasRoot(db.accounts) && db.accounts[t].name != "root")
  {
    hide ValidName;
    var r := Renamed(db, t, name).accounts;
    if HasRoot(db.accounts) && db.accounts[t].name != "root" {
      var i :| 0 <= i < |db.accounts| && IsRoot(db.accounts[i]);
      assert IsRoot(r[i]);
    }
    if name == "root" && db.accounts[t].administrator { assert IsRoot(r[t]); }
    if HasRoot(r) {
      var i :| 0 <= i < |r| && IsRoot(r[i]);
      if i != t { assert IsRoot(db.accounts[i]); }
    }
  }

  /** One rename can leave nobody with the right to administer. */
  lemma RenameCanLoseRoot(salt: Salt, digest: Digest)
    ensures var db := Database(false, "root", [Account("root", salt, digest, true)]);
            ValidDatabase(db) && HasRoot(db.accounts) && ValidDatabase(Renamed(db, 0, "admin")) &&
            !HasRoot(Renamed(db, 0, "admin").accounts)
  {
    var db := Database(false, "root", [Account("root", salt, digest, true)]);
    assert db.accounts[0].name == "root" && IsRoot(db.accounts[0]);
    RenamedValid(db, 0, "admin");
    RenameKeepsRoot(db, 0, "admin");
  }

  /** Deleting never does. */
  lemma RemoveKeepsRoot(db: Database, t: nat, c: nat)
    requires t < |db.accounts| && c < |db.accounts| && c != t && IsRoot(db.accounts[c])
    ensures HasRoot(Removed(db, t).accounts)
  {
    RemovedAt(db.accounts, t, c);
    assert IsRoot(Removed(db, t).accounts[Shifted(c, t)]);
  }

  lemma AddedValid(db: Database, name: string, salt: Salt, digest: Digest)
    requires ValidDatabase(db) && |db.accounts| < MAX_USERS && ValidName(name) && !Named(db.accounts, name)
    ensures ValidDatabase(Added(db, name, salt, digest))
  {
    hide ValidName;
    var r := Added(db, name, salt, digest).accounts;
    AddedDistinct(db.accounts, Account(name, salt, digest, false));
    var a :| 0 <= a < |db.accounts| && db.accounts[a].administrator;
    assert r[a].administrator;
    var i :| 0 <= i < |db.accounts| && db.accounts[i].name == db.automatic;
    assert r[i].name == db.automatic;
  }

  lemma RekeyedValid(db: Database, t: nat, salt: Salt, digest: Digest)
    requires ValidDatabase(db) && t < |db.accounts|
    ensures ValidDatabase(Rekeyed(db, t, salt, digest))
  {
    hide ValidName;
    var r := Rekeyed(db, t, salt, digest).accounts;
    var a :| 0 <= a < |db.accounts| && db.accounts[a].administrator;
    assert r[a].administrator;
    var i :| 0 <= i < |db.accounts| && db.accounts[i].name == db.automatic;
    assert r[i].name == db.automatic;
  }

  lemma AutomaticValid(db: Database, login: bool, c: nat)
    requires ValidDatabase(db) && c < |db.accounts|
    ensures ValidDatabase(db.(login := login)) && ValidDatabase(db.(login := login, automatic := db.accounts[c].name))
  {
  }

  // ----- what each command does to the accounts by name -----

  function Position(accounts: seq<Account>, name: string): (i: nat)
    requires Named(accounts, name)
    ensures i < |accounts| && accounts[i].name == name && forall k | 0 <= k < i :: accounts[k].name != name
  {
    if accounts[0].name == name then 0
    else
      assert Named(accounts[1..], name) by {
        var k :| 0 <= k < |accounts| && accounts[k].name == name;
        assert accounts[1..][k - 1].name == name;
      }
      1 + Position(accounts[1..], name)
  }

  /** The account of that name. */
  function Lookup(db: Database, name: string): (a: Option<Account>)
    ensures a.Some? ==> a.value.name == name
    ensures a.Some? <==> Named(db.accounts, name)
  {
    if Named(db.accounts, name) then Some(db.accounts[Position(db.accounts, name)]) else None
  }

  lemma LookupAt(db: Database, i: nat)
    requires Distinct(db.accounts) && i < |db.accounts|
    ensures Lookup(db, db.accounts[i].name) == Some(db.accounts[i]) && Position(db.accounts, db.accounts[i].name) == i
  {
    assert Named(db.accounts, db.accounts[i].name);
  }

  lemma LookupNone(db: Database, name: string)
    requires forall i | 0 <= i < |db.accounts| :: db.accounts[i].name != name
    ensures Lookup(db, name) == None
  {
  }

  /** Deleting takes away that account alone, and automatic login goes to root only if it was in that account. */
  lemma RemovedLookup(db: Database, t: nat, name: string)
    requires Distinct(db.accounts) && t < |db.accounts|
    ensures Lookup(Removed(db, t), name) == if name == db.accounts[t].name then None else Lookup(db, name)
    ensures Removed(db, t).login == db.login
    ensures Removed(db, t).automatic == if db.automatic == db.accounts[t].name then "root" else db.automatic
  {
    hide Lookup;
    var r := Removed(db, t);
    assert forall i | 0 <= i < |r.accounts| :: r.accounts[i] == db.accounts[if i < t then i else i + 1];
    if name == db.accounts[t].name || !Named(db.accounts, name) {
      LookupNone(r, name);
      if !Named(db.accounts, name) { LookupNone(db, name); }
    } else {
      var i := Position(db.accounts, name);
      LookupAt(db, i);
      RemovedAt(db.accounts, t, i);
      LookupAt(r, Shifted(i, t));
    }
  }

  /** A new account is no administrator and has the given salt and digest; no other account changes. */
  lemma AddedLookup(db: Database, name: string, salt: Salt, digest: Digest, n: string)
    requires Distinct(db.accounts) && !Named(db.accounts, name)
    ensures var d := Added(db, name, salt, digest);
            Lookup(d, n) == (if n == name then Some(Account(name, salt, digest, false)) else Lookup(db, n)) &&
            d.login == db.login && d.automatic == db.automatic
  {
    hide Lookup;
    var d := Added(db, name, salt, digest);
    AddedDistinct(db.accounts, Account(name, salt, digest, false));
    if n == name {
      LookupAt(d, |db.accounts|);
    } else if Named(db.accounts, n) {
      var i := Position(db.accounts, n);
      LookupAt(db, i);
      LookupAt(d, i);
    } else {
      LookupNone(db, n);
      LookupNone(d, n);
    }
  }

  /** A new password changes salt and digest of that account alone. */
  lemma RekeyedLookup(db: Database, t: nat, salt: Salt, digest: Digest, n: string)
    requires Distinct(db.accounts) && t < |db.accounts|
    ensures var d, a := Rekeyed(db, t, salt, digest), db.accounts[t];
            Lookup(d, n) == (if n == a.name then Some(Account(a.name, salt, digest, a.administrator)) else Lookup(db, n)) &&
            d.login == db.login && d.automatic == db.automatic
  {
    hide Lookup;
    var d := Rekeyed(db, t, salt, digest);
    if Named(db.accounts, n) {
      var i := Position(db.accounts, n);
      LookupAt(db, i);
      LookupAt(d, i);
    } else {
      LookupNone(db, n);
      LookupNone(d, n);
    }
  }

  /** Renaming moves that account, with salt, digest and flag, to the new name, and automatic login with it. */
  lemma RenamedLookup(db: Database, t: nat, name: string, n: string)
    requires Distinct(db.accounts) && t < |db.accounts| && !Named(db.accounts, name)
    ensures var d, a := Renamed(db, t, name), db.accounts[t];
            && Lookup(d, n) == (if n == name then Some(Account(name, a.salt, a.digest, a.administrator))
                                else if n == a.name then None else Lookup(db, n))
            && d.login == db.login && d.automatic == (if db.automatic == a.name then name else db.automatic)
  {
    hide Lookup;
    var d := Renamed(db, t, name);
    assert d.accounts[t].name == name;
    if n == name {
      LookupAt(d, t);
    } else if n == db.accounts[t].name || !Named(db.accounts, n) {
      LookupNone(d, n);
      if !Named(db.accounts, n) { LookupNone(db, n); }
    } else {
      var i := Position(db.accounts, n);
      LookupAt(db, i);
      LookupAt(d, i);
    }
  }
}
