/** Commands and typed passwords as steps of a state machine, and who can be logged in after any run of them. */
module AccountRuns {
  import opened Wrappers
  import opened AccountFile
  import opened AccountSteps

  datatype Screen = Hidden | LoginUsername | LoginPassword | NewPassword | ConfirmPassword

  datatype Action = NoAction | AddUser | ChangePassword

  /** What the disk does during one command: is it a RAM disk, is it formatted, is /etc a directory, does the write
      go through. A failed write leaves the old content. */
  datatype Disk = Disk(ram: bool, formatted: bool, etc: bool, writes: bool) {
    predicate Saves() {
      !ram && formatted && etc && writes
    }
  }

  datatype Event =
    | LoginScreenOn(disk: Disk)
    | LoginScreenOff(disk: Disk)
    | Ask(name: string)
    | Add(name: string, disk: Disk)
    | Del(name: string, disk: Disk)
    | Mod(oldName: string, newName: string, disk: Disk)
    | Password(name: string, disk: Disk)
    | Typed(text: string, salt: Salt, disk: Disk)

  type Hash = (string, Salt) -> Digest

  /** The accounts, the field on the screen with the change it belongs to, the session, and whether the disk was
      available last time. */
  datatype View = View(db: Database, screen: Screen, action: Action, target: string, pending: string, input: string,
                       valid: bool, user: string, storage: bool)

  /** The session belongs to an account named root with the administrator flag. */
  predicate Admin(v: View) {
    v.valid && Lookup(v.db, v.user).Some? && IsRoot(Lookup(v.db, v.user).value)
  }

  /** The password is that of the account asked for. */
  predicate Passes(v: View, text: string, hash: Hash) {
    Lookup(v.db, v.input).Some? &&
    var a := Lookup(v.db, v.input).value;
    hash(text, a.salt) == a.digest
  }

  /** The accounts of a machine without an account file. */
  function Defaults(rootSalt: Salt, userSalt: Salt, hash: Hash): Database {
    Database(false, "user", [Account("root", rootSalt, hash("admin", rootSalt), true),
                             Account("user", userSalt, hash("user", userSalt), false)])
  }

  /** They are root, an administrator with the password "admin", and user with the password "user", who is logged in
      at startup; there is no other name. */
  lemma DefaultAccounts(v: View, rootSalt: Salt, userSalt: Salt, hash: Hash, text: string)
    requires v.db == Defaults(rootSalt, userSalt, hash)
    ensures !v.db.login && v.db.automatic == "user"
    ensures v.input == "root" ==> (Passes(v, text, hash) <==> hash(text, rootSalt) == hash("admin", rootSalt))
    ensures v.input == "user" ==> (Passes(v, text, hash) <==> hash(text, userSalt) == hash("user", userSalt))
    ensures v.input != "root" && v.input != "user" ==> !Passes(v, text, hash)
    ensures v.valid ==> (Admin(v) <==> v.user == "root")
  {
    var a := v.db.accounts;
    assert a[0].name == "root" && a[1].name == "user";
    assert Distinct(a);
    LookupAt(v.db, 0);
    LookupAt(v.db, 1);
    assert Lookup(v.db, "root") == Some(a[0]) && Lookup(v.db, "user") == Some(a[1]);
    if v.input != "root" && v.input != "user" { LookupNone(v.db, v.input); }
    if v.user != "root" && v.user != "user" { LookupNone(v.db, v.user); }
  }

  // ----- the steps -----

  /** A change of the database takes effect when it is saved. */
  function Save(v: View, disk: Disk, db: Database): View {
    v.(storage := !disk.ram && disk.formatted, db := if disk.Saves() then db else v.db)
  }

  function Begin(v: View, kind: Action, name: string, disk: Disk): View {
    if disk.formatted && !disk.ram
    then v.(storage := true, target := name, action := kind, screen := NewPassword, pending := "")
    else v.(storage := disk.formatted)
  }

  function Delete(v: View, name: string, disk: Disk): View {
    if ValidName(name) && Admin(v) && Named(v.db.accounts, name) && name != "root" && !disk.ram && disk.formatted
    then Save(v, disk, Removed(v.db, Position(v.db.accounts, name))) else v
  }

  function Rename(v: View, oldName: string, newName: string, disk: Disk): View {
    if ValidName(oldName) && ValidName(newName) && v.valid && Named(v.db.accounts, oldName) &&
       (Admin(v) || oldName == v.user) && !Named(v.db.accounts, newName) && v.storage
    then
      var w := Save(v, disk, Renamed(v.db, Position(v.db.accounts, oldName), newName));
      if disk.Saves() && oldName == v.user then w.(user := newName) else w
    else v
  }

  /** A confirmed password. */
  function Commit(v: View, salt: Salt, disk: Disk, hash: Hash): View {
    var digest := hash(v.pending, salt);
    var w :=
      if v.action == AddUser then
        if Admin(v) && !Named(v.db.accounts, v.target) && |v.db.accounts| < MAX_USERS
        then Save(v, disk, Added(v.db, v.target, salt, digest)) else v
      else if Named(v.db.accounts, v.target)
      then Save(v, disk, Rekeyed(v.db, Position(v.db.accounts, v.target), salt, digest)) else v;
    w.(action := NoAction, screen := Hidden, pending := "")
  }

  /** The Enter key. */
  function Typing(v: View, text: string, salt: Salt, disk: Disk, hash: Hash): View {
    match v.screen
    case Hidden => v
    case LoginUsername =>
      v.(input := text, screen := if ValidName(text) && Named(v.db.accounts, text) then LoginPassword else LoginUsername)
    case LoginPassword =>
      if Passes(v, text, hash)
      then v.(valid := true, user := v.input, screen := Hidden, action := NoAction, input := "", pending := "") else v
    case NewPassword => if 0 < |text| < 64 then v.(pending := text, screen := ConfirmPassword) else v
    case ConfirmPassword =>
      if text == v.pending then Commit(v, salt, disk, hash) else v.(pending := "", screen := NewPassword)
  }

  function TurnOn(v: View, disk: Disk): View {
    if Admin(v) then Save(v, disk, v.db.(login := true)) else v
  }

  function TurnOff(v: View, disk: Disk): View {
    if Admin(v) then Save(v, disk, v.db.(login := false, automatic := v.user)) else v
  }

  function BeginAdd(v: View, name: string, disk: Disk): View {
    if ValidName(name) && Admin(v) && !Named(v.db.accounts, name) && |v.db.accounts| < MAX_USERS
    then Begin(v, AddUser, name, disk) else v
  }

  /** Without a name, the user's own password. */
  function BeginChange(v: View, name: string, disk: Disk): View {
    var wanted := if name == "" then v.user else name;
    if v.valid && Named(v.db.accounts, wanted) && (Admin(v) || wanted == v.user)
    then Begin(v, ChangePassword, wanted, disk) else v
  }

  function Next(v: View, e: Event, hash: Hash): View {
    match e
    case LoginScreenOn(disk) => TurnOn(v, disk)
    case LoginScreenOff(disk) => TurnOff(v, disk)
    case Ask(name) => if Named(v.db.accounts, name) then v.(input := name, screen := LoginPassword) else v
    case Add(name, disk) => BeginAdd(v, name, disk)
    case Del(name, disk) => Delete(v, name, disk)
    case Mod(oldName, newName, disk) => Rename(v, oldName, newName, disk)
    case Password(name, disk) => BeginChange(v, name, disk)
    case Typed(text, salt, disk) => Typing(v, text, salt, disk, hash)
  }

  // ----- what every step keeps -----

  ghost predicate ValidView(v: View) {
    && ValidDatabase(v.db) && (v.valid ==> Named(v.db.accounts, v.user))
    && (v.action == AddUser ==> ValidName(v.target))
  }

  lemma RootAt(v: View)
    requires ValidView(v) && Admin(v)
    ensures v.user == "root" && Named(v.db.accounts, "root") && IsRoot(v.db.accounts[Position(v.db.accounts, "root")])
  {
  }

  lemma NextValid(v: View, e: Event, hash: Hash)
    requires ValidView(v)
    ensures ValidView(Next(v, e, hash))
  {
    hide ValidDatabase, ValidName, Lookup, Admin, Removed, Renamed, Added, Rekeyed;
    var n := Next(v, e, hash);
    match e {
      case LoginScreenOn(disk) =>
        if Admin(v) {
          AdminValid(v);
          AutomaticValid(v.db, true, Position(v.db.accounts, v.user));
        }
      case LoginScreenOff(disk) =>
        if Admin(v) {
          AdminValid(v);
          AutomaticValid(v.db, false, Position(v.db.accounts, v.user));
        }
      case Del(name, disk) => DeleteValid(v, name, disk);
      case Mod(oldName, newName, disk) => RenameValid(v, oldName, newName, disk);
      case Typed(text, salt, disk) =>
        if v.screen == ConfirmPassword && text == v.pending { CommitValid(v, salt, disk, hash); }
        if v.screen == LoginPassword && Passes(v, text, hash) { PassesNamed(v, text, hash); }
      case _ =>
    }
  }

  lemma AdminValid(v: View)
    requires Admin(v)
    ensures v.valid && v.user == "root" && Named(v.db.accounts, v.user)
  {
  }

  lemma PassesNamed(v: View, text: string, hash: Hash)
    requires Passes(v, text, hash)
    ensures Named(v.db.accounts, v.input)
  {
  }

  lemma DistinctOf(db: Database)
    requires ValidDatabase(db)
    ensures Distinct(db.accounts)
  {
  }

  lemma DeleteValid(v: View, name: string, disk: Disk)
    requires ValidView(v)
    ensures ValidView(Delete(v, name, disk))
  {
    hide ValidDatabase, ValidName, Removed, Lookup;
    if Delete(v, name, disk).db != v.db {
      RootAt(v);
      DistinctOf(v.db);
      var t, c := Position(v.db.accounts, name), Position(v.db.accounts, "root");
      RemovedValid(v.db, t, c);
      RemovedLookup(v.db, t, v.user);
    }
  }

  lemma RenameValid(v: View, oldName: string, newName: string, disk: Disk)
    requires ValidView(v)
    ensures ValidView(Rename(v, oldName, newName, disk))
  {
    hide ValidDatabase, ValidName, Renamed, Lookup;
    if Named(v.db.accounts, oldName) && !Named(v.db.accounts, newName) && ValidName(newName) {
      DistinctOf(v.db);
      var t := Position(v.db.accounts, oldName);
      RenamedValid(v.db, t, newName);
      RenamedLookup(v.db, t, newName, v.user);
      RenamedLookup(v.db, t, newName, newName);
    }
  }

  lemma CommitValid(v: View, salt: Salt, disk: Disk, hash: Hash)
    requires ValidView(v)
    ensures ValidView(Commit(v, salt, disk, hash))
  {
    hide ValidDatabase, ValidName, Added, Rekeyed, Lookup, Admin;
    DistinctOf(v.db);
    var digest := hash(v.pending, salt);
    if v.action == AddUser {
      if Admin(v) && !Named(v.db.accounts, v.target) && |v.db.accounts| < MAX_USERS {
        AddedValid(v.db, v.target, salt, digest);
        AddedLookup(v.db, v.target, salt, digest, v.user);
      }
    } else if Named(v.db.accounts, v.target) {
      var t := Position(v.db.accounts, v.target);
      RekeyedValid(v.db, t, salt, digest);
      RekeyedLookup(v.db, t, salt, digest, v.user);
    }
  }

  // ----- runs -----

  /** The state after the first n events. */
  function After(v: View, events: seq<Event>, hash: Hash, n: nat): View
    requires n <= |events|
  {
    if n == 0 then v else Next(After(v, events, hash, n - 1), events[n - 1], hash)
  }

  lemma {:induction false} AfterValid(v: View, events: seq<Event>, hash: Hash, n: nat)
    requires ValidView(v) && n <= |events|
    ensures ValidView(After(v, events, hash, n))
  {
    hide Next, ValidView;
    if n > 0 {
      AfterValid(v, events, hash, n - 1);
      NextValid(After(v, events, hash, n - 1), events[n - 1], hash);
    }
  }

  /** Event e answers the login screen with the password of the account asked for. */
  predicate LogsIn(v: View, e: Event, hash: Hash) {
    e.Typed? && v.screen == LoginPassword && Passes(v, e.text, hash)
  }

  /** What an account of this name is called after the event. */
  function Called(v: View, e: Event, hash: Hash, name: string): string {
    if e.Mod? && e.oldName == name && Named(v.db.accounts, name) && !Named(Next(v, e, hash).db.accounts, name)
    then e.newName else name
  }

  /** A session begins only with the right password, ends for no event, and otherwise stays with its account under
      whatever name it gets. */
  lemma SessionStep(v: View, e: Event, hash: Hash)
    requires ValidView(v)
    ensures var n := Next(v, e, hash);
            && n.valid == (v.valid || LogsIn(v, e, hash))
            && (n.valid ==> n.user == if LogsIn(v, e, hash) then v.input else Called(v, e, hash, v.user))
  {
    hide ValidDatabase, ValidName, Lookup, Admin, Removed, Renamed, Added, Rekeyed, Passes;
    if e.Mod? {
      if Named(v.db.accounts, e.oldName) && !Named(v.db.accounts, e.newName) {
        DistinctOf(v.db);
        RenamedLookup(v.db, Position(v.db.accounts, e.oldName), e.newName, v.user);
      }
    }
  }

  /** The name, after events m to n, of the account that was called `name` before them. */
  function Followed(v: View, events: seq<Event>, hash: Hash, name: string, m: nat, n: nat): string
    requires m <= n <= |events|
  {
    if n == m then name
    else Called(After(v, events, hash, n - 1), events[n - 1], hash, Followed(v, events, hash, name, m, n - 1))
  }

  /** After any run, the session is the one from before it, or the one of the account whose password was typed at some
      event, compared with what was stored for it at that moment. */
  lemma {:induction false} SessionOrigin(v: View, events: seq<Event>, hash: Hash, n: nat) returns (i: int)
    requires ValidView(v) && n <= |events| && After(v, events, hash, n).valid
    ensures -1 <= i < n
    ensures i == -1 ==> v.valid && After(v, events, hash, n).user == Followed(v, events, hash, v.user, 0, n)
    ensures i >= 0 ==>
              var at := After(v, events, hash, i);
              LogsIn(at, events[i], hash) &&
              After(v, events, hash, n).user == Followed(v, events, hash, at.input, i + 1, n)
  {
    hide Next, ValidView, LogsIn, Called;
    if n == 0 {
      i := -1;
    } else {
      var a := After(v, events, hash, n - 1);
      AfterValid(v, events, hash, n - 1);
      SessionStep(a, events[n - 1], hash);
      if LogsIn(a, events[n - 1], hash) {
        i := n - 1;
      } else {
        i := SessionOrigin(v, events, hash, n - 1);
      }
    }
  }

  /** A stored password changes only when a new one was typed twice for that account. */
  lemma PasswordStep(v: View, e: Event, hash: Hash, name: string)
    requires ValidView(v)
    ensures var was, now := Lookup(v.db, name), Lookup(Next(v, e, hash).db, name);
            was.Some? && now.Some? && now != was ==>
            && e.Typed? && v.screen == ConfirmPassword && e.text == v.pending && v.action != AddUser && v.target == name
            && now.value == was.value.(salt := e.salt, digest := hash(e.text, e.salt))
  {
    hide ValidDatabase, ValidName, Lookup, Admin, Removed, Renamed, Commit, Passes;
    DistinctOf(v.db);
    match e {
      case LoginScreenOn(_) => SameAccounts(v.db, v.db.(login := true), name);
      case LoginScreenOff(_) => SameAccounts(v.db, v.db.(login := false, automatic := v.user), name);
      case Del(n, _) => if Named(v.db.accounts, n) { RemovedLookup(v.db, Position(v.db.accounts, n), name); }
      case Mod(o, n, _) =>
        if Named(v.db.accounts, o) && !Named(v.db.accounts, n) {
          RenamedLookup(v.db, Position(v.db.accounts, o), n, name);
          NotNamed(v.db, n);
        }
      case Typed(text, salt, disk) => CommitLookup(v, salt, disk, hash, name);
      case _ =>
    }
  }

  lemma SameAccounts(a: Database, b: Database, name: string)
    requires a.accounts == b.accounts
    ensures Lookup(a, name) == Lookup(b, name)
  {
  }

  lemma NotNamed(db: Database, name: string)
    requires !Named(db.accounts, name)
    ensures Lookup(db, name) == None
  {
  }

  /** No account becomes an administrator: whoever is one had the flag before, under this name or the one it had then. */
  lemma FlagStep(v: View, e: Event, hash: Hash, name: string)
    requires ValidView(v) && Lookup(Next(v, e, hash).db, name).Some? && Lookup(Next(v, e, hash).db, name).value.administrator
    ensures exists m :: Lookup(v.db, m).Some? && Lookup(v.db, m).value.administrator && Called(v, e, hash, m) == name
  {
    hide ValidDatabase, ValidName, Lookup, Admin, Removed, Renamed, Added, Rekeyed, Passes;
    PasswordStep(v, e, hash, name);
    var was := Lookup(v.db, name);
    if was.Some? {
      NamedLookup(v.db, name);
      NamedLookup(Next(v, e, hash).db, name);
      assert Called(v, e, hash, name) == name;
    } else {
      Newcomer(v, e, hash, name);
    }
  }

  lemma NamedLookup(db: Database, name: string)
    ensures Lookup(db, name).Some? <==> Named(db.accounts, name)
  {
  }

  lemma Newcomer(v: View, e: Event, hash: Hash, name: string)
    requires ValidView(v) && Lookup(v.db, name).None? && Lookup(Next(v, e, hash).db, name).Some?
    requires Lookup(Next(v, e, hash).db, name).value.administrator
    ensures e.Mod? && Lookup(v.db, e.oldName).Some? && Lookup(v.db, e.oldName).value.administrator
    ensures Called(v, e, hash, e.oldName) == name
  {
    hide ValidDatabase, ValidName, Lookup, Admin, Removed, Passes, Rename, Typing;
    DistinctOf(v.db);
    NamedLookup(v.db, name);
    match e {
      case LoginScreenOn(_) => SameAccounts(v.db, v.db.(login := true), name);
      case LoginScreenOff(_) => SameAccounts(v.db, v.db.(login := false, automatic := v.user), name);
      case Del(n, _) => if Named(v.db.accounts, n) { RemovedLookup(v.db, Position(v.db.accounts, n), name); }
      case Mod(o, n, disk) => NewcomerRenamed(v, o, n, disk, hash, name);
      case Typed(text, salt, disk) => NewcomerTyped(v, text, salt, disk, hash, name);
      case _ =>
    }
  }

  lemma NewcomerRenamed(v: View, o: string, n: string, disk: Disk, hash: Hash, name: string)
    requires ValidView(v) && Lookup(v.db, name).None? && Lookup(Rename(v, o, n, disk).db, name).Some?
    requires Lookup(Rename(v, o, n, disk).db, name).value.administrator
    ensures Lookup(v.db, o).Some? && Lookup(v.db, o).value.administrator
    ensures Called(v, Mod(o, n, disk), hash, o) == name
  {
    hide ValidDatabase, ValidName, Lookup, Admin, Renamed;
    DistinctOf(v.db);
    NamedLookup(v.db, name);
    if Named(v.db.accounts, o) && !Named(v.db.accounts, n) {
      var t := Position(v.db.accounts, o);
      LookupAt(v.db, t);
      RenamedLookup(v.db, t, n, name);
      RenamedLookup(v.db, t, n, o);
      NamedLookup(Rename(v, o, n, disk).db, o);
    }
  }

  lemma NewcomerTyped(v: View, text: string, salt: Salt, disk: Disk, hash: Hash, name: string)
    requires ValidView(v) && Lookup(v.db, name).None? && Lookup(Typing(v, text, salt, disk, hash).db, name).Some?
    ensures !Lookup(Typing(v, text, salt, disk, hash).db, name).value.administrator
  {
    hide ValidView, ValidName, Named, Lookup, Commit, Passes;
    CommitLookup(v, salt, disk, hash, name);
  }

  /** A confirmed password concerns the account it was asked for alone, and is saved or does nothing. */
  lemma CommitLookup(v: View, salt: Salt, disk: Disk, hash: Hash, name: string)
    requires ValidView(v)
    ensures var was, now := Lookup(v.db, name), Lookup(Commit(v, salt, disk, hash).db, name);
            var digest := hash(v.pending, salt);
            now == was ||
            (disk.Saves() && v.target == name &&
             if v.action == AddUser then Admin(v) && was.None? && now == Some(Account(name, salt, digest, false))
             else was.Some? && now == Some(was.value.(salt := salt, digest := digest)))
  {
    hide ValidDatabase, ValidName, Lookup, Added, Rekeyed, Admin;
    DistinctOf(v.db);
    var digest := hash(v.pending, salt);
    if !Named(v.db.accounts, v.target) {
      AddedLookup(v.db, v.target, salt, digest, name);
      NotNamed(v.db, v.target);
    } else {
      var t := Position(v.db.accounts, v.target);
      LookupAt(v.db, t);
      RekeyedLookup(v.db, t, salt, digest, name);
    }
  }

  // ----- who may do what -----

  /** An account appears when an administrator's new password for it is confirmed, or under the new name of a rename;
      it goes when an administrator deletes it, which root never is, or under the old name of a rename. Renaming
      takes an administrator or the account itself, and nothing happens that is not saved. */
  lemma NameStep(v: View, e: Event, hash: Hash, name: string)
    requires ValidView(v)
    ensures var was, now := Named(v.db.accounts, name), Named(Next(v, e, hash).db.accounts, name);
            && (!was && now ==> (Renames(v, e) && e.newName == name) || (Creates(v, e) && v.target == name))
            && (was && !now ==> (Renames(v, e) && e.oldName == name) || (Deletes(v, e) && e.name == name))
  {
    hide ValidDatabase, ValidName, Admin, Removed, Renamed, Rename, Delete, Typing;
    match e {
      case Del(n, disk) => DroppedNames(v, n, disk, name);
      case Mod(o, n, disk) => MovedNames(v, o, n, disk, name);
      case Typed(text, salt, disk) => AddedNames(v, text, salt, disk, hash, name);
      case _ =>
    }
  }

  predicate Renames(v: View, e: Event) {
    e.Mod? && e.disk.Saves() && v.valid && (Admin(v) || e.oldName == v.user)
  }

  predicate Deletes(v: View, e: Event) {
    e.Del? && e.disk.Saves() && e.name != "root" && Admin(v)
  }

  predicate Creates(v: View, e: Event) {
    e.Typed? && e.disk.Saves() && v.screen == ConfirmPassword && v.action == AddUser && e.text == v.pending && Admin(v)
  }

  lemma DroppedNames(v: View, n: string, disk: Disk, name: string)
    requires ValidView(v)
    ensures var now := Named(Delete(v, n, disk).db.accounts, name);
            now != Named(v.db.accounts, name) ==> !now && n == name && Deletes(v, Del(n, disk))
  {
    hide ValidDatabase, ValidName, Lookup, Admin, Removed;
    DistinctOf(v.db);
    NamedLookup(v.db, name);
    NamedLookup(Delete(v, n, disk).db, name);
    if Named(v.db.accounts, n) { RemovedLookup(v.db, Position(v.db.accounts, n), name); }
  }

  lemma MovedNames(v: View, o: string, n: string, disk: Disk, name: string)
    requires ValidView(v)
    ensures var now := Named(Rename(v, o, n, disk).db.accounts, name);
            now != Named(v.db.accounts, name) ==> Renames(v, Mod(o, n, disk)) && name == if now then n else o
  {
    hide ValidDatabase, ValidName, Lookup, Admin, Renamed;
    DistinctOf(v.db);
    NamedLookup(v.db, name);
    NamedLookup(Rename(v, o, n, disk).db, name);
    if Named(v.db.accounts, o) && !Named(v.db.accounts, n) {
      var t := Position(v.db.accounts, o);
      LookupAt(v.db, t);
      RenamedLookup(v.db, t, n, name);
    }
  }

  lemma AddedNames(v: View, text: string, salt: Salt, disk: Disk, hash: Hash, name: string)
    requires ValidView(v)
    ensures var now := Named(Typing(v, text, salt, disk, hash).db.accounts, name);
            now != Named(v.db.accounts, name) ==> now && v.target == name && Creates(v, Typed(text, salt, disk))
  {
    hide ValidView, ValidName, Named, Lookup, Commit, Admin, Passes;
    NamedLookup(v.db, name);
    NamedLookup(Typing(v, text, salt, disk, hash).db, name);
    CommitLookup(v, salt, disk, hash, name);
  }

  /** A password dialogue is opened by an administrator for a new account or any account, and by everyone for their
      own; it starts with the new password asked for once. */
  lemma DialogueStep(v: View, e: Event, hash: Hash)
    requires ValidView(v)
    ensures var n := Next(v, e, hash);
            n.action != NoAction && (n.action != v.action || n.target != v.target) ==>
            && v.valid && n.screen == NewPassword && n.pending == "" && n.db == v.db
            && (if n.action == AddUser then e.Add? && n.target == e.name && Admin(v) && !Named(v.db.accounts, n.target)
                else e.Password? && Named(v.db.accounts, n.target) && (Admin(v) || n.target == v.user))
  {
    hide ValidDatabase, ValidName, Removed, Renamed, Added, Rekeyed, Passes, Lookup, Named;
  }

  /** The login screen is switched by administrators alone. The automatic login changes when it is switched off, then
      to the administrator who did it, or follows its account: to the new name, or to root when it is deleted. */
  lemma SettingsStep(v: View, e: Event, hash: Hash)
    requires ValidView(v)
    ensures var n := Next(v, e, hash).db;
            && (n.login != v.db.login ==> Admin(v) && if n.login then e.LoginScreenOn? else e.LoginScreenOff?)
            && (n.automatic != v.db.automatic ==>
                  || (e.LoginScreenOff? && Admin(v) && n.automatic == v.user)
                  || (Renames(v, e) && v.db.automatic == e.oldName && n.automatic == e.newName)
                  || (Deletes(v, e) && v.db.automatic == e.name && n.automatic == "root"))
  {
    hide ValidDatabase, ValidName, Lookup, Passes, Admin;
  }

  // ----- what works -----

  /** With the right to do it and a disk that saves, deleting and renaming take effect. */
  lemma CommandsWork(v: View, name: string, newName: string, disk: Disk, hash: Hash)
    requires ValidView(v) && disk.Saves() && Named(v.db.accounts, name)
    ensures Admin(v) && name != "root" ==> !Named(Next(v, Del(name, disk), hash).db.accounts, name)
    ensures v.valid && v.storage && (Admin(v) || name == v.user) && ValidName(newName) && !Named(v.db.accounts, newName) ==>
              var n := Next(v, Mod(name, newName, disk), hash);
              && !Named(n.db.accounts, name) && Lookup(v.db, name).Some?
              && Lookup(n.db, newName) == Some(Lookup(v.db, name).value.(name := newName))
    ensures Admin(v) ==> Next(v, LoginScreenOn(disk), hash).db.login && !Next(v, LoginScreenOff(disk), hash).db.login
  {
    NamedValid(v.db, name);
    hide ValidDatabase, ValidName, Lookup, Admin, Removed, Renamed;
    DistinctOf(v.db);
    var t := Position(v.db.accounts, name);
    LookupAt(v.db, t);
    RemovedLookup(v.db, t, name);
    NamedLookup(Removed(v.db, t), name);
    if !Named(v.db.accounts, newName) {
      RenamedLookup(v.db, t, newName, name);
      RenamedLookup(v.db, t, newName, newName);
      NamedLookup(Renamed(v.db, t, newName), name);
    }
  }

  lemma NamedValid(db: Database, name: string)
    requires ValidDatabase(db) && Named(db.accounts, name)
    ensures ValidName(name)
  {
  }

  /** A password typed twice in an open dialogue is the account's from then on: whoever is asked for it next gets in
      with it and with nothing that hashes differently. */
  lemma DialogueWorks(v: View, p: string, q: string, s1: Salt, s2: Salt, disk: Disk, hash: Hash)
    requires ValidView(v) && v.screen == NewPassword && 0 < |p| < 64 && disk.Saves()
    requires if v.action == AddUser then Admin(v) && !Named(v.db.accounts, v.target) && |v.db.accounts| < MAX_USERS
             else Named(v.db.accounts, v.target)
    ensures var v1 := Next(v, Typed(p, s1, disk), hash);
            var v2 := Next(v1, Typed(p, s2, disk), hash);
            var v3 := Next(v2, Ask(v.target), hash);
            var v4 := Next(v3, Typed(q, s2, disk), hash);
            && v2.screen == Hidden && v3.screen == LoginPassword
            && if hash(q, s2) == hash(p, s2) then v4.valid && v4.user == v.target && v4.screen == Hidden else v4 == v3
  {
    var v1 := Next(v, Typed(p, s1, disk), hash);
    assert v1 == v.(pending := p, screen := ConfirmPassword);
    var v2 := Next(v1, Typed(p, s2, disk), hash);
    assert v2 == Commit(v1, s2, disk, hash);
    CommitStores(v1, s2, disk, hash);
    hide ValidView, Commit, Lookup, Admin;
    NamedLookup(v2.db, v.target);
  }

  lemma CommitStores(v: View, salt: Salt, disk: Disk, hash: Hash)
    requires ValidView(v) && disk.Saves()
    requires if v.action == AddUser then Admin(v) && !Named(v.db.accounts, v.target) && |v.db.accounts| < MAX_USERS
             else Named(v.db.accounts, v.target)
    ensures var w := Commit(v, salt, disk, hash);
            && w.screen == Hidden && Lookup(w.db, v.target).Some?
            && Lookup(w.db, v.target).value.salt == salt && Lookup(w.db, v.target).value.digest == hash(v.pending, salt)
  {
    hide ValidDatabase, ValidName, Lookup, Added, Rekeyed, Admin;
    DistinctOf(v.db);
    var digest := hash(v.pending, salt);
    if v.action == AddUser {
      AddedLookup(v.db, v.target, salt, digest, v.target);
    } else {
      var t := Position(v.db.accounts, v.target);
      LookupAt(v.db, t);
      RekeyedLookup(v.db, t, salt, digest, v.target);
    }
  }

  /** The commands open the dialogue they should. */
  lemma DialogueOpens(v: View, name: string, disk: Disk, hash: Hash)
    requires ValidView(v) && !disk.ram && disk.formatted
    ensures Admin(v) && ValidName(name) && !Named(v.db.accounts, name) && |v.db.accounts| < MAX_USERS ==>
              var n := Next(v, Add(name, disk), hash);
              n.screen == NewPassword && n.action == AddUser && n.target == name && n.db == v.db && Admin(n)
    ensures v.valid && name != "" && Named(v.db.accounts, name) && (Admin(v) || name == v.user) ==>
              var n := Next(v, Password(name, disk), hash);
              n.screen == NewPassword && n.action == ChangePassword && n.target == name && n.db == v.db
    ensures v.valid ==>
              var n := Next(v, Password("", disk), hash);
              n.screen == NewPassword && n.action == ChangePassword && n.target == v.user && n.db == v.db
  {
    hide ValidDatabase, Lookup, Named;
  }
}
