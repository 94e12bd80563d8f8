/** The account manager: a table of sixteen slots, the settings, the session, and the stored file. */
module Accounts {
  import opened Wrappers
  import opened Words
  import opened AccountFile
  import opened AccountSteps
  import opened AccountRuns

  class Manager {
    const slots: array<Account>
    var count: nat
    var login: bool
    var automatic: string
    var userName: string
    var active: int
    var currentValid: bool
    var databaseValid: bool
    var storageAvailable: bool
    var screen: Screen
    var action: Action
    var target: string
    var pending: string
    var input: string
    var switching: bool
    var file: Option<string>

    /** The password hash. */
    const hash: (string, Salt) -> Digest

    /** Before startup: no accounts, no session. */
    constructor (hash: (string, Salt) -> Digest, stored: Option<string>)
      ensures Shape() && fresh(slots) && file == stored && this.hash == hash
    {
      slots := new Account[MAX_USERS](_ => Account("", seq(16, _ => 0), seq(32, _ => 0), false));
      count, login, automatic, userName, active := 0, false, "user", "", -1;
      currentValid, databaseValid, storageAvailable := false, false, false;
      screen, action, target, pending, input, switching := Hidden, NoAction, "", "", "user", false;
      file, this.hash := stored, hash;
    }

    ghost predicate Shape()
      reads this`count
    {
      slots.Length == MAX_USERS && count <= MAX_USERS
    }

    ghost function Db(): Database
      reads this`count, this`login, this`automatic, slots
      requires Shape()
    {
      Database(login, automatic, slots[..count])
    }

    /** The active index names the user of the session. */
    ghost predicate Session()
      reads this`count, this`currentValid, this`active, this`userName, slots
      requires Shape()
    {
      currentValid ==> 0 <= active < count && slots[active].name == userName
    }

    ghost predicate Inv()
      reads this`count, this`login, this`automatic, this`databaseValid, this`currentValid, this`active, this`userName
      reads this`action, this`target, slots
    {
      && Shape() && databaseValid && ValidDatabase(Db()) && Session()
      && (action == AddUser ==> ValidName(target))
    }

    /** What is stored reads back as what is in memory. */
    ghost predicate Agrees()
      reads this`count, this`login, this`automatic, this`file, slots
      requires Shape()
    {
      file.Some? ==> Parse(file.value) == Some((Db(), false))
    }

    /** What the commands act on. */
    ghost function Look(): View
      reads this, slots
      requires Shape()
    {
      View(Db(), screen, action, target, pending, input, currentValid, userName, storageAvailable)
    }

    lemma Seen()
      requires Inv()
      ensures ValidView(Look()) && (Admin(Look()) <==> Authorised())
    {
      hide ValidName;
      if currentValid {
        assert slots[..count][active].name == userName;
        LookupAt(Db(), active);
      }
    }

    // ----- looking up -----

    method FindAccount(name: string) returns (index: int)
      requires Shape()
      ensures -1 <= index < count
      ensures index >= 0 ==> slots[index].name == name && Named(slots[..count], name)
      ensures index < 0 ==> !Named(slots[..count], name)
    {
      for i := 0 to count
        invariant forall k | 0 <= k < i :: slots[k].name != name
      {
        if slots[i].name == name {
          assert slots[..count][i].name == name;
          return i;
        }
      }
      return -1;
    }

    function CurrentAccount(): (index: int)
      reads this, slots
      requires Shape()
      ensures Session() ==> index == if currentValid then active else -1
      ensures -1 <= index < count
    {
      if !currentValid || active < 0 || active >= count then -1
      else if userName == slots[active].name then active else -1
    }

    predicate IsAdministrator(index: int)
      reads this, slots
      requires Shape()
    {
      0 <= index < count && slots[index].administrator && slots[index].name == "root"
    }

    /** The session belongs to an account named root with the administrator flag. */
    ghost predicate Authorised()
      reads this, slots
      requires Shape()
    {
      currentValid && 0 <= active < count && slots[active].name == userName && IsRoot(slots[active])
    }

    // ----- writing -----

    method AppendChar(buffer: array<char>, length: nat, value: char) returns (ok: bool, next: nat)
      requires length < buffer.Length
      modifies buffer
      ensures ok <==> length + 1 < buffer.Length
      ensures next == (if ok then length + 1 else length)
      ensures buffer[..next] == old(buffer[..length]) + (if ok then [value] else [])
      ensures ok ==> buffer[next] == '\0'
    {
      if length + 1 >= buffer.Length {
        return false, length;
      }
      buffer[length] := value;
      buffer[length + 1] := '\0';
      return true, length + 1;
    }

    /** All of the text or, when it does not fit, failure. */
    method AppendText(buffer: array<char>, length: nat, text: string) returns (ok: bool, next: nat)
      requires length < buffer.Length
      modifies buffer
      ensures ok <==> length + |text| < buffer.Length
      ensures ok ==> next == length + |text| && buffer[..next] == old(buffer[..length]) + text
    {
      next := length;
      for i := 0 to |text|
        invariant next == length + i < buffer.Length
        invariant buffer[..next] == old(buffer[..length]) + text[..i]
      {
        ok, next := AppendChar(buffer, next, text[i]);
        if !ok {
          return;
        }
      }
      ok := true;
    }

    method AppendHex(buffer: array<char>, length: nat, bytes: seq<Byte>) returns (ok: bool, next: nat)
      requires length < buffer.Length
      modifies buffer
      ensures ok <==> length + |Hex(bytes)| < buffer.Length
      ensures ok ==> next == length + |Hex(bytes)| && buffer[..next] == old(buffer[..length]) + Hex(bytes)
    {
      next := length;
      for i := 0 to |bytes|
        invariant next == length + 2 * i < buffer.Length
        invariant buffer[..next] == old(buffer[..length]) + Hex(bytes[..i])
      {
        HexSnoc(bytes[..i], bytes[i]);
        assert bytes[..i + 1] == bytes[..i] + [bytes[i]];
        ok, next := AppendChar(buffer, next, HexDigit(bytes[i] / 16));
        if !ok {
          return;
        }
        ok, next := AppendChar(buffer, next, HexDigit(bytes[i] % 16));
        if !ok {
          return;
        }
      }
      assert bytes[..|bytes|] == bytes;
      ok := true;
    }

    method AppendAccount(buffer: array<char>, length: nat, a: Account) returns (ok: bool, next: nat)
      requires length < buffer.Length
      modifies buffer
      ensures length + |AccountLine(a)| + 1 < buffer.Length ==> ok
      ensures ok ==> next == length + |AccountLine(a)| + 1 < buffer.Length
      ensures ok ==> buffer[..next] == old(buffer[..length]) + (AccountLine(a) + "\n")
    {
      hide Hex;
      ok, next := AppendText(buffer, length, a.name + "|" + Flag(a.administrator) + "|");
      if ok {
        ok, next := AppendHex(buffer, next, a.salt);
      }
      if ok {
        ok, next := AppendChar(buffer, next, '|');
      }
      if ok {
        ok, next := AppendHex(buffer, next, a.digest);
      }
      if ok {
        ok, next := AppendChar(buffer, next, '\n');
      }
    }

    /** Succeeds when the text fits, and then the buffer holds it. */
    method SerializeDatabase(buffer: array<char>) returns (ok: bool, length: nat)
      requires Shape() && buffer.Length > 0
      modifies buffer
      ensures |Serialize(Db())| < buffer.Length ==> ok
      ensures ok ==> length == |Serialize(Db())| < buffer.Length && buffer[..length] == Serialize(Db())
    {
      hide AccountLine, AccountLines;
      buffer[0] := '\0';
      ghost var accounts := slots[..count];
      ok, length := AppendText(buffer, 0, "NASUAUTH2\n" + Flag(login) + "\n" + automatic + "\n");
      if !ok {
        return;
      }
      ghost var head := "NASUAUTH2\n" + Flag(login) + "\n" + automatic + "\n";
      NoLines();
      assert accounts[..0] == [];
      for i := 0 to count
        invariant length == |head| + |AccountLines(accounts[..i])| < buffer.Length
        invariant buffer[..length] == head + AccountLines(accounts[..i])
      {
        LinesSnoc(accounts[..i], slots[i]);
        assert accounts[..i + 1] == accounts[..i] + [slots[i]];
        LinesPrefix(accounts, i + 1);
        ok, length := AppendAccount(buffer, length, slots[i]);
        if !ok {
          return;
        }
      }
      assert accounts[..count] == accounts;
      ok := true;
    }

    /** Stores the database; without success the file is as before. */
    method PersistDatabase(disk: Disk) returns (saved: bool)
      requires Shape() && ValidDatabase(Db())
      modifies this`storageAvailable, this`file
      ensures saved == disk.Saves() && storageAvailable == (!disk.ram && disk.formatted)
      ensures saved ==> Agrees() && file.Some?
      ensures !saved ==> file == old(file)
    {
      hide Serialize, Parse;
      if disk.ram {
        storageAvailable := false;
        return false;
      }
      storageAvailable := disk.formatted;
      if !storageAvailable || !disk.etc {
        return false;
      }
      var buffer := new char[DATABASE_CAPACITY];
      SerializedFits(Db());
      var ok, length := SerializeDatabase(buffer);
      SerializeRoundTrip(Db());
      if !ok || !disk.writes {
        return false;
      }
      file := Some(buffer[..length]);
      return true;
    }

    // ----- reading -----

    /** The next line, cut at a NUL as a C string is. */
    method ParseLine(data: string, offset: nat) returns (line: Option<string>, next: nat)
      requires offset <= |data|
      ensures offset <= next <= |data|
      ensures line.None? <==> TakeLine(data[offset..]).None?
      ensures line.Some? ==> next > offset && TakeLine(data[offset..]) == Some((line.value, data[next..]))
    {
      ghost var rest := data[offset..];
      ghost var n := Until(rest, '\n');
      next := offset;
      while next < |data| && data[next] != '\n'
        invariant offset <= next <= offset + n && next - offset < LINE_CAPACITY
        invariant forall i | offset <= i < next :: data[i] != '\n'
      {
        if next - offset + 1 >= LINE_CAPACITY {
          assert n >= next - offset + 1;
          return None, next;
        }
        next := next + 1;
      }
      assert next < |data| ==> data[next] == rest[next - offset];
      if next >= |data| {
        return None, next;
      }
      UntilIs(rest, '\n', next - offset);
      var whole := data[offset..next];
      assert whole == rest[..n];
      line := Some(whole[..Until(whole, '\0')]);
      next := next + 1;
      assert rest[n + 1..] == data[next..] && rest[..Until(whole, '\0')] == whole[..Until(whole, '\0')];
    }

    /** The account lines, into the slots. */
    method ParseAccountLines(data: string, start: nat) returns (ok: bool, offset: nat)
      requires slots.Length == MAX_USERS && start <= |data|
      modifies this`count, slots
      ensures Shape() && start <= offset <= |data|
      ensures ok == ParseAccounts(data[start..], []).Some?
      ensures ok ==> ParseAccounts(data[start..], []) == Some((slots[..count], data[offset..]))
      ensures slots[..count] == Collected(data[start..], [])
    {
      hide TakeLine, ParseAccount, Named;
      count := 0;
      offset := start;
      while offset < |data| && count < MAX_USERS
        invariant Shape() && start <= offset <= |data|
        invariant ParseAccounts(data[offset..], slots[..count]) == ParseAccounts(data[start..], [])
        invariant Collected(data[offset..], slots[..count]) == Collected(data[start..], [])
        decreases |data| - offset
      {
        var line, next := ParseLine(data, offset);
        if line.None? {
          return false, offset;
        }
        offset := next;
        if line.value != "" {
          var a := ParseAccount(line.value);
          if a.None? {
            return false, offset;
          }
          var known := FindAccount(a.value.name);
          if known >= 0 {
            return false, offset;
          }
          ghost var before := slots[..count];
          slots[count] := a.value;
          count := count + 1;
          assert slots[..count] == before + [a.value];
        }
      }
      ok := true;
    }

    method ParseDatabase(data: string) returns (ok: bool, migrate: bool)
      requires Shape()
      modifies this`login, this`automatic, this`count, slots
      ensures Shape() && ok == Parse(data).Some?
      ensures ok ==> Parse(data) == Some((Db(), migrate))
      ensures !ok ==> Db() == Remains(data, old(Db()))
    {
      hide TakeLine, ParseAccounts, Collected, Named, ValidName;
      migrate := false;
      assert data[0..] == data;
      var l0, o0 := ParseLine(data, 0);
      if l0.None? || (l0.value != "NASUAUTH1" && l0.value != "NASUAUTH2") {
        return false, false;
      }
      migrate := l0.value == "NASUAUTH1";
      var l1, o1 := ParseLine(data, o0);
      if l1.None? || (l1.value != "0" && l1.value != "1") {
        return false, migrate;
      }
      login := l1.value == "1";
      var l2, o2 := ParseLine(data, o1);
      if l2.None? {
        return false, migrate;
      }
      var valid := CheckName(l2.value);
      if !valid {
        return false, migrate;
      }
      automatic := l2.value;
      var offset;
      ok, offset := ParseAccountLines(data, o2);
      if !ok {
        return false, migrate;
      }
      var t := FindAccount(automatic);
      if offset != |data| || count == 0 || t < 0 {
        return false, migrate;
      }
      ok := SomeAdministrator();
      if ok && migrate {
        login := false;
      }
    }

    method SomeAdministrator() returns (found: bool)
      requires Shape()
      ensures found == HasAdministrator(slots[..count])
    {
      for i := 0 to count
        invariant forall k | 0 <= k < i :: !slots[k].administrator
      {
        if slots[i].administrator {
          assert slots[..count][i].administrator;
          return true;
        }
      }
      return false;
    }

    // ----- starting -----

    method SeedDefaults(rootSalt: Salt, userSalt: Salt)
      requires slots.Length == MAX_USERS
      modifies this`count, this`login, this`automatic, slots
      ensures Shape() && ValidDatabase(Db()) && Db() == Defaults(rootSalt, userSalt, hash)
    {
      slots[0] := Account("root", rootSalt, hash("admin", rootSalt), true);
      slots[1] := Account("user", userSalt, hash("user", userSalt), false);
      count := 2;
      login := false;
      automatic := "user";
      assert slots[..count] == [slots[0], slots[1]];
      assert slots[..count][0].administrator && slots[..count][1].name == "user";
    }

    /** Startup. `broken` is a database entry that cannot be read as a file. Success means a valid table that agrees
        with the file, and a session for the automatic login unless the login screen is on. */
    method Boot(disk: Disk, broken: bool, rootSalt: Salt, userSalt: Salt) returns (ok: bool)
      requires Shape() && (!disk.formatted ==> file.None?)
      modifies this, slots
      ensures ok ==> Inv() && Agrees() && (currentValid <==> !login) && (currentValid ==> userName == automatic)
      ensures disk.formatted && old(file).Some? && |old(file).value| < DATABASE_CAPACITY &&
              Parse(old(file).value).Some? && !Parse(old(file).value).value.1 ==>
                ok && Db() == Parse(old(file).value).value.0
      ensures old(file).None? && ok ==> Db() == Defaults(rootSalt, userSalt, hash)
      ensures old(file).None? && !(disk.formatted && broken) && (disk.formatted && !disk.ram ==> disk.Saves()) ==> ok
      ensures !ok ==> !currentValid
    {
      hide ValidDatabase, Parse, ValidName, Named;
      storageAvailable := disk.formatted && !disk.ram;
      databaseValid := true;
      currentValid, active, switching, action := false, -1, false, NoAction;
      if disk.formatted && file.Some? {
        ok := LoadDatabase(disk);
      } else if disk.formatted && broken {
        databaseValid := false;
        ok := false;
      } else {
        SeedDefaults(rootSalt, userSalt);
        ok := true;
        if storageAvailable {
          ok := PersistDatabase(disk);
        }
      }
      if !ok {
        screen := LoginUsername;
        return;
      }
      StartSession();
    }

    method StartSession()
      requires Inv() && !currentValid
      modifies this`active, this`userName, this`currentValid, this`screen, this`action, this`switching, this`input, this`pending
      ensures Inv() && (currentValid <==> !login) && (currentValid ==> userName == automatic)
    {
      hide ValidDatabase, ValidName, Named;
      if login {
        input := "user";
        screen := LoginUsername;
        return;
      }
      AutomaticNamed(Db());
      var t := FindAccount(automatic);
      ApplyAccountSession(t);
    }

    method LoadDatabase(disk: Disk) returns (ok: bool)
      requires Shape() && file.Some? && databaseValid
      modifies this`login, this`automatic, this`count, this`databaseValid, this`storageAvailable, this`file, slots
      ensures ok ==> Shape() && databaseValid && ValidDatabase(Db()) && Agrees()
      ensures |old(file).value| < DATABASE_CAPACITY && Parse(old(file).value).Some? && !Parse(old(file).value).value.1 ==>
                ok && Db() == Parse(old(file).value).value.0
    {
      hide ValidDatabase, Parse;
      if |file.value| >= DATABASE_CAPACITY {
        databaseValid := false;
        return false;
      }
      var migrate;
      ok, migrate := ParseDatabase(file.value);
      if !ok {
        databaseValid := false;
        return false;
      }
      ParsedValid(file.value);
      if migrate {
        ok := PersistDatabase(disk);
        if !ok {
          login := true;
        }
      }
    }

    // ----- commands -----

    /** A command that is refused or whose save fails changes nothing that is stored or belongs to the session. */
    twostate predicate Untouched()
      reads this, slots
      requires old(Shape()) && Shape()
    {
      && Db() == old(Db()) && file == old(file)
      && active == old(active) && userName == old(userName) && currentValid == old(currentValid)
    }

    /** The transaction of the login settings. */
    method StoreSettings(newLogin: bool, newAutomatic: string, disk: Disk) returns (done: bool)
      requires Inv() && ValidDatabase(Db().(login := newLogin, automatic := newAutomatic))
      modifies this`login, this`automatic, this`storageAvailable, this`file
      ensures Inv() && (old(Agrees()) ==> Agrees()) && (old(file).Some? ==> file.Some?)
      ensures done == disk.Saves()
      ensures if done then Db() == old(Db()).(login := newLogin, automatic := newAutomatic) else Untouched()
      ensures Look() == Save(old(Look()), disk, old(Db()).(login := newLogin, automatic := newAutomatic))
    {
      hide ValidDatabase, Parse, ValidName;
      var previous, previousAutomatic := login, automatic;
      login, automatic := newLogin, newAutomatic;
      done := PersistDatabase(disk);
      if !done {
        login, automatic := previous, previousAutomatic;
      }
    }

    method LoginOn(disk: Disk) returns (done: bool)
      requires Inv()
      modifies this`login, this`automatic, this`storageAvailable, this`file
      ensures Inv() && (old(Agrees()) ==> Agrees()) && (old(file).Some? ==> file.Some?)
      ensures done <==> old(Authorised()) && disk.Saves()
      ensures if done then Db() == old(Db()).(login := true) else Untouched()
      ensures Look() == TurnOn(old(Look()), disk)
    {
      hide ValidDatabase, Parse, Admin, Save;
      Seen();
      if !IsAdministrator(CurrentAccount()) {
        return false;
      }
      AutomaticValid(Db(), true, CurrentAccount());
      done := StoreSettings(true, automatic, disk);
    }

    method LoginOff(disk: Disk) returns (done: bool)
      requires Inv()
      modifies this`login, this`automatic, this`storageAvailable, this`file
      ensures Inv() && (old(Agrees()) ==> Agrees()) && (old(file).Some? ==> file.Some?)
      ensures done <==> old(Authorised()) && disk.Saves()
      ensures if done then Db() == old(Db()).(login := false, automatic := userName) else Untouched()
      ensures Look() == TurnOff(old(Look()), disk)
    {
      hide ValidDatabase, Parse, Admin, Save;
      Seen();
      if !IsAdministrator(CurrentAccount()) {
        return false;
      }
      AutomaticValid(Db(), false, CurrentAccount());
      done := StoreSettings(false, userName, disk);
    }

    /** Closes the gap at t. */
    method ShiftLeft(t: nat)
      requires Shape() && t < count
      modifies this`count, slots
      ensures Shape() && count == old(count) - 1 && slots[..count] == RemoveAt(old(slots[..count]), t)
    {
      var index := t;
      while index + 1 < count
        invariant t <= index < count
        invariant forall k | 0 <= k < count :: slots[k] == old(slots[if t <= k < index then k + 1 else k])
        modifies slots
      {
        slots[index] := slots[index + 1];
        index := index + 1;
      }
      count := count - 1;
      assert slots[..count] == RemoveAt(old(slots[..count]), t);
    }

    /** Opens a gap at t and puts the account there. */
    method ShiftRight(t: nat, a: Account)
      requires Shape() && t <= count < MAX_USERS
      modifies this`count, slots
      ensures Shape() && count == old(count) + 1
      ensures slots[..count] == old(slots[..count])[..t] + [a] + old(slots[..count])[t..]
    {
      ghost var was := slots[..count];
      var index := count;
      while index > t
        invariant t <= index <= count
        invariant forall k | 0 <= k < index :: slots[k] == was[k]
        invariant forall k | index < k <= count :: slots[k] == was[k - 1]
        modifies slots
      {
        slots[index] := slots[index - 1];
        index := index - 1;
      }
      slots[t] := a;
      count := count + 1;
      Inserted(was, t, a, slots[..count]);
    }

    /** Position of the only account with this name. */
    ghost function IndexOf(name: string): (i: nat)
      reads this, slots
      requires Shape() && Named(slots[..count], name)
      ensures i < count && slots[i].name == name
    {
      Position(slots[..count], name)
    }

    /** Removes account t and moves the settings that depend on it. */
    method RemoveSlot(t: nat)
      requires Inv() && Authorised() && t < count && t != active
      modifies this`count, this`automatic, this`active, slots
      ensures Inv() && Db() == Removed(old(Db()), t)
    {
      hide ValidDatabase, RemoveAt;
      ghost var before := Db();
      RemovedValid(before, t, active);
      RemovedAt(before.accounts, t, active);
      if automatic == slots[t].name {
        automatic := "root";
      }
      if t < active {
        active := active - 1;
      }
      ShiftLeft(t);
      assert slots[active] == slots[..count][active];
    }

    /** The transaction: remove, save, and undo the removal when the save fails. */
    method Delete(t: nat, disk: Disk) returns (done: bool)
      requires Inv() && Authorised() && t < count && t != active
      modifies this`count, this`automatic, this`active, this`storageAvailable, this`file, slots
      ensures Inv() && (old(Agrees()) ==> Agrees()) && (old(file).Some? ==> file.Some?)
      ensures done == disk.Saves() && Look() == Save(old(Look()), disk, Removed(old(Db()), t))
      ensures if done then Db() == Removed(old(Db()), t) else Untouched()
    {
      hide ValidDatabase, Parse, RemoveAt, Removed;
      var removed, previousAutomatic, previousActive := slots[t], automatic, active;
      ghost var before := Db();
      RemoveSlot(t);
      done := PersistDatabase(disk);
      if !done {
        PutBack(t, removed, previousAutomatic, previousActive, before);
        assert slots[active] == before.accounts[active];
      }
    }

    /** Undoes a removal. */
    method PutBack(t: nat, removed: Account, previousAutomatic: string, previousActive: int, ghost before: Database)
      requires Shape() && t < |before.accounts| <= MAX_USERS && Db() == Removed(before, t)
      requires removed == before.accounts[t] && previousAutomatic == before.automatic
      modifies this`count, this`automatic, this`active, slots
      ensures Shape() && Db() == before && active == previousActive
    {
      hide Removed;
      RemovedAccounts(before, t);
      ShiftRight(t, removed);
      automatic := previousAutomatic;
      active := previousActive;
      assert slots[..count] == before.accounts;
    }

    method UserDel(name: string, disk: Disk) returns (done: bool)
      requires Inv()
      modifies this, slots
      ensures Inv() && (old(Agrees()) ==> Agrees()) && (old(file).Some? ==> file.Some?)
      ensures done <==> old(Authorised()) && disk.Saves() && ValidName(name) && old(Named(slots[..count], name)) && name != "root"
      ensures if done then Db() == Removed(old(Db()), old(IndexOf(name))) else Untouched()
      ensures currentValid == old(currentValid) && userName == old(userName)
      ensures Look() == AccountRuns.Delete(old(Look()), name, disk)
    {
      hide ValidDatabase, Parse, Removed, ValidName, Named, Admin, Save;
      Seen();
      var valid := CheckName(name);
      if !valid || !IsAdministrator(CurrentAccount()) {
        return false;
      }
      var t := FindAccount(name);
      if t < 0 || slots[t].name == "root" || t == CurrentAccount() {
        return false;
      }
      if disk.ram || !disk.formatted {
        return false;
      }
      assert t == IndexOf(name) by { Unique(Db(), t, IndexOf(name)); }
      done := Delete(t, disk);
    }

    /** The transaction of a rename. */
    method Rename(t: nat, newName: string, disk: Disk) returns (done: bool)
      requires Inv() && t < count && ValidName(newName) && !Named(slots[..count], newName)
      modifies this`automatic, this`storageAvailable, this`file, slots
      ensures Shape() && databaseValid && ValidDatabase(Db())
      ensures (old(Agrees()) ==> Agrees()) && (old(file).Some? ==> file.Some?)
      ensures done == disk.Saves() && Look() == Save(old(Look()), disk, Renamed(old(Db()), t, newName))
      ensures if done then Db() == Renamed(old(Db()), t, newName) else Untouched()
    {
      hide ValidDatabase, Parse, Named, ValidName, Renamed, Session;
      ghost var before := Db();
      RenamedValid(before, t, newName);
      var oldName, oldAutomatic := slots[t].name, automatic;
      SetName(t, newName);
      done := PersistDatabase(disk);
      if !done {
        ResetName(t, oldName, oldAutomatic, before, newName);
      }
    }

    method SetName(t: nat, newName: string)
      requires Shape() && t < count
      modifies this`automatic, slots
      ensures Db() == Renamed(old(Db()), t, newName)
    {
      if automatic == slots[t].name {
        automatic := newName;
      }
      slots[t] := slots[t].(name := newName);
      assert slots[..count] == old(slots[..count])[t := old(slots[t]).(name := newName)];
    }

    /** Undoes SetName. */
    method ResetName(t: nat, oldName: string, oldAutomatic: string, ghost before: Database, ghost newName: string)
      requires Shape() && t < count == |before.accounts| && Db() == Renamed(before, t, newName)
      requires oldName == before.accounts[t].name && oldAutomatic == before.automatic
      modifies this`automatic, slots
      ensures Db() == before
    {
      slots[t] := slots[t].(name := oldName);
      automatic := oldAutomatic;
      assert slots[..count] == before.accounts;
    }

    method UserMod(oldName: string, newName: string, disk: Disk) returns (done: bool)
      requires Inv()
      modifies this`automatic, this`storageAvailable, this`file, this`userName, slots
      ensures Inv() && (old(Agrees()) ==> Agrees()) && (old(file).Some? ==> file.Some?)
      ensures done <==> disk.Saves() && ValidName(oldName) && ValidName(newName) && old(storageAvailable) && old(currentValid) &&
                        old(Named(slots[..count], oldName)) && !old(Named(slots[..count], newName)) &&
                        (old(Authorised()) || oldName == old(userName))
      ensures done ==> Db() == Renamed(old(Db()), old(IndexOf(oldName)), newName)
      ensures done ==> userName == if oldName == old(userName) then newName else old(userName)
      ensures !done ==> Untouched()
      ensures Look() == AccountRuns.Rename(old(Look()), oldName, newName, disk)
    {
      hide ValidDatabase, Parse, Named, ValidName, Renamed, Admin, Save;
      Seen();
      var validOld := CheckName(oldName);
      var validNew := CheckName(newName);
      if !validOld || !validNew {
        return false;
      }
      var t := FindAllowed(oldName);
      if t < 0 || oldName == newName {
        return false;
      }
      var other := FindAccount(newName);
      if other >= 0 || !storageAvailable {
        return false;
      }
      done := RenameInSession(t, newName, disk);
    }

    /** A successful rename of the session's own account also changes the user name. */
    method RenameInSession(t: nat, newName: string, disk: Disk) returns (done: bool)
      requires Inv() && currentValid && t < count && ValidName(newName) && !Named(slots[..count], newName)
      modifies this`automatic, this`storageAvailable, this`file, this`userName, slots
      ensures Inv() && (old(Agrees()) ==> Agrees()) && (old(file).Some? ==> file.Some?)
      ensures done == disk.Saves()
      ensures if done then Db() == Renamed(old(Db()), t, newName) else Untouched()
      ensures done ==> userName == if t == active then newName else old(userName)
      ensures var saved := Save(old(Look()), disk, Renamed(old(Db()), t, newName));
              Look() == if done && t == active then saved.(user := newName) else saved
    {
      hide ValidDatabase, Parse, Named, ValidName, Renamed, Agrees;
      ghost var before := Db();
      done := Rename(t, newName, disk);
      RenamedNames(before, t, newName, active);
      assert slots[active] == Db().accounts[active];
      if done && t == active {
        userName := newName;
      }
    }

    /** The account of that name if the session may act on it: its own, or any for an administrator. */
    method FindAllowed(name: string) returns (t: int)
      requires Inv()
      ensures -1 <= t < count
      ensures t >= 0 <==> currentValid && Named(slots[..count], name) && (Authorised() || name == userName)
      ensures t >= 0 ==> t == IndexOf(name) && (t == active <==> name == userName)
    {
      hide ValidDatabase, ValidName, Named;
      var current := CurrentAccount();
      t := FindAccount(name);
      if t >= 0 {
        Unique(Db(), t, IndexOf(name));
        if current >= 0 && name == userName { Unique(Db(), t, current); }
      }
      if current < 0 || t < 0 || (!IsAdministrator(current) && t != current) {
        return -1;
      }
    }

    // ----- passwords -----

    method BeginPasswordChange(kind: Action, name: string, disk: Disk) returns (begun: bool)
      requires Inv() && (kind == AddUser ==> ValidName(name))
      modifies this`storageAvailable, this`target, this`action, this`screen, this`pending
      ensures Inv() && begun == (disk.formatted && !disk.ram)
      ensures begun ==> target == name && action == kind && screen == NewPassword
      ensures Look() == Begin(old(Look()), kind, name, disk)
    {
      hide ValidDatabase, Parse, ValidName;
      storageAvailable := disk.formatted;
      if !storageAvailable || disk.ram {
        return false;
      }
      target := name;
      action := kind;
      screen := NewPassword;
      pending := "";
      return true;
    }

    method UserAdd(name: string, disk: Disk) returns (begun: bool)
      requires Inv()
      modifies this`storageAvailable, this`target, this`action, this`screen, this`pending
      ensures Inv()
      ensures begun <==> old(Authorised()) && ValidName(name) && !Named(slots[..count], name) && count < MAX_USERS &&
                         disk.formatted && !disk.ram
      ensures begun ==> action == AddUser && target == name && screen == NewPassword
      ensures Look() == BeginAdd(old(Look()), name, disk)
    {
      hide ValidDatabase, Parse, ValidName, Named, Admin, Begin;
      Seen();
      var valid := CheckName(name);
      if !valid || !IsAdministrator(CurrentAccount()) {
        return false;
      }
      var t := FindAccount(name);
      if t >= 0 || count >= MAX_USERS {
        return false;
      }
      begun := BeginPasswordChange(AddUser, name, disk);
    }

    /** Without a name, the user's own password. */
    method Passwd(name: string, disk: Disk) returns (begun: bool)
      requires Inv()
      modifies this`storageAvailable, this`target, this`action, this`screen, this`pending
      ensures Inv()
      ensures var wanted := if name == "" then userName else name;
              && (begun <==> currentValid && Named(slots[..count], wanted) && (Authorised() || wanted == userName) &&
                             disk.formatted && !disk.ram)
              && (begun ==> action == ChangePassword && target == wanted && screen == NewPassword)
      ensures Look() == BeginChange(old(Look()), name, disk)
    {
      hide ValidDatabase, Parse, ValidName, Named, Admin, Begin;
      Seen();
      var wanted := if name == "" then userName else name;
      var t := FindAllowed(wanted);
      if t < 0 {
        return false;
      }
      begun := BeginPasswordChange(ChangePassword, wanted, disk);
    }

    /** The transaction of a new account. */
    method AddAccount(salt: Salt, disk: Disk) returns (done: bool)
      requires Inv() && count < MAX_USERS && action == AddUser && !Named(slots[..count], target)
      modifies this`count, this`storageAvailable, this`file, slots
      ensures Inv() && (old(Agrees()) ==> Agrees()) && (old(file).Some? ==> file.Some?)
      ensures done == disk.Saves()
      ensures Look() == Save(old(Look()), disk, Added(old(Db()), target, salt, hash(pending, salt)))
      ensures if done then Db() == Added(old(Db()), target, salt, hash(pending, salt)) else Untouched()
    {
      hide ValidDatabase, Parse, ValidName, Named;
      ghost var before := Db();
      AddedValid(before, target, salt, hash(pending, salt));
      slots[count] := Account(target, salt, hash(pending, salt), false);
      count := count + 1;
      assert slots[..count] == before.accounts + [slots[count - 1]];
      done := PersistDatabase(disk);
      if !done {
        count := count - 1;
        assert slots[..count] == before.accounts;
      }
      assert currentValid ==> slots[active] == before.accounts[active];
    }

    /** The transaction of a changed password. */
    method ChangeAccount(t: nat, salt: Salt, disk: Disk) returns (done: bool)
      requires Inv() && t < count
      modifies this`storageAvailable, this`file, slots
      ensures Inv() && (old(Agrees()) ==> Agrees()) && (old(file).Some? ==> file.Some?)
      ensures done == disk.Saves()
      ensures Look() == Save(old(Look()), disk, Rekeyed(old(Db()), t, salt, hash(pending, salt)))
      ensures if done then Db() == Rekeyed(old(Db()), t, salt, hash(pending, salt)) else Untouched()
    {
      hide ValidDatabase, Parse, ValidName;
      ghost var before := Db();
      RekeyedValid(before, t, salt, hash(pending, salt));
      var previous := slots[t];
      slots[t] := slots[t].(salt := salt, digest := hash(pending, salt));
      assert slots[..count] == Rekeyed(before, t, salt, hash(pending, salt)).accounts;
      done := PersistDatabase(disk);
      if !done {
        slots[t] := previous;
        assert slots[..count] == before.accounts;
      }
      assert currentValid ==> slots[active] == slots[..count][active];
    }

    /** What a confirmed password does to the database. */
    method CommitPasswordChange(salt: Salt, disk: Disk) returns (done: bool)
      requires Inv()
      modifies this, slots
      ensures Inv() && (old(Agrees()) ==> Agrees()) && (old(file).Some? ==> file.Some?) && action == NoAction && screen == Hidden
      ensures currentValid == old(currentValid) && userName == old(userName) && active == old(active)
      ensures done <==> disk.Saves() && if old(action) == AddUser
                                       then old(Authorised()) && !old(Named(slots[..count], target)) && old(count) < MAX_USERS
                                       else old(Named(slots[..count], target))
      ensures done && old(action) == AddUser ==> Db() == Added(old(Db()), old(target), salt, hash(old(pending), salt))
      ensures done && old(action) != AddUser ==>
                Db() == Rekeyed(old(Db()), old(IndexOf(target)), salt, hash(old(pending), salt))
      ensures !done ==> Untouched()
      ensures Look() == Commit(old(Look()), salt, disk, hash)
    {
      hide ValidDatabase, Parse, ValidName, Named, Added, Rekeyed, Admin, Save;
      Seen();
      done := false;
      var t := FindAccount(target);
      if action == AddUser {
        if IsAdministrator(CurrentAccount()) && t < 0 && count < MAX_USERS {
          done := AddAccount(salt, disk);
        }
      } else if t >= 0 {
        assert t == IndexOf(target) by { Unique(Db(), t, IndexOf(target)); }
        done := ChangeAccount(t, salt, disk);
      }
      EndPasswordChange();
    }

    method EndPasswordChange()
      requires Inv()
      modifies this`action, this`screen, this`pending
      ensures Inv() && Look() == old(Look()).(action := NoAction, screen := Hidden, pending := "")
    {
      hide ValidDatabase, ValidName;
      action := NoAction;
      screen := Hidden;
      pending := "";
    }

    // ----- sessions -----

    method ApplyAccountSession(index: nat)
      requires Inv() && index < count
      modifies this`active, this`userName, this`currentValid, this`screen, this`action, this`switching, this`input, this`pending
      ensures Inv() && currentValid && active == index && userName == slots[index].name && screen == Hidden
      ensures action == NoAction && input == "" && pending == ""
    {
      hide ValidDatabase, ValidName, Db;
      active := index;
      userName := slots[index].name;
      currentValid := true;
      screen := Hidden;
      action := NoAction;
      switching := false;
      input := "";
      pending := "";
    }

    lemma Matching(password: string)
      requires Shape()
      ensures Passes(Look(), password, hash) <==>
              Named(slots[..count], input) && slots[IndexOf(input)].digest == hash(password, slots[IndexOf(input)].salt)
    {
    }

    /** The session changes only for a password whose hash is the stored one. */
    method FinishLogin(password: string) returns (ok: bool)
      requires Inv()
      modifies this`active, this`userName, this`currentValid, this`screen, this`action, this`switching, this`input, this`pending
      ensures Inv()
      ensures ok <==> old(Named(slots[..count], input)) &&
                      old(slots[IndexOf(input)].digest == hash(password, slots[IndexOf(input)].salt))
      ensures ok ==> userName == old(input) && currentValid && active == old(IndexOf(input))
      ensures !ok ==> currentValid == old(currentValid) && userName == old(userName) && active == old(active)
      ensures Look() == if ok then old(Look()).(valid := true, user := old(input), screen := Hidden, action := NoAction,
                                                input := "", pending := "") else old(Look())
      ensures ok <==> old(Passes(Look(), password, hash))
    {
      Matching(password);
      hide ValidDatabase, ValidName, Named, Passes;
      var index := FindAccount(input);
      if index >= 0 { Unique(Db(), index, IndexOf(input)); }
      if !databaseValid || index < 0 || hash(password, slots[index].salt) != slots[index].digest {
        return false;
      }
      ApplyAccountSession(index);
      return true;
    }

    /** The name on the login screen. */
    method EnterName(text: string)
      requires Inv()
      modifies this`input, this`screen
      ensures Inv()
      ensures Look() == old(Look()).(input := text, screen := if ValidName(text) && Named(slots[..count], text)
                                                              then LoginPassword else old(screen))
    {
      hide ValidDatabase, ValidName, Named;
      input := text;
      var valid := CheckName(input);
      var t := FindAccount(input);
      if valid && t >= 0 {
        screen := LoginPassword;
      }
    }

    /** The password a second time. */
    method EnterConfirmation(text: string, salt: Salt, disk: Disk)
      requires Inv()
      modifies this, slots
      ensures Inv() && (old(Agrees()) ==> Agrees()) && (old(file).Some? ==> file.Some?)
      ensures text != old(pending) ==> Untouched()
      ensures Look() == if text == old(pending) then Commit(old(Look()), salt, disk, hash)
                        else old(Look()).(pending := "", screen := NewPassword)
    {
      hide ValidDatabase, Parse, ValidName, Named, Added, Rekeyed, Commit;
      if pending != text {
        pending := "";
        screen := NewPassword;
      } else {
        var _ := CommitPasswordChange(salt, disk);
      }
    }

    /** The Enter key; `text` is what has been typed into the field on the screen. */
    method Enter(text: string, salt: Salt, disk: Disk)
      requires Inv()
      modifies this, slots
      ensures Inv() && (old(Agrees()) ==> Agrees()) && (old(file).Some? ==> file.Some?)
      ensures old(screen) == Hidden || old(screen) == LoginUsername || old(screen) == NewPassword ==> Untouched()
      ensures old(screen) == ConfirmPassword && text != old(pending) ==> Untouched()
      ensures old(screen) == LoginPassword ==> file == old(file)
      ensures Look() == Typing(old(Look()), text, salt, disk, hash)
    {
      hide ValidDatabase, Parse, ValidName, Named, Added, Rekeyed, Passes, Commit;
      match screen {
        case LoginUsername => EnterName(text);
        case LoginPassword =>
          var _ := FinishLogin(text);
        case NewPassword =>
          if 0 < |text| < 64 {
            pending := text;
            screen := ConfirmPassword;
          }
        case ConfirmPassword => EnterConfirmation(text, salt, disk);
        case Hidden =>
      }
    }

    /** login without arguments and su ask for a password. */
    method AskPassword(name: string)
      requires Inv()
      modifies this`input, this`switching, this`screen
      ensures Inv() && Look() == Next(old(Look()), Ask(name), hash)
    {
      hide ValidDatabase, ValidName, Named;
      var t := FindAccount(name);
      if t >= 0 {
        input := name;
        switching := true;
        screen := LoginPassword;
      }
    }

    // ----- whole runs -----

    method Step(e: Event)
      requires Inv()
      modifies this, slots
      ensures Inv() && (old(Agrees()) ==> Agrees()) && (old(file).Some? ==> file.Some?)
      ensures Look() == Next(old(Look()), e, hash)
    {
      hide ValidDatabase, Parse, ValidName, Named, Removed, Renamed;
      hide TurnOn, TurnOff, BeginAdd, BeginChange, Typing, AccountRuns.Delete, AccountRuns.Rename;
      match e {
        case LoginScreenOn(disk) => var _ := LoginOn(disk);
        case LoginScreenOff(disk) => var _ := LoginOff(disk);
        case Ask(name) => AskPassword(name);
        case Add(name, disk) => var _ := UserAdd(name, disk);
        case Del(name, disk) => var _ := UserDel(name, disk);
        case Mod(oldName, newName, disk) => var _ := UserMod(oldName, newName, disk);
        case Password(name, disk) => var _ := Passwd(name, disk);
        case Typed(text, salt, disk) => Enter(text, salt, disk);
      }
    }

    /** Every run of commands and password entries, with any disk behaviour, keeps the table valid, the session
        consistent, and the stored file equal to what is in memory. */
    method Run(events: seq<Event>)
      requires Inv() && Agrees()
      modifies this, slots
      ensures Inv() && Agrees() && (old(file).Some? ==> file.Some?)
      ensures Look() == After(old(Look()), events, hash, |events|)
    {
      hide Next, ValidDatabase, Parse, ValidName, Named, Added, Rekeyed, Removed, Renamed;
      for i := 0 to |events|
        invariant Inv() && Agrees() && (old(file).Some? ==> file.Some?) && Look() == After(old(Look()), events, hash, i)
      {
        Step(events[i]);
      }
    }
  }

  lemma Inserted(was: seq<Account>, t: nat, a: Account, now: seq<Account>)
    requires t <= |was| && |now| == |was| + 1 && now[t] == a
    requires (forall k | 0 <= k < t :: now[k] == was[k]) && (forall k | t < k < |now| :: now[k] == was[k - 1])
    ensures now == was[..t] + [a] + was[t..]
  {
  }

  lemma AutomaticNamed(db: Database)
    requires ValidDatabase(db)
    ensures Named(db.accounts, db.automatic)
  {
  }

  lemma RenamedNames(db: Database, t: nat, name: string, i: int)
    requires t < |db.accounts| && 0 <= i < |db.accounts|
    ensures |Renamed(db, t, name).accounts| == |db.accounts|
    ensures Renamed(db, t, name).accounts[i].name == if i == t then name else db.accounts[i].name
  {
  }

  lemma RemovedAccounts(db: Database, t: nat)
    requires t < |db.accounts|
    ensures var r := Removed(db, t).accounts;
            |r| == |db.accounts| - 1 && r[..t] + [db.accounts[t]] + r[t..] == db.accounts && Removed(db, t).login == db.login
  {
  }

  lemma Unique(db: Database, i: nat, j: nat)
    requires ValidDatabase(db) && i < |db.accounts| && j < |db.accounts| && db.accounts[i].name == db.accounts[j].name
    ensures i == j
  {
  }

  lemma HexSnoc(bytes: seq<Byte>, b: Byte)
    ensures Hex(bytes + [b]) == Hex(bytes) + [HexDigit(b / 16), HexDigit(b % 16)]
  {
    if |bytes| > 0 {
      assert (bytes + [b])[1..] == bytes[1..] + [b];
      HexSnoc(bytes[1..], b);
    }
  }

  lemma NoLines()
    ensures AccountLines([]) == ""
  {
  }

  lemma LinesSnoc(accounts: seq<Account>, a: Account)
    ensures AccountLines(accounts + [a]) == AccountLines(accounts) + (AccountLine(a) + "\n")
  {
    hide AccountLine;
    if |accounts| == 0 {
      assert accounts + [a] == [a] && [a][1..] == [];
    } else {
      assert (accounts + [a])[1..] == accounts[1..] + [a];
      LinesSnoc(accounts[1..], a);
    }
  }

  lemma LinesPrefix(accounts: seq<Account>, n: nat)
    requires n <= |accounts|
    ensures |AccountLines(accounts[..n])| <= |AccountLines(accounts)|
    decreases |accounts| - n
  {
    if n == |accounts| {
      assert accounts[..n] == accounts;
    } else {
      LinesSnoc(accounts[..n], accounts[n]);
      assert accounts[..n + 1] == accounts[..n] + [accounts[n]];
      LinesPrefix(accounts, n + 1);
    }
  }
}
