/** The account database and its text form. */
module AccountFile {
  import opened Wrappers
  import opened Words

  const MAX_USERS := 16
  const LINE_CAPACITY := 128
  const DATABASE_CAPACITY := 4096

  type Salt = s: seq<Byte> | |s| == 16 witness seq(16, _ => 0)
  type Digest = s: seq<Byte> | |s| == 32 witness seq(32, _ => 0)

  datatype Account = Account(name: string, salt: Salt, digest: Digest, administrator: bool)

  datatype Database = Database(login: bool, automatic: string, accounts: seq<Account>)

  // ----- valid databases -----

  predicate NameCharacter(c: char) {
    'a' <= c <= 'z' || 'A' <= c <= 'Z' || '0' <= c <= '9' || c == '_' || c == '-'
  }

  predicate ValidName(name: string) {
    1 <= |name| <= 15 && forall i | 0 <= i < |name| :: NameCharacter(name[i])
  }

  method CheckName(name: string) returns (ok: bool)
    ensures ok == ValidName(name)
  {
    if |name| == 0 {
      return false;
    }
    for length := 0 to |name|
      invariant length <= 15 && forall i | 0 <= i < length :: NameCharacter(name[i])
    {
      if length >= 15 || !NameCharacter(name[length]) {
        return false;
      }
    }
    return true;
  }

  predicate Named(accounts: seq<Account>, name: string) {
    exists i | 0 <= i < |accounts| :: accounts[i].name == name
  }

  predicate Distinct(accounts: seq<Account>) {
    forall i, j | 0 <= i < j < |accounts| :: accounts[i].name != accounts[j].name
  }

  predicate HasAdministrator(accounts: seq<Account>) {
    exists i | 0 <= i < |accounts| :: accounts[i].administrator
  }

  predicate ValidNames(accounts: seq<Account>) {
    forall i | 0 <= i < |accounts| :: ValidName(accounts[i].name)
  }

  predicate ValidDatabase(db: Database) {
    && |db.accounts| <= MAX_USERS
    && ValidNames(db.accounts) && Distinct(db.accounts)
    && HasAdministrator(db.accounts)
    && ValidName(db.automatic) && Named(db.accounts, db.automatic)
  }

  // ----- hexadecimal -----

  function HexDigit(v: int): char
    requires 0 <= v < 16
  {
    if v < 10 then '0' + v as char else 'a' + (v - 10) as char
  }

  lemma HexDigitValue(v: int)
    requires 0 <= v < 16
    ensures HexValue(HexDigit(v)) == v && HexDigit(v) != '\n' && HexDigit(v) != '\0' && HexDigit(v) != '|'
  {
  }

  function Hex(bytes: seq<Byte>): (s: string)
    ensures |s| == 2 * |bytes|
  {
    if |bytes| == 0 then "" else [HexDigit(bytes[0] / 16), HexDigit(bytes[0] % 16)] + Hex(bytes[1..])
  }

  function DecodeHex(s: string): Option<seq<Byte>>
    requires |s| % 2 == 0
  {
    if |s| == 0 then Some([])
    else
      var high, low := HexValue(s[0]), HexValue(s[1]);
      if high < 0 || low < 0 then None
      else
        var rest := DecodeHex(s[2..]);
        if rest.None? then None else Some([16 * high + low] + rest.value)
  }

  lemma {:induction false} HexRoundTrip(bytes: seq<Byte>)
    ensures DecodeHex(Hex(bytes)) == Some(bytes)
  {
    hide HexDigit, HexValue;
    if |bytes| > 0 {
      HexDigitValue(bytes[0] / 16);
      HexDigitValue(bytes[0] % 16);
      HexRoundTrip(bytes[1..]);
      assert Hex(bytes)[2..] == Hex(bytes[1..]);
      assert bytes == [bytes[0]] + bytes[1..];
    }
  }

  lemma {:induction false} DecodedLength(s: string)
    requires |s| % 2 == 0 && DecodeHex(s).Some?
    ensures 2 * |DecodeHex(s).value| == |s|
  {
    if |s| > 0 { DecodedLength(s[2..]); }
  }

  // ----- writing -----

  function Flag(b: bool): string {
    if b then "1" else "0"
  }

  function AccountLine(a: Account): string {
    a.name + "|" + Flag(a.administrator) + "|" + Hex(a.salt) + "|" + Hex(a.digest)
  }

  function AccountLines(accounts: seq<Account>): string {
    if |accounts| == 0 then "" else AccountLine(accounts[0]) + "\n" + AccountLines(accounts[1..])
  }

  function Serialize(db: Database): string {
    "NASUAUTH2\n" + Flag(db.login) + "\n" + db.automatic + "\n" + AccountLines(db.accounts)
  }

  lemma {:induction false} LinesLength(accounts: seq<Account>)
    requires ValidNames(accounts)
    ensures |AccountLines(accounts)| <= 116 * |accounts|
  {
    if |accounts| > 0 { LinesLength(accounts[1..]); }
  }

  /** A valid database always fits in the buffer. */
  lemma SerializedFits(db: Database)
    requires ValidDatabase(db)
    ensures |Serialize(db)| < DATABASE_CAPACITY
  {
    LinesLength(db.accounts);
  }

  // ----- reading -----

  /** Length of the longest prefix without the character. */
  function Until(s: string, c: char): (n: nat)
    ensures n <= |s| && (n < |s| ==> s[n] == c) && forall i | 0 <= i < n :: s[i] != c
  {
    if |s| == 0 || s[0] == c then 0 else 1 + Until(s[1..], c)
  }

  lemma UntilIs(s: string, c: char, n: nat)
    requires n <= |s| && (n < |s| ==> s[n] == c) && forall i | 0 <= i < n :: s[i] != c
    ensures Until(s, c) == n
  {
  }

  /** The next line as a C string, and what follows it. */
  function TakeLine(data: string): Option<(string, string)> {
    var n := Until(data, '\n');
    if n == |data| || n >= LINE_CAPACITY then None
    else Some((data[..Until(data[..n], '\0')], data[n + 1..]))
  }

  predicate Plain(s: string) {
    forall i | 0 <= i < |s| :: s[i] != '\n' && s[i] != '\0'
  }

  lemma TakeLineOf(line: string, rest: string)
    requires Plain(line) && |line| < LINE_CAPACITY
    ensures TakeLine(line + "\n" + rest) == Some((line, rest))
  {
    var data := line + "\n" + rest;
    UntilIs(data, '\n', |line|);
    assert data[..|line|] == line;
    UntilIs(line, '\0', |line|);
    assert data[|line| + 1..] == rest;
  }

  /** The text before and behind the first bar. */
  function Cut(s: string): Option<(string, string)> {
    var n := Until(s, '|');
    if n == |s| then None else Some((s[..n], s[n + 1..]))
  }

  function ParseAccount(line: string): Option<Account> {
    var name := Cut(line);
    if name.None? then None
    else
      var flag := Cut(name.value.1);
      if flag.None? then None
      else
        var salt := Cut(flag.value.1);
        if salt.None? then None
        else ParseFields(name.value.0, flag.value.0, salt.value.0, salt.value.1)
  }

  function ParseFields(name: string, flag: string, salt: string, digest: string): (r: Option<Account>)
    ensures r.Some? ==> r.value.name == name && ValidName(name)
  {
    if !ValidName(name) || (flag != "0" && flag != "1") || |salt| != 32 || |digest| != 64 then None
    else
      var s, d := DecodeHex(salt), DecodeHex(digest);
      if s.None? || d.None? then None
      else
        DecodedLength(salt); DecodedLength(digest);
        Some(Account(name, s.value, d.value, flag == "1"))
  }

  /** Accounts from the remaining lines, behind those already read; empty lines are skipped. */
  function ParseAccounts(data: string, accounts: seq<Account>): Option<(seq<Account>, string)>
    decreases |data|
  {
    if |data| == 0 || |accounts| >= MAX_USERS then Some((accounts, data))
    else
      var line := TakeLine(data);
      if line.None? then None
      else if |line.value.0| == 0 then ParseAccounts(line.value.1, accounts)
      else
        var a := ParseAccount(line.value.0);
        if a.None? || Named(accounts, a.value.name) then None
        else ParseAccounts(line.value.1, accounts + [a.value])
  }

  /** The database and whether it is in the old format, whose login setting is dropped. */
  function Parse(data: string): Option<(Database, bool)> {
    var l0 := TakeLine(data);
    if l0.None? || (l0.value.0 != "NASUAUTH1" && l0.value.0 != "NASUAUTH2") then None
    else
      var migrate := l0.value.0 == "NASUAUTH1";
      var l1 := TakeLine(l0.value.1);
      if l1.None? || (l1.value.0 != "0" && l1.value.0 != "1") then None
      else
        var l2 := TakeLine(l1.value.1);
        if l2.None? || !ValidName(l2.value.0) then None
        else
          var r := ParseAccounts(l2.value.1, []);
          if r.None? || |r.value.1| != 0 || |r.value.0| == 0 || !Named(r.value.0, l2.value.0) ||
             !HasAdministrator(r.value.0) then None
          else Some((Database(!migrate && l1.value.0 == "1", l2.value.0, r.value.0), migrate))
  }

  /** The accounts read before the first line that is refused. */
  function Collected(data: string, accounts: seq<Account>): (r: seq<Account>)
    ensures ParseAccounts(data, accounts).Some? ==> r == ParseAccounts(data, accounts).value.0
    decreases |data|
  {
    if |data| == 0 || |accounts| >= MAX_USERS then accounts
    else
      var line := TakeLine(data);
      if line.None? then accounts
      else if |line.value.0| == 0 then Collected(line.value.1, accounts)
      else
        var a := ParseAccount(line.value.0);
        if a.None? || Named(accounts, a.value.name) then accounts
        else Collected(line.value.1, accounts + [a.value])
  }

  /** What a refused text leaves of the settings and accounts in memory. */
  function Remains(data: string, db: Database): Database {
    var l0 := TakeLine(data);
    if l0.None? || (l0.value.0 != "NASUAUTH1" && l0.value.0 != "NASUAUTH2") then db
    else
      var l1 := TakeLine(l0.value.1);
      if l1.None? || (l1.value.0 != "0" && l1.value.0 != "1") then db
      else
        var l2 := TakeLine(l1.value.1);
        if l2.None? || !ValidName(l2.value.0) then db.(login := l1.value.0 == "1")
        else Database(l1.value.0 == "1", l2.value.0, Collected(l2.value.1, []))
  }

  // ----- reading undoes writing -----

  /** A file of the old format is read like one of the new, but for the login screen, which starts switched off. */
  lemma OldFormat(rest: string)
    ensures var old1, new2 := Parse("NASUAUTH1\n" + rest), Parse("NASUAUTH2\n" + rest);
            && old1.Some? == new2.Some?
            && (new2.Some? ==> !new2.value.1 && old1.value == (new2.value.0.(login := false), true))
  {
    hide ParseAccounts, HasAdministrator, Named, ValidName, TakeLine;
    Headers(rest);
  }

  lemma Headers(rest: string)
    ensures "NASUAUTH1" != "NASUAUTH2"
    ensures TakeLine("NASUAUTH1\n" + rest) == Some(("NASUAUTH1", rest)) && TakeLine("NASUAUTH2\n" + rest) == Some(("NASUAUTH2", rest))
  {
    var h1, h2 := "NASUAUTH1", "NASUAUTH2";
    assert h1[8] != h2[8] && Plain(h1) && Plain(h2) && |h1| == |h2| == 9;
    assert h1 + "\n" + rest == "NASUAUTH1\n" + rest && h2 + "\n" + rest == "NASUAUTH2\n" + rest;
    hide TakeLine, Plain;
    TakeLineOf(h1, rest);
    TakeLineOf(h2, rest);
  }

  predicate NoBar(s: string) {
    forall i | 0 <= i < |s| :: s[i] != '|'
  }

  lemma CutOf(field: string, rest: string)
    requires NoBar(field)
    ensures Cut(field + "|" + rest) == Some((field, rest))
  {
    var s := field + "|" + rest;
    UntilIs(s, '|', |field|);
    assert s[..|field|] == field && s[|field| + 1..] == rest;
  }

  lemma {:induction false} HexPlain(bytes: seq<Byte>)
    ensures Plain(Hex(bytes)) && NoBar(Hex(bytes))
  {
    if |bytes| > 0 {
      HexDigitValue(bytes[0] / 16);
      HexDigitValue(bytes[0] % 16);
      HexPlain(bytes[1..]);
    }
  }

  lemma NamePlain(name: string)
    requires ValidName(name)
    ensures Plain(name) && NoBar(name)
  {
    forall i | 0 <= i < |name| ensures name[i] != '\n' && name[i] != '\0' && name[i] != '|' {
      assert NameCharacter(name[i]);
    }
  }

  lemma AccountRoundTrip(a: Account)
    requires ValidName(a.name)
    ensures ParseAccount(AccountLine(a)) == Some(a)
  {
    hide Hex, Cut, DecodeHex, Plain, NoBar, ValidName;
    NamePlain(a.name);
    HexPlain(a.salt);
    HexPlain(a.digest);
    FlagPlain(a.administrator);
    var tail := Hex(a.salt) + "|" + Hex(a.digest);
    var middle := Flag(a.administrator) + "|" + tail;
    CutOf(a.name, middle);
    CutOf(Flag(a.administrator), tail);
    CutOf(Hex(a.salt), Hex(a.digest));
    assert AccountLine(a) == a.name + "|" + middle;
    FieldsRoundTrip(a);
  }

  lemma FieldsRoundTrip(a: Account)
    requires ValidName(a.name)
    ensures ParseFields(a.name, Flag(a.administrator), Hex(a.salt), Hex(a.digest)) == Some(a)
  {
    hide Hex, DecodeHex, ValidName;
    HexRoundTrip(a.salt);
    HexRoundTrip(a.digest);
  }

  lemma FlagPlain(b: bool)
    ensures Plain(Flag(b)) && NoBar(Flag(b))
  {
  }

  lemma AccountLinePlain(a: Account)
    requires ValidName(a.name)
    ensures Plain(AccountLine(a)) && 1 <= |AccountLine(a)| < LINE_CAPACITY
  {
    hide Hex, NameCharacter;
    NamePlain(a.name);
    HexPlain(a.salt);
    HexPlain(a.digest);
  }

  lemma {:induction false} AccountsRoundTrip(done: seq<Account>, accounts: seq<Account>)
    requires |done| + |accounts| <= MAX_USERS && ValidNames(accounts) && Distinct(done + accounts)
    ensures ParseAccounts(AccountLines(accounts), done) == Some((done + accounts, ""))
    decreases |accounts|
  {
    hide ValidName, AccountLine, TakeLine, ParseAccount;
    if |accounts| == 0 {
      assert done + accounts == done;
    } else {
      var a, rest := accounts[0], accounts[1..];
      AccountRoundTrip(a);
      AccountLinePlain(a);
      TakeLineOf(AccountLine(a), AccountLines(rest));
      assert AccountLines(accounts) == AccountLine(a) + "\n" + AccountLines(rest);
      assert done + accounts == (done + [a]) + rest;
      forall i | 0 <= i < |done| ensures done[i].name != a.name {
        assert (done + accounts)[i] == done[i] && (done + accounts)[|done|] == a;
      }
      AccountsRoundTrip(done + [a], rest);
    }
  }

  /** Reading back what was written gives the same database, in the current format. */
  lemma SerializeRoundTrip(db: Database)
    requires ValidDatabase(db)
    ensures Parse(Serialize(db)) == Some((db, false))
  {
    hide AccountLines, TakeLine, ParseAccounts, HasAdministrator, Named;
    var l3 := AccountLines(db.accounts);
    var l2 := db.automatic + "\n" + l3;
    var l1 := Flag(db.login) + "\n" + l2;
    assert Serialize(db) == "NASUAUTH2" + "\n" + l1;
    NamePlain(db.automatic);
    TakeLineOf("NASUAUTH2", l1);
    TakeLineOf(Flag(db.login), l2);
    TakeLineOf(db.automatic, l3);
    assert [] + db.accounts == db.accounts;
    AccountsRoundTrip([], db.accounts);
    assert |db.accounts| > 0 by { AdministratorExists(db.accounts); }
  }

  lemma AdministratorExists(accounts: seq<Account>)
    requires HasAdministrator(accounts)
    ensures |accounts| > 0
  {
  }

  lemma {:induction false} ParsedAccountsValid(data: string, accounts: seq<Account>)
    requires |accounts| <= MAX_USERS && ValidNames(accounts) && Distinct(accounts)
    ensures ParseAccounts(data, accounts).Some? ==>
              var r := ParseAccounts(data, accounts).value.0;
              |r| <= MAX_USERS && ValidNames(r) && Distinct(r)
    decreases |data|
  {
    hide ValidName, ParseAccount, Named;
    if |data| > 0 && |accounts| < MAX_USERS {
      var line := TakeLine(data);
      if line.Some? {
        if |line.value.0| == 0 {
          ParsedAccountsValid(line.value.1, accounts);
        } else {
          var a := ParseAccount(line.value.0);
          if a.Some? && !Named(accounts, a.value.name) {
            ParsedNameValid(line.value.0);
            AddedDistinct(accounts, a.value);
            ParsedAccountsValid(line.value.1, accounts + [a.value]);
          }
        }
      }
    }
  }

  lemma ParsedNameValid(line: string)
    requires ParseAccount(line).Some?
    ensures ValidName(ParseAccount(line).value.name)
  {
  }

  lemma AddedDistinct(accounts: seq<Account>, a: Account)
    requires Distinct(accounts) && !Named(accounts, a.name)
    ensures Distinct(accounts + [a])
  {
  }

  /** The reader accepts valid databases only. */
  lemma ParsedValid(data: string)
    requires Parse(data).Some?
    ensures ValidDatabase(Parse(data).value.0)
  {
    hide TakeLine, ParseAccounts, ValidName, HasAdministrator, Named;
    var l2 := TakeLine(TakeLine(TakeLine(data).value.1).value.1);
    ParsedAccountsValid(l2.value.1, []);
  }
}
